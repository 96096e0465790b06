/** The Wilson score interval over exact reals, for any positive z. */
module Intervals {

  function Product(x: real, y: real): real {
    x * y
  }

  function Square(x: real): real {
    Product(x, x)
  }


  lemma ProductSigns(x: real, y: real)
    ensures x > 0.0 && y > 0.0 ==> Product(x, y) > 0.0
    ensures x < 0.0 && y < 0.0 ==> Product(x, y) > 0.0
    ensures x == 0.0 || y == 0.0 <==> Product(x, y) == 0.0
  {}

  lemma SquareIsNonnegative(x: real)
    ensures if x == 0.0 then Square(x) == 0.0 else Square(x) > 0.0
  {
    hide Product;
    ProductSigns(x, x);
  }

  function Proportion(k: nat, n: nat): (p: real)
    requires 0 < n && k <= n
    ensures 0.0 <= p <= 1.0
  {
    ProportionRange(k, n);
    k as real / n as real
  }

  lemma ProportionRange(k: nat, n: nat)
    requires 0 < n && k <= n
    ensures 0.0 <= k as real / n as real <= 1.0
  {
    QuotientOrder(0.0, k as real, n as real);
    QuotientOrder(k as real, n as real, n as real);
    Cancel(1.0, n as real, n as real);
    Cancel(0.0, 0.0, n as real);
  }

  lemma QuotientOrder(x: real, y: real, d: real)
    requires x <= y && d > 0.0
    ensures x / d <= y / d
    ensures x < y ==> x / d < y / d
  {
    var q := 1.0 / d;
    assert q > 0.0;
    assert x / d == x * q && y / d == y * q;
    ProductOrder(x, y, q);
  }

  lemma ProductOrder(x: real, y: real, c: real)
    requires x <= y && c > 0.0
    ensures x * c <= y * c
    ensures x < y ==> x * c < y * c
  {}

  /** What the square root is taken of, for squared z `z2`. */
  function Radicand(p: real, n: real, z2: real): real
    requires n > 0.0
  {
    PositiveProduct(4.0 * n, n);
    p * (1.0 - p) / n + z2 / (4.0 * n * n)
  }

  /** The interval; `root` is the square root of the radicand. An empty sample has the full range. */
  function WilsonInterval(k: nat, n: nat, z: real, root: real): (real, real)
    requires k <= n
  {
    if n == 0 then (0.0, 1.0)
    else
      var (lo, hi) := Ends(Proportion(k, n), Square(z) / n as real, z * root);
      (if lo < 0.0 then 0.0 else lo, if hi > 1.0 then 1.0 else hi)
  }

  /** Center and margin over the common denominator, before clamping. */
  function Ends(p: real, a: real, m: real): (real, real) {
    if 1.0 + a == 0.0 then (0.0, 0.0)
    else ((p + a / 2.0) / (1.0 + a) - m / (1.0 + a), (p + a / 2.0) / (1.0 + a) + m / (1.0 + a))
  }

  ghost predicate IsSetting(k: nat, n: nat, z: real, root: real) {
    0 < n && k <= n && z > 0.0 && root >= 0.0 && Square(root) == Radicand(Proportion(k, n), n as real, Square(z))
  }

  /** The scaled margin of proportion `p`, where `a` is the squared z over the sample size. */
  ghost predicate IsMargin(p: real, a: real, m: real) {
    0.0 <= p <= 1.0 && a > 0.0 && m >= 0.0 && Square(m) == a * (p * (1.0 - p)) + Square(a) / 4.0
  }

  lemma ScaledMargin(k: nat, n: nat, z: real, root: real)
    requires IsSetting(k, n, z, root)
    ensures IsMargin(Proportion(k, n), Square(z) / n as real, z * root)
  {
    hide Radicand, IsMargin;
    var z2 := Square(z);
    SquareIsNonnegative(z);
    Nonnegative(z, root);
    SquareOfProduct(z, root);
    MarginOf(Proportion(k, n), n as real, z2, z * root);
  }

  lemma MarginOf(p: real, n: real, z2: real, m: real)
    requires 0.0 <= p <= 1.0 && n > 0.0 && z2 > 0.0 && m >= 0.0 && Square(m) == z2 * Radicand(p, n, z2)
    ensures IsMargin(p, z2 / n, m)
  {
    PositiveQuotient(z2, n);
    ScaledRadicand(z2, p * (1.0 - p), n, p);
  }

  lemma PositiveQuotient(x: real, n: real)
    requires x > 0.0 && n > 0.0
    ensures x / n > 0.0
  {}

  lemma PositiveProduct(x: real, y: real)
    requires x > 0.0 && y > 0.0
    ensures x * y > 0.0
  {}

  lemma SquareOfProduct(x: real, y: real)
    ensures Square(x * y) == Square(x) * Square(y)
  {}

  lemma ScaledRadicand(z2: real, v: real, n: real, p: real)
    requires n > 0.0 && v == p * (1.0 - p)
    ensures z2 * Radicand(p, n, z2) == z2 / n * v + z2 / n * (z2 / n) / 4.0
  {
    PositiveProduct(4.0 * n, n);
    var (a, b, q) := (z2 / n, v / n, z2 / (4.0 * n * n));
    ByTotal(z2, n, b, v);
    QuarterQuotient(z2, n);
    ByTotal(z2, n, q, a / 4.0);
    Distributes(z2, b, q);
  }

  /** A factor of the total cancels. */
  lemma ByTotal(z2: real, n: real, b: real, v: real)
    requires n > 0.0 && b * n == v
    ensures z2 * b == z2 / n * v
  {
    var a := z2 / n;
    assert a * n == z2;
    Rearranged(a, n, b);
  }

  lemma Distributes(x: real, y: real, z: real)
    ensures x * (y + z) == x * y + x * z
  {}

  lemma QuarterQuotient(z2: real, n: real)
    requires n > 0.0 && 4.0 * n * n != 0.0
    ensures z2 / (4.0 * n * n) * n == z2 / n / 4.0
  {
    DivideTwice(z2, 4.0 * n, n);
    DivideTwice(z2, n, 4.0);
  }

  lemma DivideTwice(x: real, a: real, b: real)
    requires a > 0.0 && b > 0.0 && a * b != 0.0
    ensures x / (a * b) == x / a / b
  {
    var w := x / a / b;
    assert w * b == x / a && x / a * a == x;
    Rearranged(a, b, w);
    assert w * (a * b) == w * b * a;
    Cancel(w, x, a * b);
  }

  lemma Rearranged(a: real, n: real, b: real)
    ensures a * n * b == a * (b * n)
  {}

  lemma Cancel(x: real, y: real, d: real)
    requires d != 0.0 && x * d == y
    ensures x == y / d
  {}

  lemma SameQuotient(x: real, y: real, n: real)
    requires n > 0.0 && x * n == y * n
    ensures x == y
  {
    Cancel(x, y * n, n);
    Cancel(y, y * n, n);
  }

  lemma SquareRises(x: real, y: real)
    requires 0.0 <= x < y
    ensures Square(x) < Square(y)
  {
    ProductSigns(y - x, y + x);
    DifferenceOfSquares(x, y);
    hide Product, Square;
  }

  lemma DifferenceOfSquares(x: real, y: real)
    ensures Product(y - x, y + x) == Square(y) - Square(x)
  {}

  lemma SquaresOrder(x: real, y: real)
    requires y >= 0.0 && Square(x) <= Square(y)
    ensures -y <= x <= y
  {
    if x > y { SquareRises(y, x); }
    if x < -y { SquareRises(y, -x); }
  }

  // --- the ends as roots ---------------------------------------------------------------------

  /** The quadratic whose roots the ends are. */
  function Quadratic(p: real, a: real, x: real): real {
    (1.0 + a) * Square(x) - (2.0 * p + a) * x + Square(p)
  }

  /** The ends, multiplied out. */
  lemma EndsScaled(p: real, a: real, m: real)
    requires a > 0.0
    ensures var (lo, hi) := Ends(p, a, m); (1.0 + a) * lo == p + a / 2.0 - m && (1.0 + a) * hi == p + a / 2.0 + m
  {
    var (d, s) := (1.0 + a, p + a / 2.0);
    assert d * (s / d) == s && d * (m / d) == m;
    assert d * (s / d - m / d) == d * (s / d) - d * (m / d);
    assert d * (s / d + m / d) == d * (s / d) + d * (m / d);
  }

  lemma MarginSquare(p: real, a: real, m: real)
    requires IsMargin(p, a, m)
    ensures Square(m) == a * p - a * Square(p) + Square(a) / 4.0
  {
    Spread(p, a);
  }

  lemma CenterSquare(p: real, a: real)
    ensures Square(p + a / 2.0) == Square(p) + a * p + Square(a) / 4.0
  {}

  /** The product of the ends is the squared proportion over the common denominator. */
  lemma EndsProduct(p: real, a: real, m: real)
    requires IsMargin(p, a, m)
    ensures var (lo, hi) := Ends(p, a, m); (1.0 + a) * (lo * hi) == Square(p)
  {
    var ((lo, hi), d, s) := (Ends(p, a, m), 1.0 + a, p + a / 2.0);
    EndsScaled(p, a, m);
    MarginSquare(p, a, m);
    CenterSquare(p, a);
    assert (s - m) * (s + m) == Square(s) - Square(m);
    assert d * Square(p) == Square(p) + a * Square(p);
    SquareOfScaled(d, lo, hi);
    SameQuotient(d * (lo * hi), Square(p), d);
  }

  lemma SquareOfScaled(d: real, x: real, y: real)
    ensures (d * x) * (d * y) == (d * (x * y)) * d
  {}

  /** The unclamped ends are the two roots. */
  lemma QuadraticFactors(p: real, a: real, m: real, x: real)
    requires IsMargin(p, a, m)
    ensures var (lo, hi) := Ends(p, a, m); Quadratic(p, a, x) == Product(1.0 + a, Product(x - lo, x - hi))
  {
    var ((lo, hi), d) := (Ends(p, a, m), 1.0 + a);
    EndsScaled(p, a, m);
    EndsProduct(p, a, m);
    Factored(d, lo, hi, x);
    assert d * (lo + hi) == d * lo + d * hi == 2.0 * p + a;
  }

  lemma Factored(d: real, lo: real, hi: real, x: real)
    ensures d * ((x - lo) * (x - hi)) == d * Square(x) - (d * (lo + hi)) * x + d * (lo * hi)
  {
    assert (x - lo) * (x - hi) == Square(x) - (lo + hi) * x + lo * hi;
    assert d * ((lo + hi) * x) == (d * (lo + hi)) * x;
  }

  /** The ends lie in [0, 1] around the proportion, apart by a positive width. */
  lemma EndsInOrder(p: real, a: real, m: real)
    requires IsMargin(p, a, m)
    ensures var (lo, hi) := Ends(p, a, m); 0.0 <= lo <= p <= hi <= 1.0 && lo < hi
  {
    hide *;
    PositiveDenominator(p, a, m);
    EndsScaled(p, a, m);
    MarginIsLow(p, a, m);
    MarginIsLow(1.0 - p, a, m);
    MarginCoversCenter(p, a, m);
    Denominated(p, a);
    var (lo, hi) := Ends(p, a, m);
    InOrderFromScaled(1.0 + a, p, lo, hi, p + a / 2.0 - m, p + a * p, p + a / 2.0 + m);
  }

  lemma Denominated(p: real, a: real)
    ensures (1.0 + a) * p == p + a * p
  {}

  lemma InOrderFromScaled(d: real, p: real, lo: real, hi: real, dlo: real, dp: real, dhi: real)
    requires d > 0.0 && d * lo == dlo && d * p == dp && d * hi == dhi
    requires 0.0 <= dlo <= dp <= dhi <= d && dlo < dhi
    ensures 0.0 <= lo <= p <= hi <= 1.0 && lo < hi
  {
    assert d * 0.0 == 0.0 && d * 1.0 == d;
    FromScaled(d, 0.0, lo, 0.0, dlo);
    FromScaled(d, lo, p, dlo, dp);
    FromScaled(d, p, hi, dp, dhi);
    FromScaled(d, hi, 1.0, dhi, d);
    FromScaled(d, lo, hi, dlo, dhi);
  }

  lemma FromScaled(d: real, x: real, y: real, dx: real, dy: real)
    requires d > 0.0 && d * x == dx && d * y == dy && dx <= dy
    ensures x <= y && (dx < dy ==> x < y)
  {
    if y < x { ProductOrder(y, x, d); }
  }

  lemma MarginIsLow(p: real, a: real, m: real)
    requires IsMargin(p, a, m) || IsMargin(1.0 - p, a, m)
    ensures 0.0 < m <= p + a / 2.0 && a > 0.0
  {
    assert p * (1.0 - p) == (1.0 - p) * (1.0 - (1.0 - p));
    MarginSquare(p, a, m);
    CenterSquare(p, a);
    SquareIsNonnegative(p);
    Nonnegative(a, Square(p));
    hide IsMargin;
    SquaresOrder(m, p + a / 2.0);
    MarginIsPositive(p, a, m);
  }

  lemma MarginIsPositive(p: real, a: real, m: real)
    requires 0.0 <= p <= 1.0 && a > 0.0 && m >= 0.0 && Square(m) == a * p - a * Square(p) + Square(a) / 4.0
    ensures m > 0.0
  {
    Nonnegative(p, 1.0 - p);
    Nonnegative(a, p * (1.0 - p));
    Spread(p, a);
    SquareIsNonnegative(a);
    SquareIsNonnegative(m);
  }

  lemma Spread(p: real, a: real)
    ensures a * (p * (1.0 - p)) == a * p - a * Square(p)
  {
    assert p * (1.0 - p) == p - Square(p);
  }

  lemma Nonnegative(x: real, y: real)
    requires x >= 0.0 && y >= 0.0
    ensures x * y >= 0.0
  {}

  lemma MarginCoversCenter(p: real, a: real, m: real)
    requires IsMargin(p, a, m)
    ensures -m <= a / 2.0 - a * p <= m
  {
    var (v, t) := (p * (1.0 - p), a / 2.0 - a * p);
    Nonnegative(p, 1.0 - p);
    Nonnegative(a, v);
    Nonnegative(a, a * v);
    assert Square(t) == Square(a) / 4.0 - a * (a * v) by { OffCenterSquare(p, a); }
    SquaresOrder(t, m);
  }

  lemma OffCenterSquare(p: real, a: real)
    ensures Square(a / 2.0 - a * p) == Square(a) / 4.0 - a * (a * (p * (1.0 - p)))
  {
    var (ap, h) := (a * p, a / 2.0);
    assert (h - ap) * (h - ap) == h * h - 2.0 * (h * ap) + ap * ap;
    assert 2.0 * (h * ap) == a * ap;
    assert ap * ap == a * (a * Square(p));
    assert p * (1.0 - p) == p - Square(p);
    assert a * (p - Square(p)) == ap - a * Square(p);
    assert a * (ap - a * Square(p)) == a * ap - a * (a * Square(p));
  }

  /** The interval of the failures is the mirror image of the interval of the successes. */
  lemma EndsMirror(p: real, a: real, m: real)
    requires IsMargin(p, a, m)
    ensures IsMargin(1.0 - p, a, m)
    ensures Ends(1.0 - p, a, m).0 == 1.0 - Ends(p, a, m).1 && Ends(1.0 - p, a, m).1 == 1.0 - Ends(p, a, m).0
  {
    var d := 1.0 + a;
    EndsScaled(p, a, m);
    EndsScaled(1.0 - p, a, m);
    hide Ends;
    MirroredEnd(d, Ends(1.0 - p, a, m).0, Ends(p, a, m).1, p + a / 2.0 + m);
    MirroredEnd(d, Ends(1.0 - p, a, m).1, Ends(p, a, m).0, p + a / 2.0 - m);
  }

  lemma MirroredEnd(d: real, x: real, y: real, dy: real)
    requires d > 0.0 && d * y == dy && d * x == d - dy
    ensures x == 1.0 - y
  {
    assert (1.0 - y) * d == d - d * y;
    SameQuotient(x, 1.0 - y, d);
  }

  lemma OnlyRoots(p: real, a: real, m: real, x: real)
    requires IsMargin(p, a, m)
    ensures Quadratic(p, a, x) == 0.0 <==> x == Ends(p, a, m).0 || x == Ends(p, a, m).1
  {
    PositiveDenominator(p, a, m);
    hide *;
    QuadraticFactors(p, a, m, x);
    ProductSigns(1.0 + a, Product(x - Ends(p, a, m).0, x - Ends(p, a, m).1));
    ProductSigns(x - Ends(p, a, m).0, x - Ends(p, a, m).1);
  }

  lemma QuadraticsDiffer(p: real, q: real, a: real, x: real)
    ensures Quadratic(q, a, x) - Quadratic(p, a, x) == Product(p - q, 2.0 * x - p - q)
  {
    assert (2.0 * p + a) * x == 2.0 * (p * x) + a * x && (2.0 * q + a) * x == 2.0 * (q * x) + a * x;
    assert (p - q) * (2.0 * x - p - q) == 2.0 * (p * x) - 2.0 * (q * x) + Square(q) - Square(p);
  }

  lemma LowEndRises(p: real, q: real, a: real, m: real, l: real)
    requires IsMargin(p, a, m) && IsMargin(q, a, l) && p < q
    ensures Ends(p, a, m).0 < Ends(q, a, l).0
  {
    hide Quadratic, Ends, IsMargin, Product;
    var ((lo, hi), x) := (Ends(p, a, m), Ends(q, a, l).0);
    EndsInOrder(p, a, m);
    QuadraticFactors(p, a, m, x);
    OnlyRoots(q, a, l, x);
    PositiveDenominator(q, a, l);
    QuadraticsDiffer(p, q, a, x);
    ProductSigns(p - q, 2.0 * x - p - q);
    ProductSigns(x - lo, x - hi);
    ProductSigns(1.0 + a, Product(x - lo, x - hi));
  }

  lemma PositiveDenominator(p: real, a: real, m: real)
    requires IsMargin(p, a, m)
    ensures a > 0.0 && 1.0 + a > 0.0
  {}

  // --- the interval --------------------------------------------------------------------------

  /** The clamps change nothing: the interval's ends are the two roots of the quadratic, in order
      around the proportion, within [0, 1] and apart. */
  lemma IntervalIsTheRoots(k: nat, n: nat, z: real, root: real)
    requires IsSetting(k, n, z, root)
    ensures var ((lo, hi), p, a) := (WilsonInterval(k, n, z, root), Proportion(k, n), Square(z) / n as real);
            && (lo, hi) == Ends(p, a, z * root)
            && 0.0 <= lo <= p <= hi <= 1.0 && lo < hi
            && (forall x :: Quadratic(p, a, x) == 0.0 <==> x == lo || x == hi)
  {
    hide Ends, Quadratic, IsMargin, Radicand, Proportion;
    var (p, a, m) := (Proportion(k, n), Square(z) / n as real, z * root);
    ScaledMargin(k, n, z, root);
    EndsInOrder(p, a, m);
    forall x ensures Quadratic(p, a, x) == 0.0 <==> x == Ends(p, a, m).0 || x == Ends(p, a, m).1 {
      OnlyRoots(p, a, m, x);
    }
  }

  /** Nothing tried says nothing: the whole range. */
  lemma NothingTried(z: real, root: real)
    ensures WilsonInterval(0, 0, z, root) == (0.0, 1.0)
  {}

  /** Counting failures instead of successes mirrors the interval. */
  lemma IntervalMirrors(k: nat, n: nat, z: real, root: real)
    requires IsSetting(k, n, z, root)
    ensures IsSetting(n - k, n, z, root)
    ensures var ((lo, hi), (lo', hi')) := (WilsonInterval(k, n, z, root), WilsonInterval(n - k, n, z, root));
            lo' == 1.0 - hi && hi' == 1.0 - lo
  {
    MirroredProportion(k, n);
    SameRadicand(Proportion(k, n), n as real, Square(z));
    IntervalIsTheRoots(k, n, z, root);
    IntervalIsTheRoots(n - k, n, z, root);
    ScaledMargin(k, n, z, root);
    EndsMirror(Proportion(k, n), Square(z) / n as real, z * root);
  }

  lemma SameRadicand(p: real, n: real, z2: real)
    requires n > 0.0
    ensures Radicand(1.0 - p, n, z2) == Radicand(p, n, z2)
  {
    assert (1.0 - p) * (1.0 - (1.0 - p)) == p * (1.0 - p);
  }

  lemma MirroredProportion(k: nat, n: nat)
    requires 0 < n && k <= n
    ensures Proportion(n - k, n) == 1.0 - Proportion(k, n)
  {
    var p := Proportion(k, n);
    assert p * n as real == k as real;
    assert (1.0 - p) * n as real == n as real - k as real;
    Cancel(1.0 - p, n as real - k as real, n as real);
  }

  /** More successes move both ends strictly up. */
  lemma IntervalRises(j: nat, k: nat, n: nat, z: real, jRoot: real, kRoot: real)
    requires IsSetting(j, n, z, jRoot) && IsSetting(k, n, z, kRoot) && j < k
    ensures WilsonInterval(j, n, z, jRoot).0 < WilsonInterval(k, n, z, kRoot).0
    ensures WilsonInterval(j, n, z, jRoot).1 < WilsonInterval(k, n, z, kRoot).1
  {
    var (p, q, a) := (Proportion(j, n), Proportion(k, n), Square(z) / n as real);
    LargerProportion(j, k, n);
    ScaledMargin(j, n, z, jRoot);
    ScaledMargin(k, n, z, kRoot);
    EndsMirror(p, a, z * jRoot);
    EndsMirror(q, a, z * kRoot);
    LowEndRises(p, q, a, z * jRoot, z * kRoot);
    LowEndRises(1.0 - q, 1.0 - p, a, z * kRoot, z * jRoot);
    IntervalIsTheRoots(j, n, z, jRoot);
    IntervalIsTheRoots(k, n, z, kRoot);
  }

  lemma LargerProportion(j: nat, k: nat, n: nat)
    requires j < k <= n
    ensures Proportion(j, n) < Proportion(k, n)
  {
    QuotientOrder(j as real, k as real, n as real);
  }
}
