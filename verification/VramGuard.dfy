/** The guard before a launch: the share of device memory that is safe to request. */
module VramGuard {
  import opened Text

  /** The request, the model's weights, and the three allowances, in MB. */
  datatype Guard = Guard(requested: real, weightFloor: real, margin: int, overhead: int, minKv: int)

  /** How much less than the request still counts as the request. */
  const SLACK := 0.000000001

  datatype Action = Launch | Derate | Abort

  datatype Report = Report(total: int, free: int, safeUtil: real, target: int, needed: int, fits: bool, derated: bool, action: Action)

  /** `int(x)`: towards zero. */
  function Trunc(x: real): int {
    if x >= 0.0 then x.Floor else -((-x).Floor)
  }

  lemma TruncIsTowardsZero(x: real)
    ensures x >= 0.0 ==> 0.0 <= Trunc(x) as real <= x < Trunc(x) as real + 1.0
    ensures x < 0.0 ==> Trunc(x) as real - 1.0 < x <= Trunc(x) as real <= 0.0
  {
    if x < 0.0 { assert (-x).Floor as real <= -x < (-x).Floor as real + 1.0 && (-x).Floor >= 0; }
  }

  /** Down to a whole hundredth, and no lower than zero. */
  function Floor2(x: real): real {
    ((if x < 0.0 then 0.0 else x) * 100.0).Floor as real / 100.0
  }

  function Usable(g: Guard, free: int): nat {
    if free - g.margin < 0 then 0 else free - g.margin
  }

  function FreeFraction(g: Guard, total: int, free: int): real {
    if total > 0 then Usable(g, free) as real / total as real else 0.0
  }

  function SafeUtil(g: Guard, total: int, free: int): real {
    var capped := if Floor2(FreeFraction(g, total, free)) < g.requested then Floor2(FreeFraction(g, total, free)) else g.requested;
    if capped < 0.0 then 0.0 else capped
  }

  /** A share of the device, in whole MB. */
  function ShareOf(share: real, total: int): int {
    Trunc(share * total as real)
  }

  function Target(g: Guard, total: int, free: int): int {
    ShareOf(SafeUtil(g, total, free), total)
  }

  function Needed(g: Guard): int {
    Trunc(g.weightFloor + g.overhead as real + g.minKv as real)
  }

  predicate Fits(g: Guard, total: int, free: int) {
    SafeUtil(g, total, free) > 0.0 && Target(g, total, free) >= Needed(g)
  }

  predicate IsDerated(g: Guard, total: int, free: int) {
    SafeUtil(g, total, free) < g.requested - SLACK
  }

  function Plan(g: Guard, total: int, free: int): Report {
    var action := if !Fits(g, total, free) then Abort else if IsDerated(g, total, free) then Derate else Launch;
    Report(total, free, SafeUtil(g, total, free), Target(g, total, free), Needed(g), Fits(g, total, free),
           IsDerated(g, total, free), action)
  }

  lemma Floor2Bounds(x: real)
    requires x >= 0.0
    ensures 0.0 <= Floor2(x) <= x < Floor2(x) + 0.01
  {
    var h := x * 100.0;
    assert h.Floor as real <= h < h.Floor as real + 1.0;
  }

  lemma FractionTimesTotal(u: real, t: real, s: real)
    requires t > 0.0 && 0.0 <= s
    ensures s <= u / t <==> s * t <= u
  {
    assert u / t * t == u;
    if s <= u / t { assert s * t <= u / t * t; } else { assert s * t > u / t * t; }
  }

  /** The safe share is the request or, if that is less, the largest hundredth of the device that
      is free, which is zero without a device; it exceeds the request only if that is negative. */
  lemma SafeUtilIsLargestSafe(g: Guard, total: int, free: int)
    ensures var s := SafeUtil(g, total, free);
            && 0.0 <= s && (s <= g.requested <==> g.requested >= 0.0)
            && (g.requested >= 0.0 ==> s <= FreeFraction(g, total, free))
            && (s != g.requested && g.requested >= 0.0 ==>
                  FreeFraction(g, total, free) < s + 0.01 && s == (s * 100.0).Floor as real / 100.0)
  {
    var x := FreeFraction(g, total, free);
    if total > 0 { FractionTimesTotal(Usable(g, free) as real, total as real, 0.0); }
    Floor2Bounds(x);
    var h := (x * 100.0).Floor;
    assert (h as real / 100.0 * 100.0).Floor == h;
  }

  /** The target never exceeds what is free beyond the margin. */
  lemma TargetIsFree(g: Guard, total: int, free: int)
    ensures 0 <= Target(g, total, free) <= Usable(g, free)
  {
    var (s, u) := (SafeUtil(g, total, free), Usable(g, free));
    if total > 0 && g.requested >= 0.0 {
      ShareOfTotalIsFree(g, total, free);
      ProductBelow(s, total, u);
    } else {
      NothingOnNoDevice(g, if total <= 0 then total else 0, free);
      ZeroTarget(total);
    }
  }

  lemma ShareOfTotalIsFree(g: Guard, total: int, free: int)
    requires total > 0 && g.requested >= 0.0
    ensures 0.0 <= SafeUtil(g, total, free) && SafeUtil(g, total, free) * total as real <= Usable(g, free) as real
  {
    SafeUtilIsLargestSafe(g, total, free);
    FractionOf(g, total, free);
    hide SafeUtil, FreeFraction, Floor2;
    FractionTimesTotal(Usable(g, free) as real, total as real, SafeUtil(g, total, free));
  }

  lemma FractionOf(g: Guard, total: int, free: int)
    requires total > 0
    ensures FreeFraction(g, total, free) == Usable(g, free) as real / total as real
  {}

  lemma ZeroTarget(total: int)
    ensures ShareOf(0.0, total) == 0
  {
    assert 0.0 * total as real == 0.0;
  }

  lemma ProductBelow(s: real, total: int, u: nat)
    requires 0.0 <= s && total > 0 && s * total as real <= u as real
    ensures 0 <= ShareOf(s, total) <= u
  {
    assert 0.0 <= s * total as real;
  }

  /** A launch that fits needs less than one MB more than its target, which is free; the needed
      memory is cut to whole MB before the comparison. */
  lemma FittingLaunchIsCovered(g: Guard, total: int, free: int)
    requires Fits(g, total, free)
    ensures Needed(g) <= Target(g, total, free) <= Usable(g, free)
    ensures g.weightFloor + g.overhead as real + g.minKv as real < Target(g, total, free) as real + 1.0
  {
    TargetIsFree(g, total, free);
    var need := g.weightFloor + g.overhead as real + g.minKv as real;
    assert need < Trunc(need) as real + 1.0 by {
      if need < 0.0 { assert (-need).Floor as real <= -need < (-need).Floor as real + 1.0; }
    }
  }

  lemma Floor2IsMonotone(x: real, y: real)
    requires x <= y
    ensures Floor2(x) <= Floor2(y)
  {
    var (a, b) := (if x < 0.0 then 0.0 else x, if y < 0.0 then 0.0 else y);
    assert a * 100.0 <= b * 100.0;
    assert (a * 100.0).Floor <= (b * 100.0).Floor;
  }

  lemma MoreIsALargerFraction(u: nat, v: nat, t: int)
    requires u <= v && t > 0
    ensures u as real / t as real <= v as real / t as real
  {
    FractionTimesTotal(v as real, t as real, u as real / t as real);
    assert u as real / t as real >= 0.0;
    assert u as real / t as real * t as real == u as real;
  }

  lemma TruncIsMonotone(s: real, r: real, t: int)
    requires 0.0 <= s <= r && t > 0
    ensures ShareOf(s, t) <= ShareOf(r, t)
  {
    assert 0.0 <= s * t as real <= r * t as real;
    assert (s * t as real).Floor <= (r * t as real).Floor;
  }

  lemma SafeUtilIsMonotone(g: Guard, total: int, free: int, more: int)
    requires free <= more
    ensures 0.0 <= SafeUtil(g, total, free) <= SafeUtil(g, total, more)
  {
    hide Floor2;
    if total > 0 {
      MoreIsALargerFraction(Usable(g, free), Usable(g, more), total);
      Floor2IsMonotone(FreeFraction(g, total, free), FreeFraction(g, total, more));
    }
  }

  lemma NothingOnNoDevice(g: Guard, total: int, free: int)
    requires total <= 0
    ensures SafeUtil(g, total, free) == 0.0
  {
    assert Floor2(0.0) == 0.0;
  }

  /** More free memory never lowers the safe share, the target, or the verdict. */
  lemma MoreFreeIsNoWorse(g: Guard, total: int, free: int, more: int)
    requires free <= more
    ensures SafeUtil(g, total, free) <= SafeUtil(g, total, more)
    ensures Target(g, total, free) <= Target(g, total, more)
    ensures Fits(g, total, free) ==> Fits(g, total, more)
    ensures Plan(g, total, free).action == Launch ==> Plan(g, total, more).action == Launch
  {
    hide SafeUtil, ShareOf;
    SafeUtilIsMonotone(g, total, free, more);
    if total > 0 {
      TruncIsMonotone(SafeUtil(g, total, free), SafeUtil(g, total, more), total);
    } else {
      NothingOnNoDevice(g, total, free);
      NothingOnNoDevice(g, total, more);
    }
  }

  /** Exactly one action: abort if the model does not fit, and else launch if the request holds. */
  lemma ActionsPartition(g: Guard, total: int, free: int)
    ensures var (r, s) := (Plan(g, total, free), SafeUtil(g, total, free));
            && (r.action == Abort <==> !r.fits)
            && (r.action == Derate <==> r.fits && s < g.requested - SLACK)
            && (r.action == Launch <==> r.fits && g.requested - SLACK <= s <= g.requested)
  {
    SafeUtilIsLargestSafe(g, total, free);
  }

  // --- waiting -------------------------------------------------------------------------------

  /** The memory the wait is for: the requested share and the margin. */
  function WaitTarget(g: Guard, total: int): int {
    ShareOf(g.requested, total) + g.margin
  }

  /** A request of `k` hundredths. */
  predicate IsHundredths(g: Guard, k: nat) {
    g.requested == k as real / 100.0
  }

  lemma HundredthsOfTotal(k: nat, total: int, u: nat)
    requires total > 0
    ensures Floor2(u as real / total as real) >= k as real / 100.0 <==> 100 * u >= k * total
  {
    var x := u as real / total as real;
    FractionTimesTotal(u as real, total as real, k as real / 100.0);
    assert x >= 0.0;
    assert (x * 100.0).Floor >= k <==> x * 100.0 >= k as real;
    assert k as real / 100.0 * total as real == (k * total) as real / 100.0;
  }

  lemma RequestKeptIff(g: Guard, k: nat, total: int, free: int)
    requires total > 0 && IsHundredths(g, k)
    ensures SafeUtil(g, total, free) == g.requested <==> 100 * Usable(g, free) >= k * total
  {
    HundredthsOfTotal(k, total, Usable(g, free));
  }

  lemma TruncOfHundredths(k: nat, total: int)
    requires total > 0
    ensures ShareOf(k as real / 100.0, total) == k * total / 100
  {
    var p := k * total;
    assert k as real / 100.0 * total as real == p as real / 100.0;
    assert p >= 0;
    var n := p / 100;
    assert 100 * n <= p < 100 * n + 100;
    assert n as real <= p as real / 100.0 < n as real + 1.0;
  }

  /** The free fraction, cut to whole hundredths. */
  lemma FreeHundredths(u: nat, total: int)
    requires total > 0
    ensures Floor2(u as real / total as real) == (100 * u / total) as real / 100.0
  {
    var (x, q) := (u as real / total as real, 100 * u / total);
    FractionTimesTotal(u as real, total as real, 0.0);
    assert q * total <= 100 * u < (q + 1) * total;
    HundredthsOfTotal(q, total, u);
    HundredthsOfTotal(q + 1, total, u);
    WholeBetween((x * 100.0).Floor, q);
  }

  lemma WholeBetween(n: int, q: int)
    ensures q as real / 100.0 <= n as real / 100.0 < (q + 1) as real / 100.0 ==> n == q
  {}

  /** For a request of `k` hundredths the plan in whole MB: with `h` the lesser of `k` and the
      hundredths that are free beyond the margin, its target is `h` of them; it aborts if that is
      nothing or a whole MB short of the weights and the allowances, derates if `h` is less than `k`,
      and launches otherwise. */
  lemma ActionInHundredths(g: Guard, k: nat, total: int, free: int)
    requires total > 0 && IsHundredths(g, k)
    ensures var spare := if free > g.margin then free - g.margin else 0;
            var h := if k <= 100 * spare / total then k else 100 * spare / total;
            var (r, need) := (Plan(g, total, free), g.weightFloor + g.overhead as real + g.minKv as real);
            && r.safeUtil == h as real / 100.0 && r.target == h * total / 100 <= spare && (r.derated <==> h < k)
            && (r.fits <==> h > 0 && need < (r.target + 1) as real)
            && r.action == (if !r.fits then Abort else if h < k then Derate else Launch)
            && r.total == total && r.free == free
  {
    TargetIsFree(g, total, free);
    NeededInMb(g, Target(g, total, free));
    hide Floor2, ShareOf, Needed;
    var q := 100 * Usable(g, free) / total;
    var h := if k <= q then k else q;
    FreeHundredths(Usable(g, free), total);
    assert q >= 0;
    TruncOfHundredths(h, total);
  }

  /** What is needed, in whole MB: a target holds it if it is less than one MB short of it. */
  lemma NeededInMb(g: Guard, m: nat)
    ensures m >= Needed(g) <==> g.weightFloor + g.overhead as real + g.minKv as real < (m + 1) as real
  {
    var need := g.weightFloor + g.overhead as real + g.minKv as real;
    if need < 0.0 { assert (-need).Floor >= 0; }
  }

  /** The wait is for the request's hundredths, in whole MB, and the margin. */
  lemma WaitTargetInHundredths(g: Guard, k: nat, total: int)
    requires total > 0 && IsHundredths(g, k)
    ensures WaitTarget(g, total) == k * total / 100 + g.margin
  {
    TruncOfHundredths(k, total);
  }

  /** Reaching the wait's target keeps a request of whole hundredths, for every amount of memory
      that reaches it, exactly when they are a whole number of MB; otherwise the fraction of a MB
      that the target drops costs a whole hundredth. */
  lemma HundredthsAreKeptIff(g: Guard, k: nat, total: int)
    requires total > 0 && IsHundredths(g, k)
    ensures WaitKeepsRequest(g, total) <==> k * total % 100 == 0
  {
    var p := k * total;
    TruncOfHundredths(k, total);
    assert p >= 0;
    if p % 100 == 0 {
      forall free | free >= WaitTarget(g, total) ensures SafeUtil(g, total, free) == g.requested {
        RequestKeptIff(g, k, total, free);
      }
    } else {
      RequestKeptIff(g, k, total, WaitTarget(g, total));
      assert Usable(g, WaitTarget(g, total)) == p / 100;
    }
  }

  /** Every amount of free memory that ends the wait keeps the requested share. */
  ghost predicate WaitKeepsRequest(g: Guard, total: int) {
    forall free | free >= WaitTarget(g, total) :: SafeUtil(g, total, free) == g.requested
  }

  ghost predicate IsWholeMb(g: Guard, total: int, k: nat) {
    IsHundredths(g, k) && k * total % 100 == 0
  }

  /** For any request: reaching the wait's target keeps it exactly when it asks for nothing or, on
      a device, for whole hundredths that are a whole number of MB. */
  lemma WaitIsEnoughIff(g: Guard, total: int)
    ensures WaitKeepsRequest(g, total) <==> g.requested == 0.0 || (total > 0 && exists k: nat :: IsWholeMb(g, total, k))
  {
    var free := WaitTarget(g, total);
    if total <= 0 {
      forall f { NothingOnNoDevice(g, total, f); }
      assert WaitKeepsRequest(g, total) ==> SafeUtil(g, total, free) == g.requested;
    } else if g.requested == 0.0 {
      assert IsHundredths(g, 0) && 0 * total % 100 == 0;
      HundredthsAreKeptIff(g, 0, total);
    } else {
      if WaitKeepsRequest(g, total) {
        assert SafeUtil(g, total, free) == g.requested;
        var k := KeptAtTarget(g, total);
        HundredthsAreKeptIff(g, k, total);
        assert IsWholeMb(g, total, k);
      }
      if k: nat :| IsWholeMb(g, total, k) { HundredthsAreKeptIff(g, k, total); }
    }
  }

  /** What is kept with just the target free is a whole number of hundredths. */
  lemma KeptAtTarget(g: Guard, total: int) returns (k: nat)
    requires total > 0 && SafeUtil(g, total, WaitTarget(g, total)) == g.requested
    ensures IsHundredths(g, k)
  {
    var x := FreeFraction(g, total, WaitTarget(g, total));
    SafeUtilIsLargestSafe(g, total, WaitTarget(g, total));
    TargetFraction(g, total);
    Floor2Bounds(x);
    k := (x * 100.0).Floor;
    assert Floor2(x) == k as real / 100.0;
  }

  lemma TargetFraction(g: Guard, total: int)
    requires total > 0 && g.requested >= 0.0
    ensures 0.0 <= FreeFraction(g, total, WaitTarget(g, total)) <= g.requested
  {
    var u := ShareOf(g.requested, total);
    TruncIsBelow(g.requested, total);
    QuotientBelow(u as real, total as real, g.requested);
  }

  lemma TruncIsBelow(share: real, total: int)
    requires share >= 0.0 && total > 0
    ensures 0 <= ShareOf(share, total) && ShareOf(share, total) as real <= share * total as real
  {
    assert share * total as real >= 0.0;
  }

  lemma QuotientBelow(u: real, t: real, s: real)
    requires t > 0.0 && 0.0 <= u <= s * t
    ensures 0.0 <= u / t <= s
  {
    assert u / t * t == u;
    if u / t > s { ScaledLess(s, u / t, t); }
  }

  lemma ScaledLess(x: real, y: real, t: real)
    requires x < y && t > 0.0
    ensures x * t < y * t
  {}

  // --- what a wait that reached its target can end in ----------------------------------------

  /** With just the target free, the whole MB of the request are free beyond the margin. */
  lemma UsableAtTarget(g: Guard, total: int)
    requires total > 0 && g.requested >= 0.0
    ensures ShareOf(g.requested, total) >= 0 && Usable(g, WaitTarget(g, total)) == ShareOf(g.requested, total)
    ensures forall free | free >= WaitTarget(g, total) :: Usable(g, free) >= ShareOf(g.requested, total)
  {
    TruncIsBelow(g.requested, total);
  }

  /** Derating cuts the share to the free hundredths. */
  lemma DeratedIff(g: Guard, total: int, free: int)
    requires total > 0
    ensures var h := 100 * Usable(g, free) / total;
            && (IsDerated(g, total, free) <==> h as real / 100.0 < g.requested - SLACK)
            && (IsDerated(g, total, free) ==> SafeUtil(g, total, free) == h as real / 100.0)
  {
    hide Floor2;
    FreeHundredths(Usable(g, free), total);
  }

  /** `k` hundredths are no more than the slack below the request, and the target's MB hold them. */
  ghost predicate HoldsNearly(g: Guard, total: int, k: nat) {
    g.requested <= k as real / 100.0 + SLACK && k * total <= 100 * ShareOf(g.requested, total)
  }

  ghost predicate WaitNeverDerates(g: Guard, total: int) {
    forall free | free >= WaitTarget(g, total) :: !IsDerated(g, total, free)
  }

  lemma DeratedAtTarget(g: Guard, total: int, free: int)
    requires WaitTarget(g, total) <= free && IsDerated(g, total, free)
    ensures IsDerated(g, total, WaitTarget(g, total))
  {
    SafeUtilIsMonotone(g, total, WaitTarget(g, total), free);
  }

  /** Reaching the target rules a lower share out, for every amount, exactly when the request asks
      for no more than the slack or, on a device, is within the slack of hundredths that the target's
      whole MB hold. */
  lemma NeverDeratesIff(g: Guard, total: int)
    ensures WaitNeverDerates(g, total) <==> g.requested <= SLACK || (total > 0 && exists k: nat :: HoldsNearly(g, total, k))
  {
    var target := WaitTarget(g, total);
    AtTargetDecides(g, total);
    if total <= 0 {
      NothingOnNoDevice(g, total, target);
    } else if g.requested > SLACK {
      hide WaitNeverDerates, IsDerated, WaitTarget, ShareOf;
      UsableAtTarget(g, total);
      DeratedIff(g, total, target);
      var u := ShareOf(g.requested, total);
      var q: nat := HundredthsIn(u, total);
      if !IsDerated(g, total, target) { assert HoldsNearly(g, total, q); }
      if k: nat :| HoldsNearly(g, total, k) { HundredthsHeld(k, u, total); }
    } else {
      SafeUtilIsLargestSafe(g, total, target);
    }
  }

  lemma AtTargetDecides(g: Guard, total: int)
    ensures WaitNeverDerates(g, total) <==> !IsDerated(g, total, WaitTarget(g, total))
  {
    hide IsDerated, WaitTarget;
    forall free | free >= WaitTarget(g, total) && IsDerated(g, total, free) ensures IsDerated(g, total, WaitTarget(g, total)) {
      DeratedAtTarget(g, total, free);
    }
  }

  /** The hundredths of a device that `u` MB hold. */
  function HundredthsIn(u: nat, total: int): (q: nat)
    requires total > 0
    ensures q * total <= 100 * u < (q + 1) * total
  {
    100 * u / total
  }

  lemma HundredthsHeld(k: nat, u: nat, total: int)
    requires total > 0
    ensures k * total <= 100 * u <==> k <= HundredthsIn(u, total)
  {
    var q := HundredthsIn(u, total);
    if k <= q { assert k * total <= q * total; } else { assert k * total >= (q + 1) * total; }
  }

  /** What fits at the target was a request of a hundredth at least. */
  lemma FitsAsksForMore(g: Guard, total: int)
    ensures Fits(g, total, WaitTarget(g, total)) ==> total > 0 && g.requested > SLACK
  {
    var target := WaitTarget(g, total);
    if total <= 0 {
      NothingOnNoDevice(g, total, target);
    } else if 0.0 <= g.requested <= SLACK {
      var x := FreeFraction(g, total, target);
      TargetFraction(g, total);
      assert (x * 100.0).Floor == 0;
      assert Floor2(x) == 0.0;
      assert SafeUtil(g, total, target) <= 0.0;
    } else if g.requested < 0.0 {
      assert SafeUtil(g, total, target) == 0.0;
    }
  }

  /** Reaching the target always ends in a launch as requested exactly when the model fits in the
      target and the request is nearly held by it. */
  lemma WaitLaunchesIff(g: Guard, total: int)
    ensures (forall free | free >= WaitTarget(g, total) :: Plan(g, total, free).action == Launch)
       <==> Fits(g, total, WaitTarget(g, total)) && exists k: nat :: HoldsNearly(g, total, k)
  {
    var target := WaitTarget(g, total);
    NeverDeratesIff(g, total);
    AtTargetDecides(g, total);
    ActionsPartition(g, total, target);
    FitsAsksForMore(g, total);
    hide Fits, SafeUtil, WaitTarget, HoldsNearly, WaitNeverDerates;
    if Plan(g, total, target).action == Launch {
      forall free | free >= target ensures Plan(g, total, free).action == Launch {
        MoreFreeIsNoWorse(g, total, target, free);
      }
    }
  }

  /** The least hundredths of a device that hold what is needed, at least one. */
  function LeastShare(g: Guard, total: int): (h: int)
    requires total > 0
    ensures h >= 1 && forall q: int :: q >= h <==> q >= 1 && q * total / 100 >= Needed(g)
  {
    var n := Needed(g);
    var h := if n <= 0 then 1 else (100 * n + total - 1) / total;
    LeastShareHolds(n, total, h);
    h
  }

  lemma LeastShareHolds(n: int, total: int, h: int)
    requires total > 0 && h == if n <= 0 then 1 else (100 * n + total - 1) / total
    ensures h >= 1 && forall q: int :: q >= h <==> q >= 1 && q * total / 100 >= n
  {
    if n > 0 {
      CeilingHolds(n, total, h, 0);
    }
    forall q: int ensures q >= h <==> q >= 1 && q * total / 100 >= n {
      ScaledInt(1, q, total);
      if n > 0 { CeilingHolds(n, total, h, q); }
      HundredthOf(q * total, n);
    }
  }

  lemma HundredthOf(p: int, n: int)
    ensures p / 100 >= n <==> p >= 100 * n
  {}

  lemma CeilingHolds(n: int, total: int, h: int, q: int)
    requires total > 0 && h == (100 * n + total - 1) / total
    ensures q >= h <==> q * total >= 100 * n
  {
    var a := 100 * n + total - 1;
    assert a == h * total + a % total;
    ScaledInt(h, q, total);
    ScaledInt(q, h - 1, total);
    assert (h - 1) * total == h * total - total;
  }

  lemma ScaledInt(a: int, b: int, t: int)
    requires t > 0
    ensures a <= b ==> a * t <= b * t
  {
    if a <= b { assert (b - a) * t >= 0; }
  }

  /** The least free memory beyond the margin at which a derated launch fits. */
  function LeastMb(g: Guard, total: int): (m: int)
    requires total > 0
    ensures m >= 0 && forall u: nat :: u >= m <==> HundredthsIn(u, total) >= LeastShare(g, total)
  {
    var h := LeastShare(g, total);
    assert h * total >= 0;
    var m := (h * total + 99) / 100;
    forall u: nat ensures u >= m <==> HundredthsIn(u, total) >= h {
      HundredthsHeld(h, u, total);
    }
    m
  }

  ghost predicate WaitCanDerate(g: Guard, total: int) {
    exists free :: free >= WaitTarget(g, total) && Plan(g, total, free).action == Derate
  }

  /** Reaching the target can still end in a lower share exactly when the hundredths that are free
      then, or as soon as the model fits if that takes more, are less than the request. */
  lemma WaitDeratesIff(g: Guard, total: int)
    ensures WaitCanDerate(g, total) <==>
            total > 0 && g.requested >= 0.0
            && var (u, m) := (ShareOf(g.requested, total), LeastMb(g, total));
               HundredthsIn(if u >= m then u else m, total) as real / 100.0 < g.requested - SLACK
  {
    if total > 0 && g.requested >= 0.0 {
      var (u, m) := (ShareOf(g.requested, total), LeastMb(g, total));
      UsableAtTarget(g, total);
      var least := if u >= m then u else m;
      if WaitCanDerate(g, total) {
        var free :| free >= WaitTarget(g, total) && Plan(g, total, free).action == Derate;
        DerateInMb(g, total, free);
        MoreMbHoldMore(least, Usable(g, free), total);
      }
      if HundredthsIn(least, total) as real / 100.0 < g.requested - SLACK {
        DerateInMb(g, total, least + g.margin);
      }
    } else {
      NeverOnNothing(g, total);
    }
  }

  /** A launch is derated exactly if what is free fits the model and is less than the request. */
  lemma DerateInMb(g: Guard, total: int, free: int)
    requires total > 0
    ensures Plan(g, total, free).action == Derate <==>
            Usable(g, free) >= LeastMb(g, total) && HundredthsIn(Usable(g, free), total) as real / 100.0 < g.requested - SLACK
  {
    hide SafeUtil, ShareOf, Needed;
    var h := HundredthsIn(Usable(g, free), total);
    DeratedIff(g, total, free);
    TruncOfHundredths(h, total);
  }

  lemma MoreMbHoldMore(u: nat, v: nat, total: int)
    requires total > 0 && u <= v
    ensures HundredthsIn(u, total) <= HundredthsIn(v, total)
  {
    HundredthsHeld(HundredthsIn(u, total), v, total);
  }

  lemma NeverOnNothing(g: Guard, total: int)
    requires total <= 0 || g.requested < 0.0
    ensures !WaitCanDerate(g, total)
  {
    forall free | Plan(g, total, free).action == Derate ensures false {
      if total <= 0 { NothingOnNoDevice(g, total, free); }
    }
  }

  /** What the device answers: total and free memory, or nothing. */
  type Readings = nat -> Option<(int, int)>

  function FreeAt(readings: Readings, n: nat, fallback: int): int {
    if readings(n).Some? then readings(n).value.1 else fallback
  }

  /** After `n` naps the wait is over: enough is free, or the time is up. */
  ghost predicate EndsAfter(readings: Readings, at: nat, n: nat, target: int, timeout: real, poll: real, fallback: int) {
    FreeAt(readings, at + n, fallback) >= target || n as real * poll >= timeout
  }

  /** The wait takes `n` naps: it is over then, and not before. */
  ghost predicate Naps(readings: Readings, at: nat, n: nat, target: int, timeout: real, poll: real, fallback: int) {
    && EndsAfter(readings, at, n, target, timeout, poll, fallback)
    && forall i | 0 <= i < n :: !EndsAfter(readings, at, i, target, timeout, poll, fallback)
  }

  /** Polls from reading `at` on until enough is free or the time is up, if that ever happens. */
  method PollFree(readings: Readings, at: nat, target: int, timeout: real, poll: real, fallback: int)
    returns (free: int, ghost naps: nat, waited: real)
    requires exists n: nat :: EndsAfter(readings, at, n, target, timeout, poll, fallback)
    ensures Naps(readings, at, naps, target, timeout, poll, fallback)
    ensures free == FreeAt(readings, at + naps, fallback) && waited == naps as real * poll
    ensures free == match readings(at + naps) case Some((_, mb)) => mb case None => fallback
    ensures naps > 0 ==> waited < timeout + poll
  {
    free := FreeAt(readings, at, fallback);
    waited := 0.0;
    naps := 0;
    ghost var end: nat :| EndsAfter(readings, at, end, target, timeout, poll, fallback);
    var n := at;
    while free < target && waited < timeout
      invariant n == at + naps && free == FreeAt(readings, n, fallback)
      invariant forall i | 0 <= i < naps :: !EndsAfter(readings, at, i, target, timeout, poll, fallback)
      invariant waited == naps as real * poll && (naps > 0 ==> waited < timeout + poll)
      invariant naps <= end
      decreases end - naps
    {
      assert !EndsAfter(readings, at, naps, target, timeout, poll, fallback);
      waited := waited + poll;
      naps := naps + 1;
      assert naps as real * poll == (naps - 1) as real * poll + poll;
      n := n + 1;
      free := FreeAt(readings, n, fallback);
    }
  }

  /** More naps than this take up the whole time. */
  ghost function NapLimit(timeout: real, poll: real): int
    requires poll > 0.0
  {
    (timeout / poll).Floor + 1
  }

  /** The wait ends at all exactly when it naps, has no time to wait, or enough is free some time. */
  lemma PollEndsIff(readings: Readings, at: nat, target: int, timeout: real, poll: real, fallback: int)
    ensures (exists n: nat :: EndsAfter(readings, at, n, target, timeout, poll, fallback))
       <==> poll > 0.0 || timeout <= 0.0 || exists i: nat :: i >= at && FreeAt(readings, i, fallback) >= target
  {
    if timeout <= 0.0 {
      assert EndsAfter(readings, at, 0, target, timeout, poll, fallback);
    } else if poll > 0.0 {
      var n := NapLimit(timeout, poll);
      EnoughNaps(timeout, poll);
      assert EndsAfter(readings, at, n, target, timeout, poll, fallback);
    } else {
      if i: nat :| i >= at && FreeAt(readings, i, fallback) >= target {
        assert at + (i - at) == i;
        assert EndsAfter(readings, at, i - at, target, timeout, poll, fallback);
      }
      if n: nat :| EndsAfter(readings, at, n, target, timeout, poll, fallback) {
        NoTimePasses(n, poll);
        var i := at + n;
        assert FreeAt(readings, i, fallback) >= target;
      }
    }
  }

  lemma EnoughNaps(timeout: real, poll: real)
    requires timeout > 0.0 && poll > 0.0
    ensures NapLimit(timeout, poll) >= 0 && NapLimit(timeout, poll) as real * poll >= timeout
  {
    FractionTimesTotal(timeout, poll, 0.0);
    QuotientOver(timeout, poll, NapLimit(timeout, poll) as real);
  }

  lemma QuotientOver(t: real, p: real, n: real)
    requires p > 0.0 && t / p <= n
    ensures t <= n * p
  {
    assert t / p * p == t;
    if t / p < n { ScaledLess(t / p, n, p); }
  }

  lemma NoTimePasses(n: nat, poll: real)
    requires poll <= 0.0
    ensures n as real * poll <= 0.0
  {}

  /** Reads the device, waits if asked to, and plans on the last reading. */
  method ApplyGuard(g: Guard, readings: Readings, wait: bool, timeout: real, poll: real)
    returns (r: Option<Report>)
    requires wait && readings(0).Some? ==> exists n: nat ::
               EndsAfter(readings, 1, n, WaitTarget(g, readings(0).value.0), timeout, poll, readings(0).value.1)
    ensures r.None? <==> readings(0).None?
    ensures r.Some? && !wait ==> r.value == Plan(g, readings(0).value.0, readings(0).value.1)
    ensures r.Some? && wait ==> exists naps: nat ::
              && Naps(readings, 1, naps, WaitTarget(g, readings(0).value.0), timeout, poll, readings(0).value.1)
              && r.value == Plan(g, readings(0).value.0, FreeAt(readings, 1 + naps, readings(0).value.1))
              && (readings(1 + naps).Some? ==> r.value.free == readings(1 + naps).value.1)
              && (naps > 0 ==> naps as real * poll < timeout + poll)
  {
    var first := readings(0);
    if first.None? { return None; }
    var (total, free) := (first.value.0, first.value.1);
    if wait {
      ghost var naps;
      var waited;
      free, naps, waited := PollFree(readings, 1, WaitTarget(g, total), timeout, poll, free);
      assert Naps(readings, 1, naps, WaitTarget(g, total), timeout, poll, first.value.1);
    }
    r := Some(Plan(g, total, free));
  }
}
