/** One-based average ranks, largest value first, ties sharing the mean of their positions. */
module Ranks {
  import opened Text

  type Scores = map<string, real>

  /** String order by code points. */
  predicate LexLess(a: string, b: string) {
    b != "" && (a == "" || a[0] < b[0] || (a[0] == b[0] && LexLess(a[1..], b[1..])))
  }

  /** The sort key: descending by value, ties by label. */
  predicate Precedes(values: Scores, a: string, b: string)
    requires a in values && b in values
  {
    values[a] > values[b] || (values[a] == values[b] && LexLess(a, b))
  }

  lemma {:induction false} LexLessIsTotal(a: string, b: string)
    requires a != b
    ensures LexLess(a, b) || LexLess(b, a)
  {
    if a != "" && b != "" && a[0] == b[0] {
      assert a == [a[0]] + a[1..] && b == [b[0]] + b[1..];
      LexLessIsTotal(a[1..], b[1..]);
    }
  }

  lemma {:induction false} LexLessIsTransitive(a: string, b: string, c: string)
    requires LexLess(a, b) && LexLess(b, c)
    ensures LexLess(a, c)
  {
    if a != "" && a[0] == b[0] == c[0] {
      LexLessIsTransitive(a[1..], b[1..], c[1..]);
    }
  }

  /** Each name once. */
  ghost predicate Enumerates(s: seq<string>, names: set<string>) {
    AllDistinct(s) && (forall i | 0 <= i < |s| :: s[i] in names) && (forall name | name in names :: name in s)
  }

  ghost predicate Within(s: seq<string>, values: Scores) {
    forall i | 0 <= i < |s| :: s[i] in values
  }

  ghost predicate Ordered(values: Scores, s: seq<string>)
    requires Within(s, values)
  {
    forall i, j | 0 <= i < j < |s| :: Precedes(values, s[i], s[j])
  }

  /** `a` ends, or has the smaller character, where it first differs from `b`. */
  ghost predicate IsEarlier(a: string, b: string) {
    exists n: nat :: n <= |a| && n < |b| && a[..n] == b[..n] && (n == |a| || a[n] < b[n])
  }

  lemma {:induction false} LexLessIsEarlier(a: string, b: string)
    ensures LexLess(a, b) <==> IsEarlier(a, b)
  {
    if a != "" && b != "" && a[0] == b[0] {
      LexLessIsEarlier(a[1..], b[1..]);
      if IsEarlier(a[1..], b[1..]) {
        var n: nat :| n <= |a[1..]| && n < |b[1..]| && a[1..][..n] == b[1..][..n] && (n == |a[1..]| || a[1..][n] < b[1..][n]);
        assert a[..n + 1] == [a[0]] + a[1..][..n] && b[..n + 1] == [b[0]] + b[1..][..n];
      }
      if IsEarlier(a, b) {
        var n: nat :| n <= |a| && n < |b| && a[..n] == b[..n] && (n == |a| || a[n] < b[n]);
        assert a[1..][..n - 1] == a[..n][1..] && b[1..][..n - 1] == b[..n][1..];
      }
    } else if b != "" && (a == "" || a[0] < b[0]) {
      assert a[..0] == b[..0];
    }
  }

  /** Larger values first, and among equal values the earlier label. */
  ghost predicate IsSorted(values: Scores, s: seq<string>) {
    Within(s, values)
    && forall i, j | 0 <= i < j < |s| :: values[s[i]] >= values[s[j]] && (values[s[i]] == values[s[j]] ==> IsEarlier(s[i], s[j]))
  }

  lemma OrderedIsSorted(values: Scores, s: seq<string>)
    requires Within(s, values) && Ordered(values, s)
    ensures IsSorted(values, s)
  {
    hide LexLess, IsEarlier;
    forall i, j | 0 <= i < j < |s|
      ensures values[s[i]] >= values[s[j]] && (values[s[i]] == values[s[j]] ==> IsEarlier(s[i], s[j]))
    {
      assert Precedes(values, s[i], s[j]);
      LexLessIsEarlier(s[i], s[j]);
    }
  }

  /** The names in rank order. */
  method SortLabels(values: Scores) returns (s: seq<string>)
    ensures Enumerates(s, values.Keys) && Within(s, values) && Ordered(values, s)
    ensures IsSorted(values, s)
  {
    hide IsSorted;
    s := [];
    var todo := values.Keys;
    while todo != {}
      invariant todo <= values.Keys
      invariant Enumerates(s, values.Keys - todo) && Within(s, values) && Ordered(values, s)
      decreases |todo|
    {
      var name :| name in todo;
      ghost var before := s;
      s := Insert(values, s, name);
      todo := todo - {name};
      forall x | x in values.Keys - todo ensures x in s {
        assert x == name || x in before;
      }
      forall i | 0 <= i < |s| ensures s[i] in values.Keys - todo {
        assert s[i] in s;
      }
    }
    OrderedIsSorted(values, s);
  }

  method Insert(values: Scores, s: seq<string>, name: string) returns (r: seq<string>)
    requires Within(s, values) && Ordered(values, s) && AllDistinct(s)
    requires name in values && name !in s
    ensures Within(r, values) && Ordered(values, r) && AllDistinct(r)
    ensures forall x :: x in r <==> x == name || x in s
  {
    var at := 0;
    while at < |s| && Precedes(values, s[at], name)
      invariant at <= |s| && forall i | 0 <= i < at :: Precedes(values, s[i], name)
    {
      at := at + 1;
    }
    r := s[..at] + [name] + s[at..];
    InsertedInOrder(values, s, name, at);
    InsertedOnce(s, name, at);
    assert s == s[..at] + s[at..];
  }

  lemma InsertedInOrder(values: Scores, s: seq<string>, name: string, at: nat)
    requires Within(s, values) && Ordered(values, s) && at <= |s| && name in values && name !in s
    requires forall i | 0 <= i < at :: Precedes(values, s[i], name)
    requires at < |s| ==> !Precedes(values, s[at], name)
    ensures Within(s[..at] + [name] + s[at..], values) && Ordered(values, s[..at] + [name] + s[at..])
  {
    forall j | at <= j < |s| ensures Precedes(values, name, s[j]) {
      if values[s[at]] == values[name] { LexLessIsTotal(name, s[at]); }
      if at < j && values[name] == values[s[at]] == values[s[j]] { LexLessIsTransitive(name, s[at], s[j]); }
    }
  }

  lemma InsertedOnce(s: seq<string>, name: string, at: nat)
    requires AllDistinct(s) && name !in s && at <= |s|
    ensures AllDistinct(s[..at] + [name] + s[at..])
  {
  }

  // --- the closed form -----------------------------------------------------------------------

  function Above(values: Scores, name: string): set<string>
    requires name in values
  {
    set m | m in values && values[m] > values[name]
  }

  function Level(values: Scores, name: string): set<string>
    requires name in values
  {
    set m | m in values && values[m] == values[name]
  }

  /** One, plus the names strictly above, plus half of the others on the same level. */
  function RankOf(values: Scores, name: string): real
    requires name in values
  {
    1.0 + |Above(values, name)| as real + (|Level(values, name)| - 1) as real / 2.0
  }

  function SetOf(s: seq<string>): set<string> {
    set x | x in s
  }

  lemma {:induction false} SizeOfDistinct(s: seq<string>)
    requires AllDistinct(s)
    ensures |SetOf(s)| == |s|
  {
    if s != [] {
      var n := |s| - 1;
      SizeOfDistinct(s[..n]);
      assert s == s[..n] + [s[n]];
      assert SetOf(s) == SetOf(s[..n]) + {s[n]};
      assert s[n] !in s[..n];
    }
  }

  /** The positions `first` to `last` hold equal values. */
  ghost predicate OneLevel(values: Scores, s: seq<string>, first: nat, last: nat)
    requires first <= last < |s| && Within(s, values)
  {
    forall i | first <= i <= last :: values[s[i]] == values[s[first]]
  }

  /** No value from position `first` on is as large as one before it. */
  ghost predicate Drops(values: Scores, s: seq<string>, first: nat)
    requires first <= |s| && Within(s, values)
  {
    forall i, j | 0 <= i < first <= j < |s| :: values[s[i]] > values[s[j]]
  }

  /** A set holding just the names at positions `first` to `last - 1` has that many. */
  lemma SizeOfStretch(s: seq<string>, names: set<string>, a: set<string>, first: nat, last: nat)
    requires Enumerates(s, names) && a <= names && first <= last <= |s|
    requires forall i | 0 <= i < |s| :: s[i] in a <==> first <= i < last
    ensures |a| == last - first
  {
    var stretch := s[first..last];
    SizeOfDistinct(stretch);
    forall m ensures m in a <==> m in stretch {
      if m in a {
        var i :| 0 <= i < |s| && s[i] == m;
        assert stretch[i - first] == m;
      }
    }
    assert a == SetOf(stretch);
  }

  /** A block of equal values between larger and smaller ones has the rank of its middle. */
  lemma RankOfBlock(values: Scores, s: seq<string>, first: nat, last: nat, p: nat)
    requires Enumerates(s, values.Keys) && Within(s, values) && first <= p <= last < |s|
    requires Drops(values, s, first) && OneLevel(values, s, first, last) && Drops(values, s, last + 1)
    ensures RankOf(values, s[p]) == (first + last) as real / 2.0 + 1.0
  {
    var v := values[s[p]];
    assert v == values[s[first]];
    forall i | 0 <= i < |s| ensures
      (values[s[i]] > v <==> i < first) && (values[s[i]] == v <==> first <= i <= last)
    {
      if i < first { assert values[s[i]] > values[s[first]]; }
      if i > last { assert values[s[first]] > values[s[i]]; }
    }
    SizeOfStretch(s, values.Keys, Above(values, s[p]), 0, first);
    SizeOfStretch(s, values.Keys, Level(values, s[p]), first, last + 1);
  }

  /** The ranking loops: `end` runs to the end of a block of equal values, and all of the block
      gets the mean of its first and last position. */
  method Rank(values: Scores) returns (ranks: map<string, real>)
    ensures ranks.Keys == values.Keys
    ensures forall name | name in values :: ranks[name] == RankOf(values, name)
  {
    var ordered := SortLabels(values);
    ranks := map[];
    var index := 0;
    while index < |ordered|
      invariant index <= |ordered| && Ranked(values, ordered, ranks, index) && Drops(values, ordered, index)
    {
      var end := index;
      while end + 1 < |ordered| && values[ordered[end + 1]] == values[ordered[index]]
        invariant index <= end < |ordered| && OneLevel(values, ordered, index, end)
        decreases |ordered| - end
      {
        end := end + 1;
      }
      BlockEnds(values, ordered, index, end);
      ranks := FillBlock(values, ordered, ranks, index, end);
      index := end + 1;
    }
    AllRanked(values, ordered, ranks);
  }

  /** The first `n` labels in order have their ranks, and only labels of `values` have one. */
  ghost predicate Ranked(values: Scores, s: seq<string>, ranks: map<string, real>, n: nat)
    requires n <= |s| && Within(s, values)
  {
    (forall i | 0 <= i < n :: s[i] in ranks && ranks[s[i]] == RankOf(values, s[i]))
    && forall name | name in ranks :: name in values
  }

  /** All of the block from `first` to `last` gets the mean of those two positions. */
  method FillBlock(values: Scores, s: seq<string>, before: map<string, real>, first: nat, last: nat)
    returns (ranks: map<string, real>)
    requires Enumerates(s, values.Keys) && Within(s, values) && first <= last < |s|
    requires Drops(values, s, first) && OneLevel(values, s, first, last) && Drops(values, s, last + 1)
    requires Ranked(values, s, before, first)
    ensures Ranked(values, s, ranks, last + 1)
  {
    ranks := before;
    var averageRank := (first + last) as real / 2.0 + 1.0;
    for position := first to last + 1
      invariant Ranked(values, s, ranks, position)
    {
      BlockMember(values, s, ranks, first, last, position);
      ranks := ranks[s[position] := averageRank];
    }
  }

  lemma BlockMember(values: Scores, s: seq<string>, ranks: map<string, real>, first: nat, last: nat, p: nat)
    requires Enumerates(s, values.Keys) && Within(s, values) && first <= p <= last < |s|
    requires Drops(values, s, first) && OneLevel(values, s, first, last) && Drops(values, s, last + 1)
    requires Ranked(values, s, ranks, p)
    ensures Ranked(values, s, ranks[s[p] := (first + last) as real / 2.0 + 1.0], p + 1)
  {
    RankOfBlock(values, s, first, last, p);
  }

  lemma AllRanked(values: Scores, s: seq<string>, ranks: map<string, real>)
    requires Enumerates(s, values.Keys) && Within(s, values) && Ranked(values, s, ranks, |s|)
    ensures ranks.Keys == values.Keys && forall name | name in values :: ranks[name] == RankOf(values, name)
  {
    forall name | name in values ensures name in ranks && ranks[name] == RankOf(values, name) {
      var i :| 0 <= i < |s| && s[i] == name;
    }
  }

  lemma BlockEnds(values: Scores, s: seq<string>, index: nat, end: nat)
    requires Within(s, values) && Ordered(values, s) && index <= end < |s|
    requires Drops(values, s, index) && OneLevel(values, s, index, end)
    requires end + 1 < |s| ==> values[s[end + 1]] != values[s[index]]
    ensures Drops(values, s, end + 1)
  {
    forall i, j | 0 <= i < end + 1 <= j < |s| ensures values[s[i]] > values[s[j]] {
      assert i < index || values[s[i]] == values[s[index]];
      assert Precedes(values, s[index], s[end + 1]);
      assert j > end + 1 ==> Precedes(values, s[end + 1], s[j]);
    }
  }

  lemma OneMoreKey(s: seq<string>, n: nat)
    requires n < |s|
    ensures SetOf(s[..n + 1]) == SetOf(s[..n]) + {s[n]}
  {
    assert s[..n + 1] == s[..n] + [s[n]];
  }

  // --- what the ranks mean -------------------------------------------------------------------

  lemma FewerThanSubset(a: set<string>, b: set<string>)
    requires a <= b
    ensures |a| <= |b|
  {
    assert b == a + (b - a);
  }

  /** Equal values share a rank, and a larger value ranks strictly before a smaller one. */
  lemma RanksFollowValues(values: Scores, a: string, b: string)
    requires a in values && b in values
    ensures values[a] == values[b] <==> RankOf(values, a) == RankOf(values, b)
    ensures values[a] > values[b] <==> RankOf(values, a) < RankOf(values, b)
  {
    if values[a] == values[b] {
      assert Above(values, a) == Above(values, b) && Level(values, a) == Level(values, b);
    } else if values[a] > values[b] {
      LargerRanksFirst(values, a, b);
    } else {
      LargerRanksFirst(values, b, a);
    }
  }

  lemma LargerRanksFirst(values: Scores, a: string, b: string)
    requires a in values && b in values && values[a] > values[b]
    ensures RankOf(values, a) < RankOf(values, b)
  {
    var both := Above(values, a) + Level(values, a);
    assert |both| == |Above(values, a)| + |Level(values, a)| by {
      assert Above(values, a) !! Level(values, a);
    }
    FewerThanSubset(both, Above(values, b));
    assert a in Level(values, a) && b in Level(values, b);
    FewerThanSubset({a}, Level(values, a));
    FewerThanSubset({b}, Level(values, b));
  }

  /** Renaming the names, ties included, changes no rank. */
  lemma RanksIgnoreLabels(values: Scores, renamed: Scores, f: string -> string, name: string)
    requires name in values
    requires forall a, b | a in values && b in values && f(a) == f(b) :: a == b
    requires renamed.Keys == set a | a in values :: f(a)
    requires forall a | a in values :: renamed[f(a)] == values[a]
    ensures RankOf(renamed, f(name)) == RankOf(values, name)
  {
    assert f(name) in renamed;
    ImageSize(Above(values, name), f);
    ImageSize(Level(values, name), f);
    assert Above(renamed, f(name)) == set a | a in Above(values, name) :: f(a);
    assert Level(renamed, f(name)) == set a | a in Level(values, name) :: f(a);
  }

  lemma {:induction false} ImageSize(s: set<string>, f: string -> string)
    requires forall a, b | a in s && b in s && f(a) == f(b) :: a == b
    ensures |set a | a in s :: f(a)| == |s|
    decreases |s|
  {
    if s != {} {
      var x :| x in s;
      var rest := s - {x};
      ImageSize(rest, f);
      assert (set a | a in s :: f(a)) == (set a | a in rest :: f(a)) + {f(x)};
      assert f(x) !in (set a | a in rest :: f(a));
    }
  }

  /** How much `m` pushes `name` down: a whole place from above, half of one from its level. */
  function Push(values: Scores, m: string, name: string): real
    requires m in values && name in values
  {
    if values[m] > values[name] then 1.0 else if values[m] == values[name] then 0.5 else 0.0
  }

  ghost function Pushes(values: Scores, s: seq<string>, name: string): real
    requires name in values && Within(s, values)
  {
    if s == [] then 0.0 else Pushes(values, s[..|s| - 1], name) + Push(values, s[|s| - 1], name)
  }

  ghost function RankSum(values: Scores, s: seq<string>): real
    requires Within(s, values)
  {
    if s == [] then 0.0 else RankSum(values, s[..|s| - 1]) + RankOf(values, s[|s| - 1])
  }

  /** The sum over `s` of the pushes from `others`. */
  ghost function AllPushes(values: Scores, s: seq<string>, others: seq<string>): real
    requires Within(s, values) && Within(others, values)
  {
    if s == [] then 0.0 else AllPushes(values, s[..|s| - 1], others) + Pushes(values, others, s[|s| - 1])
  }

  lemma {:induction false} PushesCount(values: Scores, s: seq<string>, name: string)
    requires name in values && AllDistinct(s) && Within(s, values)
    ensures Pushes(values, s, name) == |Above(values, name) * SetOf(s)| as real + |Level(values, name) * SetOf(s)| as real / 2.0
  {
    if s == [] {
      assert SetOf(s) == {};
      assert Above(values, name) * {} == {} && Level(values, name) * {} == {};
    } else {
      var (n, x) := (|s| - 1, s[|s| - 1]);
      PushesCount(values, s[..n], name);
      OneMoreKey(s, n);
      assert s[..n + 1] == s;
      assert x !in SetOf(s[..n]);
      OneMoreMember(Above(values, name), SetOf(s[..n]), x);
      OneMoreMember(Level(values, name), SetOf(s[..n]), x);
    }
  }

  lemma OneMoreMember(a: set<string>, b: set<string>, x: string)
    requires x !in b
    ensures |a * (b + {x})| == |a * b| + if x in a then 1 else 0
  {
    assert a * (b + {x}) == a * b + if x in a then {x} else {};
  }

  lemma RankIsPushes(values: Scores, s: seq<string>, name: string)
    requires Enumerates(s, values.Keys) && name in values
    ensures RankOf(values, name) == 0.5 + Pushes(values, s, name)
  {
    PushesCount(values, s, name);
    assert Above(values, name) * SetOf(s) == Above(values, name);
    assert Level(values, name) * SetOf(s) == Level(values, name);
  }

  /** What one more name does to all others and they to it adds up to one place each. */
  lemma {:induction false} PushesBothWays(values: Scores, s: seq<string>, x: string)
    requires x in values && Within(s, values)
    ensures AllPushes(values, s, [x]) + Pushes(values, s, x) == |s| as real
  {
    if s != [] {
      PushesBothWays(values, s[..|s| - 1], x);
      assert Pushes(values, [x], s[|s| - 1]) == Pushes(values, [], s[|s| - 1]) + Push(values, x, s[|s| - 1]);
    }
  }

  lemma {:induction false} AllPushesSplit(values: Scores, s: seq<string>, others: seq<string>, x: string)
    requires Within(s, values) && Within(others, values) && x in values
    ensures AllPushes(values, s, others + [x]) == AllPushes(values, s, others) + AllPushes(values, s, [x])
  {
    if s != [] {
      var name := s[|s| - 1];
      AllPushesSplit(values, s[..|s| - 1], others, x);
      assert (others + [x])[..|others|] == others;
      assert Pushes(values, [x], name) == Pushes(values, [], name) + Push(values, x, name);
    }
  }

  lemma {:induction false} AllPushesTotal(values: Scores, s: seq<string>)
    requires Within(s, values)
    ensures AllPushes(values, s, s) == (|s| * |s|) as real / 2.0
  {
    if s != [] {
      var (front, x) := (s[..|s| - 1], s[|s| - 1]);
      AllPushesTotal(values, front);
      PushesBothWays(values, front, x);
      AllPushesSplit(values, front, front, x);
      assert s == front + [x];
      assert Pushes(values, s, x) == Pushes(values, front, x) + 0.5;
      NextSquare(|front|);
    }
  }

  lemma NextSquare(n: nat)
    ensures ((n + 1) * (n + 1)) as real / 2.0 == (n * n) as real / 2.0 + n as real + 0.5
    ensures n as real / 2.0 + (n * n) as real / 2.0 == (n * (n + 1)) as real / 2.0
  {
    assert (n + 1) * (n + 1) == n * n + 2 * n + 1;
    assert n * (n + 1) == n * n + n;
  }

  lemma {:induction false} RankSumIsPushes(values: Scores, s: seq<string>, part: seq<string>)
    requires Enumerates(s, values.Keys) && Within(part, values)
    ensures RankSum(values, part) == |part| as real / 2.0 + AllPushes(values, part, s)
  {
    if part != [] {
      RankSumIsPushes(values, s, part[..|part| - 1]);
      RankIsPushes(values, s, part[|part| - 1]);
    }
  }

  /** The ranks of n names add up to n(n+1)/2, whatever the ties. */
  lemma RanksAddUp(values: Scores, s: seq<string>)
    requires Enumerates(s, values.Keys)
    ensures RankSum(values, s) == (|values| * (|values| + 1)) as real / 2.0
  {
    RankSumIsPushes(values, s, s);
    AllPushesTotal(values, s);
    SizeOfDistinct(s);
    assert SetOf(s) == values.Keys;
    var n := |values|;
    assert n == |values.Keys| == |s|;
    NextSquare(n);
  }
}
