/** Runtime versions as number tuples, and the floor below which an artifact cannot be served. */
module RuntimeFloor {
  import opened Text
  import opened Versioning

  function FirstDigit(s: string): (n: nat)
    ensures n <= |s|
    ensures forall i | 0 <= i < n :: !IsDigit(s[i])
    ensures n < |s| ==> IsDigit(s[n])
  {
    if s == "" || IsDigit(s[0]) then 0 else 1 + FirstDigit(s[1..])
  }

  /** The longest dotted run of numerals that `s` starts with. */
  function NumbersOf(s: string): (v: seq<nat>)
    requires s != "" && IsDigit(s[0])
    ensures v != []
    decreases |s|
  {
    var n := DigitRun(s);
    if n + 1 < |s| && s[n] == '.' && IsDigit(s[n + 1])
    then [ToNat(s[..n])] + NumbersOf(s[n + 1..])
    else [ToNat(s[..n])]
  }

  /** The numeric part of a version text, if there is one. */
  function ParseVersion(text: Option<string>): Option<seq<nat>> {
    if text.None? || FirstDigit(text.value) == |text.value| then None
    else Some(NumbersOf(text.value[FirstDigit(text.value)..]))
  }

  /** Tuple order: the first difference decides, and a proper prefix is smaller. */
  predicate TupleLess(a: seq<nat>, b: seq<nat>) {
    b != [] && (a == [] || a[0] < b[0] || (a[0] == b[0] && TupleLess(a[1..], b[1..])))
  }

  lemma {:induction false} TupleOrderIsTotal(a: seq<nat>, b: seq<nat>)
    ensures TupleLess(a, b) || a == b || TupleLess(b, a)
    ensures !(TupleLess(a, b) && (a == b || TupleLess(b, a)))
  {
    if a != [] && b != [] && a[0] == b[0] {
      TupleOrderIsTotal(a[1..], b[1..]);
      assert a == [a[0]] + a[1..] && b == [b[0]] + b[1..];
    }
  }

  lemma {:induction false} TupleOrderIsTransitive(a: seq<nat>, b: seq<nat>, c: seq<nat>)
    requires TupleLess(a, b) && TupleLess(b, c)
    ensures TupleLess(a, c)
  {
    if a != [] && a[0] == b[0] == c[0] { TupleOrderIsTransitive(a[1..], b[1..], c[1..]); }
  }

  function PrintNumbers(v: seq<nat>): string
    requires v != []
  {
    if |v| == 1 then Digits(v[0]) else Digits(v[0]) + "." + PrintNumbers(v[1..])
  }

  /** What follows the version does not continue it. */
  predicate Ends(tail: string) {
    tail == "" || (!IsDigit(tail[0]) && (|tail| == 1 || tail[0] != '.' || !IsDigit(tail[1])))
  }

  lemma {:induction false} NumbersOfPrinted(v: seq<nat>, tail: string)
    requires v != [] && Ends(tail)
    ensures var s := PrintNumbers(v) + tail; s != "" && IsDigit(s[0]) && NumbersOf(s) == v
  {
    if |v| == 1 {
      LastNumber(Digits(v[0]), tail);
      assert v == [v[0]];
    } else {
      var (d, rest) := (Digits(v[0]), PrintNumbers(v[1..]) + tail);
      NumbersOfPrinted(v[1..], tail);
      assert PrintNumbers(v) + tail == d + "." + rest;
      NextNumber(d, rest);
      assert v == [v[0]] + v[1..];
    }
  }

  lemma LastNumber(d: string, tail: string)
    requires d != "" && AllDigits(d) && Ends(tail)
    ensures IsDigit((d + tail)[0]) && NumbersOf(d + tail) == [ToNat(d)]
  {
    hide ToNat;
    var s := d + tail;
    DigitRunOf(d, tail);
    assert s[0] == d[0] && s[..|d|] == d;
    assert forall i | |d| <= i < |s| :: s[i] == tail[i - |d|];
  }

  lemma NextNumber(d: string, rest: string)
    requires d != "" && AllDigits(d) && rest != "" && IsDigit(rest[0])
    ensures IsDigit((d + "." + rest)[0]) && NumbersOf(d + "." + rest) == [ToNat(d)] + NumbersOf(rest)
  {
    hide ToNat;
    var s := d + "." + rest;
    assert s == d + ("." + rest);
    DigitRunOf(d, "." + rest);
    assert s[0] == d[0] && s[..|d|] == d && s[|d|] == '.' && s[|d| + 1..] == rest && s[|d| + 1] == rest[0];
  }

  lemma {:induction false} FirstDigitAfter(before: string, s: string)
    requires s != "" && IsDigit(s[0]) && forall i | 0 <= i < |before| :: !IsDigit(before[i])
    ensures FirstDigit(before + s) == |before|
  {
    if before == "" {
      assert before + s == s;
    } else {
      assert (before + s)[1..] == before[1..] + s && (before + s)[0] == before[0];
      FirstDigitAfter(before[1..], s);
    }
  }

  /** A printed version is read back, whatever text without digits comes before it. */
  lemma VersionRoundTrips(before: string, v: seq<nat>, tail: string)
    requires v != [] && Ends(tail) && forall i | 0 <= i < |before| :: !IsDigit(before[i])
    ensures ParseVersion(Some(before + PrintNumbers(v) + tail)) == Some(v)
  {
    hide NumbersOf, PrintNumbers;
    var s := PrintNumbers(v) + tail;
    NumbersOfPrinted(v, tail);
    FirstDigitAfter(before, s);
    assert before + PrintNumbers(v) + tail == before + s && (before + s)[|before|..] == s;
  }

  // --- floors --------------------------------------------------------------------------------

  /** Both versions parse, and the running one is older than the floor. */
  predicate IsBelow(running: Option<string>, floor: Option<string>) {
    var (have, need) := (ParseVersion(running), ParseVersion(floor));
    have.Some? && need.Some? && TupleLess(have.value, need.value)
  }

  /** The numeric order: the shorter version is filled up with zeros. */
  predicate PaddedLess(a: seq<nat>, b: seq<nat>)
    decreases |a| + |b|
  {
    if a == [] && b == [] then false
    else
      var (x, y) := (if a == [] then 0 else a[0], if b == [] then 0 else b[0]);
      x < y || (x == y && PaddedLess(if a == [] then a else a[1..], if b == [] then b else b[1..]))
  }

  predicate AllZero(v: seq<nat>) {
    forall i | 0 <= i < |v| :: v[i] == 0
  }

  /** `b` is `a` with nothing but zeros added. */
  predicate OnlyZerosShort(a: seq<nat>, b: seq<nat>) {
    a < b && AllZero(b[|a|..])
  }

  lemma {:induction false} NothingBelowZeros(a: seq<nat>, b: seq<nat>)
    requires a == [] || b == []
    ensures PaddedLess(a, b) <==> !AllZero(b)
    decreases |a| + |b|
  {
    if b != [] {
      NothingBelowZeros(a, b[1..]);
      assert b == [b[0]] + b[1..];
    } else if a != [] {
      NothingBelowZeros(a[1..], b);
    }
  }

  /** The tuple order is the numeric order except just where only zeros are missing: there it calls
      equal versions older. */
  lemma {:induction false} TupleOrderIsNumericIff(a: seq<nat>, b: seq<nat>)
    ensures (TupleLess(a, b) <==> PaddedLess(a, b)) <==> !OnlyZerosShort(a, b)
    ensures OnlyZerosShort(a, b) ==> TupleLess(a, b) && !PaddedLess(a, b)
    decreases |a| + |b|
  {
    if a == [] || b == [] {
      NothingBelowZeros(a, b);
      assert b[0..] == b;
    } else if a[0] == b[0] {
      TupleOrderIsNumericIff(a[1..], b[1..]);
      assert a == [a[0]] + a[1..] && b == [b[0]] + b[1..];
      assert a[1..] < b[1..] <==> a < b;
      assert a < b ==> b[1..][|a[1..]|..] == b[|a|..];
    }
  }

  /** Both versions parse, and the running one is numerically less than the floor. */
  predicate IsNumericallyBelow(running: Option<string>, floor: Option<string>) {
    var (have, need) := (ParseVersion(running), ParseVersion(floor));
    have.Some? && need.Some? && PaddedLess(have.value, need.value)
  }

  /** So a runtime is judged numerically, except when its version is its floor less some zeros. */
  lemma BelowIsNumericIff(running: Option<string>, floor: Option<string>)
    ensures var (have, need) := (ParseVersion(running), ParseVersion(floor));
            (IsBelow(running, floor) <==> IsNumericallyBelow(running, floor))
            <==> !(have.Some? && need.Some? && OnlyZerosShort(have.value, need.value))
  {
    hide ParseVersion, PaddedLess, TupleLess;
    var (have, need) := (ParseVersion(running), ParseVersion(floor));
    if have.Some? && need.Some? { TupleOrderIsNumericIff(have.value, need.value); }
  }

  /** A version that stops short of its floor counts as older, even if only zeros are missing. */
  lemma ShorterVersionIsBelow(v: seq<nat>, more: seq<nat>)
    requires v != [] && more != []
    ensures var (short, long) := (Some(PrintNumbers(v)), Some(PrintNumbers(v + more)));
            IsBelow(short, long) && (IsNumericallyBelow(short, long) <==> !AllZero(more))
  {
    hide ParseVersion, PrintNumbers, PaddedLess;
    PrefixIsLess(v, more);
    PrintedIsParsed(v);
    PrintedIsParsed(v + more);
    TupleOrderIsNumericIff(v, v + more);
    assert (v + more)[|v|..] == more;
  }

  lemma {:induction false} PrefixIsLess(v: seq<nat>, more: seq<nat>)
    requires more != []
    ensures TupleLess(v, v + more)
  {
    if v != [] {
      PrefixIsLess(v[1..], more);
      assert (v + more)[1..] == v[1..] + more;
    }
  }

  lemma PrintedIsParsed(v: seq<nat>)
    requires v != []
    ensures ParseVersion(Some(PrintNumbers(v))) == Some(v)
  {
    hide ParseVersion, PrintNumbers;
    VersionRoundTrips("", v, "");
    assert "" + PrintNumbers(v) + "" == PrintNumbers(v);
  }

  datatype Requirement = Requirement(arch: Option<string>, minVersion: Option<string>)

  /** A manifest pin combined with the artifact's own requirement. */
  function Merge(pin: Requirement, artifact: Option<Requirement>): Requirement {
    if artifact.None? then pin
    else
      var own := artifact.value;
      var floor := if pin.minVersion.None? || IsBelow(pin.minVersion, own.minVersion) then own.minVersion else pin.minVersion;
      Requirement(if own.arch.Some? && own.arch.value != "" then own.arch else pin.arch, floor)
  }

  /** For parseable floors the merged floor is the larger one. */
  lemma MergedFloorIsLarger(pin: Requirement, own: Requirement)
    requires ParseVersion(pin.minVersion).Some? && ParseVersion(own.minVersion).Some?
    ensures var (merged, a, b) := (ParseVersion(Merge(pin, Some(own)).minVersion), ParseVersion(pin.minVersion).value, ParseVersion(own.minVersion).value);
            merged == Some(if TupleLess(a, b) then b else a)
            && !TupleLess(merged.value, a) && !TupleLess(merged.value, b)
  {
    hide ParseVersion;
    NoneIsNoVersion();
    var (a, b) := (ParseVersion(pin.minVersion).value, ParseVersion(own.minVersion).value);
    TupleOrderIsTotal(a, b);
    TupleOrderIsTotal(a, a);
    TupleOrderIsTotal(b, b);
  }

  /** A pin that is there but holds no number. */
  predicate IsUnreadable(floor: Option<string>) {
    floor.Some? && ParseVersion(floor).None?
  }

  /** The merged floor skips a runtime that either floor alone skips, and no other, unless an
      unreadable pin hides the artifact's floor. */
  lemma MergeSkipsAsEither(pin: Requirement, own: Requirement, running: Option<string>)
    requires !IsUnreadable(pin.minVersion) || ParseVersion(own.minVersion).None?
    ensures IsBelow(running, Merge(pin, Some(own)).minVersion)
       <==> IsBelow(running, pin.minVersion) || IsBelow(running, own.minVersion)
  {
    hide ParseVersion;
    var (have, a, b) := (ParseVersion(running), ParseVersion(pin.minVersion), ParseVersion(own.minVersion));
    NoneIsNoVersion();
    if have.Some? && a.Some? && b.Some? {
      TupleOrderIsTotal(a.value, b.value);
      if TupleLess(have.value, a.value) && TupleLess(a.value, b.value) { TupleOrderIsTransitive(have.value, a.value, b.value); }
      if TupleLess(have.value, b.value) && TupleLess(b.value, a.value) { TupleOrderIsTransitive(have.value, b.value, a.value); }
    }
  }

  lemma NoneIsNoVersion()
    ensures ParseVersion(None) == None
  {}

  ghost predicate SkipsAsEither(pin: Requirement, own: Requirement, running: Option<string>) {
    IsBelow(running, Merge(pin, Some(own)).minVersion) <==> IsBelow(running, pin.minVersion) || IsBelow(running, own.minVersion)
  }

  /** Over all runtimes that is exact: it fails just when the pin is unreadable and the artifact
      asks for more than the least version, which is a single zero. */
  lemma MergeIsExact(pin: Requirement, own: Requirement)
    ensures (forall running :: SkipsAsEither(pin, own, running))
       <==> !(IsUnreadable(pin.minVersion) && ParseVersion(own.minVersion).Some? && ParseVersion(own.minVersion) != Some([0]))
  {
    hide ParseVersion;
    var need := ParseVersion(own.minVersion);
    if IsUnreadable(pin.minVersion) && need.Some? {
      ZeroIsAVersion();
      NeverEmpty(own.minVersion);
      if need.value != [0] {
        ZeroIsLeast(need.value);
        assert !SkipsAsEither(pin, own, Some("0"));
      } else {
        forall running ensures SkipsAsEither(pin, own, running) {
          if ParseVersion(running).Some? {
            NeverEmpty(running);
            assert !TupleLess(ParseVersion(running).value, [0]);
          }
        }
      }
    } else {
      forall running ensures SkipsAsEither(pin, own, running) { MergeSkipsAsEither(pin, own, running); }
    }
  }

  lemma ZeroIsAVersion()
    ensures ParseVersion(Some("0")) == Some([0])
  {
    VersionRoundTrips("", [0], "");
    assert Digits(0) == "0";
    assert "" + PrintNumbers([0]) + "" == "0";
  }

  lemma NeverEmpty(text: Option<string>)
    ensures ParseVersion(text).Some? ==> ParseVersion(text).value != []
  {}

  lemma ZeroIsLeast(v: seq<nat>)
    requires v != [] && v != [0]
    ensures TupleLess([0], v)
  {
    assert |v| == 1 ==> v == [v[0]];
    assert [0][1..] == [];
  }

  /** The facts a skip names. */
  datatype Skip = Skip(backend: string, source: string, running: string, requirement: Requirement)

  /** Either floor alone skips the runtime. */
  predicate IsBelowEither(running: Option<string>, pin: Requirement, artifact: Option<Requirement>) {
    IsBelow(running, pin.minVersion) || (artifact.Some? && IsBelow(running, artifact.value.minVersion))
  }

  /** The skip of one candidate, from its pin and from what the artifact itself declares; a
      runtime of unknown version is never skipped. */
  function SourceFloorSkip(backend: string, source: string, pin: Requirement,
                           running: Option<string>, artifact: Option<Requirement>): (r: Option<Skip>)
    ensures !IsUnreadable(pin.minVersion) ==> (r.Some? <==> IsBelowEither(running, pin, artifact))
    ensures IsUnreadable(pin.minVersion) ==> r.None?
    ensures r.Some? ==>
              && running == Some(r.value.running) && IsBelow(running, r.value.requirement.minVersion)
              && (r.value.requirement.minVersion == pin.minVersion
                  || (artifact.Some? && r.value.requirement.minVersion == artifact.value.minVersion))
  {
    SkipIsJustified(pin, running, artifact);
    if running.None? then None
    else if IsBelow(running, Merge(pin, artifact).minVersion) then Some(Skip(backend, source, running.value, Merge(pin, artifact)))
    else None
  }

  lemma SkipIsJustified(pin: Requirement, running: Option<string>, artifact: Option<Requirement>)
    ensures running.None? ==> !IsBelowEither(running, pin, artifact)
    ensures !IsUnreadable(pin.minVersion) ==> (IsBelow(running, Merge(pin, artifact).minVersion) <==> IsBelowEither(running, pin, artifact))
    ensures IsUnreadable(pin.minVersion) ==> !IsBelow(running, Merge(pin, artifact).minVersion)
  {
    hide ParseVersion;
    NoneIsNoVersion();
    if !IsUnreadable(pin.minVersion) && artifact.Some? { MergeSkipsAsEither(pin, artifact.value, running); }
  }
}
