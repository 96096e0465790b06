/** Strict MAJOR.MINOR.PATCH versions: the parser, the printer and the derived order. */
module Versioning {
  import opened Text

  datatype SemanticVersion = SemanticVersion(major: nat, minor: nat, patch: nat) {

    /** The order a frozen, ordered dataclass derives from its fields. */
    predicate Less(other: SemanticVersion) {
      || major < other.major
      || (major == other.major && minor < other.minor)
      || (major == other.major && minor == other.minor && patch < other.patch)
    }

    function Print(): string {
      Digits(major) + "." + Digits(minor) + "." + Digits(patch)
    }
  }

  /** One group of the version expression: a zero, or digits that do not start with a zero. */
  predicate IsNumeral(s: string) {
    s != "" && AllDigits(s) && (s[0] == '0' ==> |s| == 1)
  }

  function Digits(n: nat): (s: string)
    ensures IsNumeral(s) && ToNat(s) == n
    ensures n > 0 ==> s[0] != '0'
  {
    var last := ['0' + (n % 10) as char];
    if n < 10 then last else
      var r := Digits(n / 10) + last;
      assert r[..|r| - 1] == Digits(n / 10);
      r
  }

  function IndexOfDot(s: string): (n: nat)
    ensures n <= |s| && (n < |s| ==> s[n] == '.') && forall i | 0 <= i < n :: s[i] != '.'
  {
    if s == "" || s[0] == '.' then 0 else 1 + IndexOfDot(s[1..])
  }

  function Parse(s: string): Option<SemanticVersion> {
    var i := IndexOfDot(s);
    if i == |s| then None else
      var rest := s[i + 1..];
      var j := IndexOfDot(rest);
      if j == |rest| then None else
        var (a, b, c) := (s[..i], rest[..j], rest[j + 1..]);
        if IsNumeral(a) && IsNumeral(b) && IsNumeral(c)
        then Some(SemanticVersion(ToNat(a), ToNat(b), ToNat(c)))
        else None
  }

  /** `s` is three numerals joined by dots: the full match the parser's expression demands. */
  ghost predicate Spells(s: string, a: string, b: string, c: string) {
    IsNumeral(a) && IsNumeral(b) && IsNumeral(c) && s == a + "." + b + "." + c
  }

  lemma {:induction false} DigitsOfNumeral(s: string)
    requires IsNumeral(s)
    ensures Digits(ToNat(s)) == s
    ensures s[0] != '0' ==> ToNat(s) > 0
  {
    var last := s[|s| - 1];
    if |s| > 1 {
      var front := s[..|s| - 1];
      DigitsOfNumeral(front);
      assert ToNat(s) == 10 * ToNat(front) + (last as int - '0' as int);
      assert ToNat(s) / 10 == ToNat(front) && ToNat(s) % 10 == last as int - '0' as int;
      assert s == front + [last];
    } else {
      assert s[..0] == "" && s == [last];
    }
  }

  lemma DotAfterNumeral(a: string, rest: string)
    requires IsNumeral(a)
    ensures IndexOfDot(a + "." + rest) == |a|
  {
    var s := a + "." + rest;
    assert s[|a|] == '.';
    assert forall i | 0 <= i < |a| :: s[i] == a[i] && IsDigit(a[i]);
  }

  /** Every spelled version is accepted, and its three numbers are read off. */
  lemma SpelledIsParsed(s: string, a: string, b: string, c: string)
    requires Spells(s, a, b, c)
    ensures Parse(s) == Some(SemanticVersion(ToNat(a), ToNat(b), ToNat(c)))
  {
    var rest := b + "." + c;
    Reassociate(a, b, c);
    DotAfterNumeral(a, rest);
    DotAfterNumeral(b, c);
    assert s[..|a|] == a && s[|a| + 1..] == rest;
    assert rest[..|b|] == b && rest[|b| + 1..] == c;
  }

  /** Nothing else is accepted. */
  lemma ParsedIsSpelled(s: string) returns (a: string, b: string, c: string)
    requires Parse(s).Some?
    ensures Spells(s, a, b, c)
  {
    var i := IndexOfDot(s);
    var rest := s[i + 1..];
    var j := IndexOfDot(rest);
    a, b, c := s[..i], rest[..j], rest[j + 1..];
    CutAtDot(s, i);
    CutAtDot(rest, j);
    Reassociate(a, b, c);
  }

  lemma CutAtDot(s: string, i: nat)
    requires i < |s| && s[i] == '.'
    ensures s == s[..i] + "." + s[i + 1..]
  {}

  lemma Reassociate(a: string, b: string, c: string)
    ensures a + "." + (b + "." + c) == a + "." + b + "." + c
  {}

  lemma ParseOfPrint(v: SemanticVersion)
    ensures Parse(v.Print()) == Some(v)
  {
    SpelledIsParsed(v.Print(), Digits(v.major), Digits(v.minor), Digits(v.patch));
  }

  lemma PrintOfParse(s: string)
    requires Parse(s).Some?
    ensures Parse(s).value.Print() == s
  {
    var a, b, c := ParsedIsSpelled(s);
    SpelledIsParsed(s, a, b, c);
    DigitsOfNumeral(a);
    DigitsOfNumeral(b);
    DigitsOfNumeral(c);
  }

  /** A table keyed by version text is a table keyed by version. */
  lemma TextEqualityIsVersionEquality(s: string, t: string)
    requires Parse(s).Some? && Parse(t).Some?
    ensures s == t <==> Parse(s) == Parse(t)
  {
    PrintOfParse(s);
    PrintOfParse(t);
  }

  /** At the first of major, minor and patch that differs, `a` has the smaller number. */
  ghost predicate IsOlder(a: SemanticVersion, b: SemanticVersion) {
    var (s, t) := ([a.major, a.minor, a.patch], [b.major, b.minor, b.patch]);
    exists i :: 0 <= i < 3 && s[i] < t[i] && s[..i] == t[..i]
  }

  /** The order decides by the first number that differs. */
  lemma OrderIsLexicographic(a: SemanticVersion, b: SemanticVersion)
    ensures a.Less(b) <==> IsOlder(a, b)
  {
    var (s, t) := ([a.major, a.minor, a.patch], [b.major, b.minor, b.patch]);
    assert s[..0] == t[..0];
    assert s[..1] == [a.major] && t[..1] == [b.major];
    assert s[..2] == [a.major, a.minor] && t[..2] == [b.major, b.minor];
    assert s[0] == a.major && s[1] == a.minor && s[2] == a.patch;
  }

  /** On accepted texts the order is strict, total and transitive. */
  lemma OrderOnTexts(s: string, t: string, u: string)
    requires Parse(s).Some? && Parse(t).Some? && Parse(u).Some?
    ensures var (a, b, c) := (Parse(s).value, Parse(t).value, Parse(u).value);
            && !(a.Less(b) && b.Less(a))
            && (s != t <==> a.Less(b) || b.Less(a))
            && (a.Less(b) && b.Less(c) ==> a.Less(c))
  {
    TextEqualityIsVersionEquality(s, t);
  }
}
