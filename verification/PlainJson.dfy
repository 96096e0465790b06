/** A JSON writer, and the reader of what it writes: codecs that keep the promises of JSON. */
module PlainJson {
  import opened Text
  import opened Contracts
  import opened Versioning
  import opened Cases
  import opened JournalText
  import Bundles

  // --- writing -------------------------------------------------------------------------------

  function HexDigit(n: nat): char
    requires n < 16
  {
    if n < 10 then '0' + n as char else 'a' + (n - 10) as char
  }

  /** A character inside a string: quotes, backslashes and control characters are escaped, and
      nothing else is. */
  function Escape(c: char): (r: string)
    ensures r != "" && r[0] != '\"'
  {
    if c == '\"' then "\\\""
    else if c == '\\' then "\\\\"
    else if c == '\n' then "\\n"
    else if c == '\r' then "\\r"
    else if c == '\t' then "\\t"
    else if c < ' ' then "\\u00" + [HexDigit(c as int / 16), HexDigit(c as int % 16)]
    else [c]
  }

  /** The rest of a string up to its closing quote, and then `x`. */
  function Quote(s: string, x: string): (r: string)
    ensures |r| > |x|
  {
    if s == "" then "\"" + x else Escape(s[0]) + Quote(s[1..], x)
  }

  function Numeral(n: int): (r: string)
    ensures r != "" && (r[0] == '-' || IsDigit(r[0]))
  {
    if n < 0 then "-" + Digits(-n) else Digits(n)
  }

  /** The keys of an object in some order. */
  ghost function KeyOrder(keys: set<string>): (r: seq<string>)
    ensures forall k :: k in r <==> k in keys
  {
    if keys == {} then [] else
      var k :| k in keys;
      [k] + KeyOrder(keys - {k})
  }

  ghost predicate AreKeys(v: Value, keys: seq<string>) {
    v.Object? && forall i | 0 <= i < |keys| :: keys[i] in v.fields
  }

  function Separator(i: nat): string {
    if i > 0 then ", " else ""
  }

  /** The text of `v`, and then `x`. */
  ghost function Written(v: Value, x: string): (r: string)
    ensures |r| > |x|
    decreases v, 1, 0
  {
    match v
    case Null => "null" + x
    case Bool(b) => if b then "true" + x else "false" + x
    case Number(m, e) => Numeral(m) + ("e" + (Numeral(e) + x))
    case Str(s) => "\"" + Quote(s, x)
    case List(items) => "[" + Items(v, 0, x)
    case Object(fields) => "{" + Fields(v, KeyOrder(fields.Keys), 0, x)
  }

  /** The items from position `i` on, the closing bracket, and then `x`. */
  ghost function Items(v: Value, i: nat, x: string): (r: string)
    requires v.List? && i <= |v.items|
    ensures |r| > |x|
    decreases v, 0, |v.items| - i
  {
    if i == |v.items| then "]" + x else Separator(i) + Written(v.items[i], Items(v, i + 1, x))
  }

  /** The field at position `i` of the key order, and then `x`. */
  ghost function Field(v: Value, keys: seq<string>, i: nat, x: string): (r: string)
    requires AreKeys(v, keys) && i < |keys|
    ensures |r| > |x|
    decreases v, 0, 0
  {
    "\"" + Quote(keys[i], ": " + Written(v.fields[keys[i]], x))
  }

  /** The fields from position `i` of the key order on, the closing brace, and then `x`. */
  ghost function Fields(v: Value, keys: seq<string>, i: nat, x: string): (r: string)
    requires AreKeys(v, keys) && i <= |keys|
    ensures |r| > |x|
    decreases v, 0, |keys| - i + 1
  {
    if i == |keys| then "}" + x else Separator(i) + Field(v, keys, i, Fields(v, keys, i + 1, x))
  }

  // --- the text determines the value ---------------------------------------------------------

  lemma EscapeIsReadBack(c: char, d: char, x: string, y: string)
    requires Escape(c) + x == Escape(d) + y
    ensures c == d && x == y
  {
    var (a, b) := (Escape(c) + x, Escape(d) + y);
    assert a[0] == Escape(c)[0] && b[0] == Escape(d)[0];
    if Escape(c)[0] == '\\' {
      assert a[1] == Escape(c)[1] && b[1] == Escape(d)[1];
      if Escape(c)[1] == 'u' {
        assert a[4] == HexDigit(c as int / 16) && b[4] == HexDigit(d as int / 16);
        assert a[5] == HexDigit(c as int % 16) && b[5] == HexDigit(d as int % 16);
        assert c as int == d as int;
      }
    }
    assert c == d;
    assert x == a[|Escape(c)|..] && y == b[|Escape(d)|..];
  }

  lemma {:induction false} QuoteIsReadBack(s: string, t: string, x: string, y: string)
    requires Quote(s, x) == Quote(t, y)
    ensures s == t && x == y
  {
    assert s == "" ==> Quote(s, x)[0] == '\"';
    assert t == "" ==> Quote(t, y)[0] == '\"';
    assert s != "" ==> Quote(s, x)[0] == Escape(s[0])[0];
    assert t != "" ==> Quote(t, y)[0] == Escape(t[0])[0];
    if s == "" {
      assert x == Quote(s, x)[1..] && y == Quote(t, y)[1..];
    } else {
      EscapeIsReadBack(s[0], t[0], Quote(s[1..], x), Quote(t[1..], y));
      QuoteIsReadBack(s[1..], t[1..], x, y);
      assert s == [s[0]] + s[1..] && t == [t[0]] + t[1..];
    }
  }

  predicate StartsPlain(x: string) {
    x == "" || !IsDigit(x[0])
  }

  lemma DigitsAreReadBack(m: nat, n: nat, x: string, y: string)
    requires StartsPlain(x) && StartsPlain(y) && Digits(m) + x == Digits(n) + y
    ensures m == n && x == y
  {
    DigitRunOf(Digits(m), x);
    DigitRunOf(Digits(n), y);
    var z := Digits(m) + x;
    assert z[..|Digits(m)|] == Digits(m) && z[..|Digits(n)|] == Digits(n);
    assert z[|Digits(m)|..] == x && z[|Digits(n)|..] == y;
    assert ToNat(Digits(m)) == m && ToNat(Digits(n)) == n;
  }

  lemma NumeralOpens(n: int, x: string)
    ensures if n < 0 then Numeral(n) + x == "-" + (Digits(-n) + x) else Numeral(n) + x == Digits(n) + x && (Numeral(n) + x)[0] != '-'
  {
    if n >= 0 { assert (Digits(n) + x)[0] == Digits(n)[0]; }
  }

  lemma SameAfterSign(a: string, b: string)
    requires "-" + a == "-" + b
    ensures a == b
  {
    assert ("-" + a)[1..] == a && ("-" + b)[1..] == b;
  }

  lemma NumeralIsReadBack(m: int, n: int, x: string, y: string)
    requires StartsPlain(x) && StartsPlain(y) && Numeral(m) + x == Numeral(n) + y
    ensures m == n && x == y
  {
    hide Digits, Numeral, StartsPlain;
    NumeralOpens(m, x);
    NumeralOpens(n, y);
    if m < 0 {
      SameAfterSign(Digits(-m) + x, Digits(-n) + y);
      DigitsAreReadBack(-m, -n, x, y);
    } else {
      DigitsAreReadBack(m, n, x, y);
    }
  }

  /** What may follow a value inside an object or a list. */
  predicate Delimits(x: string) {
    x == "" || x[0] == ',' || x[0] == ']' || x[0] == '}'
  }

  predicate Opens(v: Value, c: char) {
    match v
    case Null => c == 'n'
    case Bool(b) => c == if b then 't' else 'f'
    case Number(_, _) => c == '-' || IsDigit(c)
    case Str(_) => c == '\"'
    case List(_) => c == '['
    case Object(_) => c == '{'
  }

  lemma WrittenOpens(v: Value, x: string)
    ensures Opens(v, Written(v, x)[0])
  {}

  lemma {:induction false} ValueIsReadBack(v: Value, w: Value, x: string, y: string)
    requires Delimits(x) && Delimits(y) && Written(v, x) == Written(w, y)
    ensures v == w && x == y
    decreases v, 1, 0
  {
    WrittenOpens(v, x);
    WrittenOpens(w, y);
    match v {
      case Null => assert x == Written(v, x)[4..] && y == Written(w, y)[4..];
      case Bool(b) =>
        var n := if b then 4 else 5;
        assert x == Written(v, x)[n..] && y == Written(w, y)[n..];
      case Number(m, e) =>
        NumeralIsReadBack(m, w.mantissa, "e" + (Numeral(e) + x), "e" + (Numeral(w.exponent) + y));
        assert Numeral(e) + x == ("e" + (Numeral(e) + x))[1..];
        assert Numeral(w.exponent) + y == ("e" + (Numeral(w.exponent) + y))[1..];
        NumeralIsReadBack(e, w.exponent, x, y);
      case Str(s) =>
        assert Quote(s, x) == Written(v, x)[1..] && Quote(w.s, y) == Written(w, y)[1..];
        QuoteIsReadBack(s, w.s, x, y);
      case List(items) =>
        assert Items(v, 0, x) == Written(v, x)[1..] && Items(w, 0, y) == Written(w, y)[1..];
        ItemsAreReadBack(v, w, 0, x, y);
        assert v.items[0..] == v.items && w.items[0..] == w.items;
      case Object(fields) =>
        var (k, l) := (KeyOrder(fields.Keys), KeyOrder(w.fields.Keys));
        assert Fields(v, k, 0, x) == Written(v, x)[1..] && Fields(w, l, 0, y) == Written(w, y)[1..];
        FieldsAreReadBack(v, w, k, l, 0, x, y);
        SameFields(v, w, k, l);
    }
  }

  lemma ItemsOpen(v: Value, i: nat, x: string)
    requires v.List? && i <= |v.items|
    ensures Items(v, i, x)[0] == ']' <==> i == |v.items|
  {
    if i < |v.items| { WrittenOpens(v.items[i], Items(v, i + 1, x)); }
  }

  lemma FieldsOpen(v: Value, keys: seq<string>, i: nat, x: string)
    requires AreKeys(v, keys) && i <= |keys|
    ensures Fields(v, keys, i, x)[0] == '}' <==> i == |keys|
  {}

  lemma {:induction false} ItemsAreReadBack(v: Value, w: Value, i: nat, x: string, y: string)
    requires v.List? && w.List? && i <= |v.items| && i <= |w.items| && Items(v, i, x) == Items(w, i, y)
    ensures v.items[i..] == w.items[i..] && x == y
    decreases v, 0, |v.items| - i
  {
    ItemsOpen(v, i, x);
    ItemsOpen(w, i, y);
    if i == |v.items| {
      assert x == Items(v, i, x)[1..] && y == Items(w, i, y)[1..];
    } else {
      var (a, b) := (Items(v, i + 1, x), Items(w, i + 1, y));
      AfterSeparator(i, Written(v.items[i], a), Written(w.items[i], b));
      ValueIsReadBack(v.items[i], w.items[i], a, b);
      ItemsAreReadBack(v, w, i + 1, x, y);
      assert v.items[i..] == [v.items[i]] + v.items[i + 1..] && w.items[i..] == [w.items[i]] + w.items[i + 1..];
    }
  }

  lemma AfterSeparator(i: nat, a: string, b: string)
    requires Separator(i) + a == Separator(i) + b
    ensures a == b
  {
    assert a == (Separator(i) + a)[|Separator(i)|..] && b == (Separator(i) + b)[|Separator(i)|..];
  }

  lemma FieldIsReadBack(v: Value, w: Value, k: seq<string>, l: seq<string>, i: nat, x: string, y: string)
    requires AreKeys(v, k) && AreKeys(w, l) && i < |k| && i < |l|
    requires Separator(i) + Field(v, k, i, x) == Separator(i) + Field(w, l, i, y)
    ensures k[i] == l[i] && Written(v.fields[k[i]], x) == Written(w.fields[l[i]], y)
  {
    hide Quote, Written;
    var (p, q) := (": " + Written(v.fields[k[i]], x), ": " + Written(w.fields[l[i]], y));
    AfterSeparator(i, Field(v, k, i, x), Field(w, l, i, y));
    assert Quote(k[i], p) == Field(v, k, i, x)[1..] && Quote(l[i], q) == Field(w, l, i, y)[1..];
    QuoteIsReadBack(k[i], l[i], p, q);
    assert Written(v.fields[k[i]], x) == p[2..] && Written(w.fields[l[i]], y) == q[2..];
  }

  lemma {:induction false} FieldsAreReadBack(v: Value, w: Value, k: seq<string>, l: seq<string>, i: nat, x: string, y: string)
    requires AreKeys(v, k) && AreKeys(w, l) && i <= |k| && i <= |l| && Fields(v, k, i, x) == Fields(w, l, i, y)
    ensures k[i..] == l[i..] && x == y && forall j | i <= j < |k| :: k[j] in w.fields && v.fields[k[j]] == w.fields[k[j]]
    decreases v, 0, |k| - i
  {
    FieldsOpen(v, k, i, x);
    FieldsOpen(w, l, i, y);
    if i == |k| {
      assert x == Fields(v, k, i, x)[1..] && y == Fields(w, l, i, y)[1..];
    } else {
      var (a, b) := (Fields(v, k, i + 1, x), Fields(w, l, i + 1, y));
      FieldIsReadBack(v, w, k, l, i, a, b);
      ValueIsReadBack(v.fields[k[i]], w.fields[l[i]], a, b);
      FieldsAreReadBack(v, w, k, l, i + 1, x, y);
      assert k[i..] == [k[i]] + k[i + 1..] && l[i..] == [l[i]] + l[i + 1..];
    }
  }

  lemma SameFields(v: Value, w: Value, k: seq<string>, l: seq<string>)
    requires v.Object? && w.Object? && k[0..] == l[0..]
    requires (forall key :: key in k <==> key in v.fields) && (forall key :: key in l <==> key in w.fields)
    requires forall j | 0 <= j < |k| :: k[j] in w.fields && k[j] in v.fields && v.fields[k[j]] == w.fields[k[j]]
    ensures v == w
  {
    assert k[0..] == k && l[0..] == l;
    assert v.fields.Keys == w.fields.Keys;
  }

  // --- the text scans as a value -------------------------------------------------------------

  lemma StepThrough(s: Scan, c: char, x: string)
    ensures Run(s, [c] + x) == Run(Step(s, c), x)
  {
    RunAppend(s, [c], x);
    assert [c][..0] == "" && Run(s, [c]) == Step(Run(s, ""), c);
  }

  lemma {:induction false} StaysThrough(s: Scan, text: string, x: string)
    requires forall i | 0 <= i < |text| :: Step(s, text[i]) == s
    ensures Run(s, text + x) == Run(s, x)
  {
    if text == "" {
      assert text + x == x;
    } else {
      StaysThrough(s, text[1..], x);
      StepThrough(s, text[0], text[1..] + x);
      assert text + x == [text[0]] + (text[1..] + x);
    }
  }

  lemma EscapeStaysInString(c: char, d: nat, x: string)
    ensures Run(Live(d, InString), Escape(c) + x) == Run(Live(d, InString), x)
  {
    hide Run;
    var (s, e) := (Live(d, InString), Escape(c));
    if e[0] == '\\' {
      assert e + x == [e[0]] + ([e[1]] + (e[2..] + x));
      StepThrough(s, e[0], [e[1]] + (e[2..] + x));
      StepThrough(Live(d, Escaped), e[1], e[2..] + x);
      StaysThrough(s, e[2..], x);
    } else {
      StaysThrough(s, e, x);
    }
  }

  lemma {:induction false} QuoteCloses(s: string, d: nat, x: string)
    ensures Run(Live(d, InString), Quote(s, x)) == Run(Live(d, Closed), x)
  {
    hide Run;
    if s == "" {
      StepThrough(Live(d, InString), '\"', x);
    } else {
      EscapeStaysInString(s[0], d, Quote(s[1..], x));
      QuoteCloses(s[1..], d, x);
    }
  }

  function ModeAfter(v: Value): Mode {
    if v.Str? then Closed else Open
  }

  lemma NumeralStaysOpen(n: int, d: nat, x: string)
    ensures Run(Live(d, Open), Numeral(n) + x) == Run(Live(d, Open), x)
  {
    hide Run;
    StaysThrough(Live(d, Open), Numeral(n), x);
  }

  lemma {:induction false} WrittenScans(v: Value, d: nat, x: string)
    ensures Run(Live(d, Open), Written(v, x)) == Run(Live(d, ModeAfter(v)), x)
    decreases v, 1, 0
  {
    hide Run;
    var s := Live(d, Open);
    match v {
      case Null => StaysThrough(s, "null", x);
      case Bool(b) => StaysThrough(s, if b then "true" else "false", x);
      case Number(m, e) =>
        NumeralStaysOpen(m, d, "e" + (Numeral(e) + x));
        StepThrough(s, 'e', Numeral(e) + x);
        NumeralStaysOpen(e, d, x);
      case Str(t) =>
        StepThrough(s, '\"', Quote(t, x));
        QuoteCloses(t, d, x);
      case List(items) =>
        StepThrough(s, '[', Items(v, 0, x));
        ItemsScan(v, 0, d + 1, Open, x);
      case Object(fields) =>
        var keys := KeyOrder(fields.Keys);
        StepThrough(s, '{', Fields(v, keys, 0, x));
        FieldsScan(v, keys, 0, d + 1, Open, x);
    }
  }

  lemma SeparatorOpens(i: nat, d: nat, mode: Mode, x: string)
    requires mode.Open? || (mode.Closed? && i > 0)
    ensures Run(Live(d, mode), Separator(i) + x) == Run(Live(d, Open), x)
  {
    hide Run;
    if i > 0 {
      assert Separator(i) + x == [','] + ([' '] + x);
      StepThrough(Live(d, mode), ',', [' '] + x);
      StepThrough(Live(d, Open), ' ', x);
    } else {
      assert Separator(i) + x == x;
    }
  }

  lemma {:induction false} ItemsScan(v: Value, i: nat, d: nat, mode: Mode, x: string)
    requires v.List? && i <= |v.items| && (mode.Open? || (mode.Closed? && i > 0))
    ensures Run(Live(d, mode), Items(v, i, x)) == Run(CloseBracket(d), x)
    decreases v, 0, |v.items| - i
  {
    hide Run;
    if i == |v.items| {
      StepThrough(Live(d, mode), ']', x);
    } else {
      var rest := Items(v, i + 1, x);
      SeparatorOpens(i, d, mode, Written(v.items[i], rest));
      WrittenScans(v.items[i], d, rest);
      ItemsScan(v, i + 1, d, ModeAfter(v.items[i]), x);
    }
  }

  lemma KeyScans(key: string, d: nat, value: string)
    ensures Run(Live(d, Open), "\"" + Quote(key, ": " + value)) == Run(Live(d, Open), value)
  {
    hide Run, Quote;
    StepThrough(Live(d, Open), '\"', Quote(key, ": " + value));
    QuoteCloses(key, d, ": " + value);
    ColonOpens(d, value);
  }

  lemma ColonOpens(d: nat, value: string)
    ensures Run(Live(d, Closed), ": " + value) == Run(Live(d, Open), value)
  {
    hide Run;
    assert ": " + value == [':'] + ([' '] + value);
    StepThrough(Live(d, Closed), ':', [' '] + value);
    StepThrough(Live(d, Open), ' ', value);
  }

  lemma {:induction false} FieldsScan(v: Value, keys: seq<string>, i: nat, d: nat, mode: Mode, x: string)
    requires AreKeys(v, keys) && i <= |keys| && (mode.Open? || (mode.Closed? && i > 0))
    ensures Run(Live(d, mode), Fields(v, keys, i, x)) == Run(CloseBracket(d), x)
    decreases v, 0, |keys| - i
  {
    hide Run;
    if i == |keys| {
      StepThrough(Live(d, mode), '}', x);
    } else {
      var rest := Fields(v, keys, i + 1, x);
      SeparatorOpens(i, d, mode, Field(v, keys, i, rest));
      WrittenScans(v.fields[keys[i]], d, rest);
      KeyScans(keys[i], d, Written(v.fields[keys[i]], rest));
      FieldsScan(v, keys, i + 1, d, ModeAfter(v.fields[keys[i]]), x);
    }
  }

  // --- the text is one line ------------------------------------------------------------------

  predicate IsPrintable(s: string) {
    forall i | 0 <= i < |s| :: s[i] >= ' '
  }

  lemma {:induction false} QuoteIsPrintable(s: string, x: string)
    requires IsPrintable(x)
    ensures IsPrintable(Quote(s, x))
  {
    if s != "" { QuoteIsPrintable(s[1..], x); }
  }

  lemma NumeralIsPrintable(n: int, x: string)
    requires IsPrintable(x)
    ensures IsPrintable(Numeral(n) + x)
  {
    hide Digits;
  }

  lemma {:induction false} WrittenIsPrintable(v: Value, x: string)
    requires IsPrintable(x)
    ensures IsPrintable(Written(v, x))
    decreases v, 1, 0
  {
    match v {
      case Null =>
      case Bool(_) =>
      case Number(m, e) =>
        NumeralIsPrintable(e, x);
        NumeralIsPrintable(m, "e" + (Numeral(e) + x));
      case Str(s) => QuoteIsPrintable(s, x);
      case List(_) => ItemsArePrintable(v, 0, x);
      case Object(fields) => FieldsArePrintable(v, KeyOrder(fields.Keys), 0, x);
    }
  }

  lemma {:induction false} ItemsArePrintable(v: Value, i: nat, x: string)
    requires v.List? && i <= |v.items| && IsPrintable(x)
    ensures IsPrintable(Items(v, i, x))
    decreases v, 0, |v.items| - i
  {
    if i < |v.items| {
      ItemsArePrintable(v, i + 1, x);
      WrittenIsPrintable(v.items[i], Items(v, i + 1, x));
    }
  }

  lemma {:induction false} FieldsArePrintable(v: Value, keys: seq<string>, i: nat, x: string)
    requires AreKeys(v, keys) && i <= |keys| && IsPrintable(x)
    ensures IsPrintable(Fields(v, keys, i, x))
    decreases v, 0, |keys| - i
  {
    if i < |keys| {
      FieldsArePrintable(v, keys, i + 1, x);
      WrittenIsPrintable(v.fields[keys[i]], Fields(v, keys, i + 1, x));
      QuoteIsPrintable(keys[i], ": " + Written(v.fields[keys[i]], Fields(v, keys, i + 1, x)));
    }
  }

  // --- where the text breaks -----------------------------------------------------------------

  /** No character at which a line ends and that the writer leaves as it is: U+0085, U+2028 and
      U+2029, as the others are control characters. */
  predicate IsUnbroken(s: string) {
    forall i | 0 <= i < |s| :: IsLineBreak(s[i]) ==> s[i] < ' '
  }

  /** No such character in any string or key of the value. */
  ghost predicate HasNoBreak(v: Value)
    decreases v
  {
    match v
    case Str(s) => IsUnbroken(s)
    case List(items) => forall i | 0 <= i < |items| :: HasNoBreak(items[i])
    case Object(fields) => forall k | k in fields :: IsUnbroken(k) && HasNoBreak(fields[k])
    case _ => true
  }

  lemma OneLineConcat(a: string, b: string)
    ensures IsOneLine(a + b) <==> IsOneLine(a) && IsOneLine(b)
  {
    var s := a + b;
    assert forall i | 0 <= i < |a| :: s[i] == a[i];
    assert forall i | 0 <= i < |b| :: s[i + |a|] == b[i];
    if IsOneLine(s) {
      forall i | 0 <= i < |b| ensures !IsLineBreak(b[i]) { assert s[i + |a|] == b[i]; }
    }
  }

  lemma EscapeIsOneLine(c: char)
    ensures IsOneLine(Escape(c)) <==> (IsLineBreak(c) ==> c < ' ')
  {
    if Escape(c) == [c] { assert Escape(c)[0] == c; }
  }

  lemma {:induction false} QuoteIsOneLine(s: string, x: string)
    ensures IsOneLine(Quote(s, x)) <==> IsUnbroken(s) && IsOneLine(x)
  {
    if s == "" {
      OneLineConcat("\"", x);
    } else {
      QuoteIsOneLine(s[1..], x);
      EscapeIsOneLine(s[0]);
      OneLineConcat(Escape(s[0]), Quote(s[1..], x));
      assert IsUnbroken(s) <==> (IsLineBreak(s[0]) ==> s[0] < ' ') && IsUnbroken(s[1..]) by {
        assert s == [s[0]] + s[1..];
      }
    }
  }

  lemma NumeralIsOneLine(n: int, x: string)
    ensures IsOneLine(Numeral(n) + x) <==> IsOneLine(x)
  {
    OneLineConcat(Numeral(n), x);
  }

  /** The text of a value is one line exactly when the value holds none of those characters. */
  lemma {:induction false} WrittenIsOneLine(v: Value, x: string)
    ensures IsOneLine(Written(v, x)) <==> HasNoBreak(v) && IsOneLine(x)
    decreases v, 1, 0
  {
    match v {
      case Null => OneLineConcat("null", x);
      case Bool(b) => OneLineConcat(if b then "true" else "false", x);
      case Number(m, e) =>
        NumeralIsOneLine(m, "e" + (Numeral(e) + x));
        OneLineConcat("e", Numeral(e) + x);
        NumeralIsOneLine(e, x);
      case Str(s) =>
        OneLineConcat("\"", Quote(s, x));
        QuoteIsOneLine(s, x);
      case List(items) =>
        OneLineConcat("[", Items(v, 0, x));
        ItemsAreOneLine(v, 0, x);
      case Object(fields) =>
        var keys := KeyOrder(fields.Keys);
        OneLineConcat("{", Fields(v, keys, 0, x));
        FieldsAreOneLine(v, keys, 0, x);
        AllFieldsUnbroken(v, keys);
    }
  }

  lemma SeparatorIsOneLine(i: nat, x: string)
    ensures IsOneLine(Separator(i) + x) <==> IsOneLine(x)
  {
    OneLineConcat(Separator(i), x);
  }

  lemma {:induction false} ItemsAreOneLine(v: Value, i: nat, x: string)
    requires v.List? && i <= |v.items|
    ensures IsOneLine(Items(v, i, x)) <==> (forall j | i <= j < |v.items| :: HasNoBreak(v.items[j])) && IsOneLine(x)
    decreases v, 0, |v.items| - i
  {
    if i == |v.items| {
      OneLineConcat("]", x);
    } else {
      var rest := Items(v, i + 1, x);
      SeparatorIsOneLine(i, Written(v.items[i], rest));
      WrittenIsOneLine(v.items[i], rest);
      ItemsAreOneLine(v, i + 1, x);
    }
  }

  ghost predicate IsFieldUnbroken(v: Value, key: string)
    requires v.Object? && key in v.fields
  {
    IsUnbroken(key) && HasNoBreak(v.fields[key])
  }

  lemma AllFieldsUnbroken(v: Value, keys: seq<string>)
    requires AreKeys(v, keys) && forall k :: k in keys <==> k in v.fields
    ensures HasNoBreak(v) <==> forall j | 0 <= j < |keys| :: IsFieldUnbroken(v, keys[j])
  {
    if forall j | 0 <= j < |keys| :: IsFieldUnbroken(v, keys[j]) {
      forall k | k in v.fields ensures IsUnbroken(k) && HasNoBreak(v.fields[k]) {
        var j :| 0 <= j < |keys| && keys[j] == k;
        assert IsFieldUnbroken(v, keys[j]);
      }
    }
  }

  lemma FieldIsOneLine(v: Value, keys: seq<string>, i: nat, rest: string)
    requires AreKeys(v, keys) && i < |keys|
    requires IsOneLine(Written(v.fields[keys[i]], rest)) <==> HasNoBreak(v.fields[keys[i]]) && IsOneLine(rest)
    ensures IsOneLine(Field(v, keys, i, rest)) <==> IsFieldUnbroken(v, keys[i]) && IsOneLine(rest)
  {
    var value := Written(v.fields[keys[i]], rest);
    OneLineConcat("\"", Quote(keys[i], ": " + value));
    QuoteIsOneLine(keys[i], ": " + value);
    OneLineConcat(": ", value);
  }

  lemma {:induction false} FieldsAreOneLine(v: Value, keys: seq<string>, i: nat, x: string)
    requires AreKeys(v, keys) && i <= |keys|
    ensures IsOneLine(Fields(v, keys, i, x)) <==> (forall j | i <= j < |keys| :: IsFieldUnbroken(v, keys[j])) && IsOneLine(x)
    decreases v, 0, |keys| - i
  {
    if i == |keys| {
      OneLineConcat("}", x);
    } else {
      hide IsOneLine, IsFieldUnbroken, Field;
      var rest := Fields(v, keys, i + 1, x);
      SeparatorIsOneLine(i, Field(v, keys, i, rest));
      WrittenIsOneLine(v.fields[keys[i]], rest);
      FieldIsOneLine(v, keys, i, rest);
      FieldsAreOneLine(v, keys, i + 1, x);
    }
  }

  // --- records as texts ----------------------------------------------------------------------

  ghost predicate IsOrderOf(keys: seq<string>, r: Record) {
    forall k :: k in keys <==> k in r
  }

  ghost function ObjectText(r: Record, keys: seq<string>): (t: string)
    requires IsOrderOf(keys, r)
    ensures t != "" && t[0] == '{'
  {
    "{" + Fields(Object(r), keys, 0, "")
  }

  /** A text of `r`, its fields in any order, with or without a final newline. */
  ghost predicate IsTextOf(t: string, r: Record) {
    exists keys :: IsOrderOf(keys, r) && (t == ObjectText(r, keys) || t == ObjectText(r, keys) + "\n")
  }

  lemma ObjectTextScans(r: Record, keys: seq<string>)
    requires IsOrderOf(keys, r)
    ensures Run(Start, ObjectText(r, keys)) == Done && IsPrintable(ObjectText(r, keys))
  {
    var fields := Fields(Object(r), keys, 0, "");
    StepThrough(Start, '{', fields);
    FieldsScan(Object(r), keys, 0, 0, Open, "");
    FieldsArePrintable(Object(r), keys, 0, "");
  }

  lemma ObjectTextIsReadBack(r: Record, q: Record, k: seq<string>, l: seq<string>)
    requires IsOrderOf(k, r) && IsOrderOf(l, q) && ObjectText(r, k) == ObjectText(q, l)
    ensures r == q
  {
    assert Fields(Object(r), k, 0, "") == ObjectText(r, k)[1..] && Fields(Object(q), l, 0, "") == ObjectText(q, l)[1..];
    FieldsAreReadBack(Object(r), Object(q), k, l, 0, "", "");
    SameFields(Object(r), Object(q), k, l);
  }

  lemma Unended(a: string, b: string)
    ensures a + "\n" == b + "\n" ==> a == b
    ensures IsPrintable(b) ==> a + "\n" != b
  {
    assert (a + "\n")[..|a|] == a && (b + "\n")[..|b|] == b && (a + "\n")[|a|] == '\n';
  }

  lemma OneRecordPerText(t: string, r: Record, q: Record)
    requires IsTextOf(t, r) && IsTextOf(t, q)
    ensures r == q
  {
    var k :| IsOrderOf(k, r) && (t == ObjectText(r, k) || t == ObjectText(r, k) + "\n");
    var l :| IsOrderOf(l, q) && (t == ObjectText(q, l) || t == ObjectText(q, l) + "\n");
    hide ObjectText;
    ObjectTextScans(r, k);
    ObjectTextScans(q, l);
    Unended(ObjectText(r, k), ObjectText(q, l));
    Unended(ObjectText(q, l), ObjectText(r, k));
    ObjectTextIsReadBack(r, q, k, l);
  }

  /** The reader: the record that a text is of. */
  ghost function Loads(t: string): Option<Value> {
    if exists r :: IsTextOf(t, r) then
      var r :| IsTextOf(t, r);
      Some(Object(r))
    else None
  }

  lemma LoadsText(t: string, r: Record)
    requires IsTextOf(t, r)
    ensures Loads(t) == Some(Object(r))
  {
    var q :| IsTextOf(t, q) && Loads(t) == Some(Object(q));
    OneRecordPerText(t, r, q);
  }

  ghost function Dumps(r: Record): string {
    ObjectText(r, KeyOrder(r.Keys))
  }

  lemma DumpsIsOneLine(r: Record)
    ensures IsOneLine(Dumps(r)) <==> HasNoBreak(Object(r))
  {
    hide IsOneLine, HasNoBreak, Fields;
    WrittenIsOneLine(Object(r), "");
    assert Dumps(r) == Written(Object(r), "");
    EmptyIsOneLine();
  }

  lemma EmptyIsOneLine()
    ensures IsOneLine("")
  {}

  ghost function BundleCodec(): Bundles.Codec {
    Bundles.Codec(t => Loads(t), r => Dumps(r), r => Dumps(r))
  }

  lemma DumpsReadBack(r: Record)
    ensures Loads(Dumps(r)) == Some(Object(r)) && Loads(Dumps(r) + "\n") == Some(Object(r))
    ensures Dumps(r) != "" && Dumps(r)[0] == '{' && IsPrintable(Dumps(r)) && Run(Start, Dumps(r)) == Done
  {
    ObjectTextScans(r, KeyOrder(r.Keys));
    hide ObjectText;
    assert IsTextOf(Dumps(r), r) && IsTextOf(Dumps(r) + "\n", r);
    LoadsText(Dumps(r), r);
    LoadsText(Dumps(r) + "\n", r);
  }

  /** What is read starts with a brace, and without a final newline it scans to its end. */
  lemma ReadTextScans(t: string)
    requires Loads(t).Some?
    ensures t != "" && t[0] == '{' && (IsPrintable(t) || !IsSpace(t[|t| - 1]) ==> Run(Start, t) == Done)
  {
    var r :| IsTextOf(t, r);
    var k :| IsOrderOf(k, r) && (t == ObjectText(r, k) || t == ObjectText(r, k) + "\n");
    ObjectTextScans(r, k);
    assert t != ObjectText(r, k) ==> t[|t| - 1] == '\n';
  }

  lemma CutTextIsNotRead(r: Record, n: nat)
    requires 0 < n < |Dumps(r)|
    ensures Loads(Dumps(r)[..n]).None?
  {
    hide Dumps, Loads, Run;
    var (cut, rest) := (Dumps(r)[..n], Dumps(r)[n..]);
    DumpsReadBack(r);
    assert IsPrintable(cut);
    assert Dumps(r) == cut + rest;
    RunAppend(Start, cut, rest);
    NothingAfterTheEnd(Done, rest);
    if Loads(cut).Some? { ReadTextScans(cut); }
  }

  /** The promises of JSON can be kept: this codec keeps those that the bundle reader relies on. */
  lemma BundleCodecIsJson()
    ensures Bundles.IsJson(BundleCodec())
  {
    var c := BundleCodec();
    hide Dumps, Loads;
    forall r: Record ensures
      && c.loads(c.dumps(r)) == Some(Object(r)) && c.loads(c.pretty(r) + "\n") == Some(Object(r))
      && c.dumps(r) != "" && c.dumps(r)[0] == '{' && IsPrintable(c.dumps(r))
    {
      DumpsReadBack(r);
    }
    forall s | IsBlank(s) ensures c.loads(s).None? {
      if Loads(s).Some? { ReadTextScans(s); }
    }
    forall r: Record, n | 0 < n < |c.dumps(r)| ensures c.loads(c.dumps(r)[..n]).None? { CutTextIsNotRead(r, n); }
  }

  function RowFields(id: string, state: State): Record {
    map[ITEM_ID := Str(id), STATE := Object(state)]
  }

  ghost function RowText(id: string, state: State): string {
    assert IsOrderOf([ITEM_ID, STATE], RowFields(id, state));
    ObjectText(RowFields(id, state), [ITEM_ID, STATE])
  }

  function Render(v: Value): string {
    if v.Str? then v.s else ""
  }

  ghost function JournalCodec(): Codec {
    Codec(t => Loads(t), (id, state) => RowText(id, state), v => Render(v), (id, state) => true)
  }

  lemma RowReadsBack(id: string, state: State)
    ensures Loads(RowText(id, state)) == Some(Object(RowFields(id, state)))
    ensures RowText(id, state) != "" && Run(Start, RowText(id, state)) == Done && IsPrintable(RowText(id, state))
  {
    var (r, keys) := (RowFields(id, state), [ITEM_ID, STATE]);
    assert IsOrderOf(keys, r);
    ObjectTextScans(r, keys);
    hide ObjectText;
    assert IsTextOf(RowText(id, state), r);
    LoadsText(RowText(id, state), r);
  }

  lemma RowStartsWithItsId(id: string, state: State)
    ensures "{\"i" <= RowText(id, state)
  {
    var (r, keys) := (RowFields(id, state), [ITEM_ID, STATE]);
    assert IsOrderOf(keys, r);
    StartsWithKey(Object(r), keys);
    assert RowText(id, state) == "{" + Fields(Object(r), keys, 0, "");
  }

  lemma StartsWithKey(v: Value, keys: seq<string>)
    requires AreKeys(v, keys) && keys != [] && keys[0] != "" && Escape(keys[0][0]) == [keys[0][0]]
    ensures var t := Fields(v, keys, 0, ""); |t| > 2 && t[0] == '\"' && t[1] == keys[0][0]
  {
    var rest := ": " + Written(v.fields[keys[0]], Fields(v, keys, 1, ""));
    assert Fields(v, keys, 0, "") == "" + ("\"" + Quote(keys[0], rest));
    assert Quote(keys[0], rest)[0] == keys[0][0];
  }

  /** A finished scan ends with a bracket. */
  lemma FinishedEndsClosed(t: string)
    requires Run(Start, t) == Done
    ensures t != "" && (t[|t| - 1] == '}' || t[|t| - 1] == ']')
  {}

  /** And one codec keeps those that the journal relies on. */
  lemma JournalCodecIsJson()
    ensures IsJournalJson(JournalCodec())
  {
    var c := JournalCodec();
    hide RowText, Loads, Run;
    forall r: Row ensures
      && c.loads(c.line(r.id, r.state)) == Some(Object(map[ITEM_ID := Str(r.id), STATE := Object(r.state)]))
      && "{\"i" <= c.line(r.id, r.state) && IsPrintable(c.line(r.id, r.state))
      && !IsSpace(c.line(r.id, r.state)[|c.line(r.id, r.state)| - 1])
    {
      RowReadsBack(r.id, r.state);
      RowStartsWithItsId(r.id, r.state);
      FinishedEndsClosed(RowText(r.id, r.state));
    }
    forall t | t != "" && t[0] == '{' && !IsSpace(t[|t| - 1]) && c.loads(t).Some? && c.loads(t).value.Object? ensures Run(Start, t) == Done {
      ReadTextScans(t);
    }
  }
}
