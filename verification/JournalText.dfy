/** The journal as a file of characters: one JSON object per line, torn at any point. */
module JournalText {
  import opened Text
  import opened Contracts
  import opened Cases

  // --- a necessary condition on JSON object texts --------------------------------------------

  datatype Mode = Open | InString | Escaped | Closed   // Closed: right after a string

  /** A scan of an object text: how many brackets are open besides the outermost, and where. */
  datatype Scan = Start | Live(depth: nat, mode: Mode) | Done | Dead

  predicate IsJsonSpace(c: char) {
    c == ' ' || c == '\t' || c == '\n' || c == '\r'
  }

  function CloseBracket(depth: nat): Scan {
    if depth == 0 then Done else Live(depth - 1, Open)
  }

  /** One character of the scan. An object starts with a brace, nothing follows its end, and only
      a separator, a closing bracket or space follows a string. */
  function Step(s: Scan, c: char): Scan {
    match s
    case Start => if c == '{' then Live(0, Open) else Dead
    case Live(d, Open) =>
      if c == '\"' then Live(d, InString)
      else if c == '{' || c == '[' then Live(d + 1, Open)
      else if c == '}' || c == ']' then CloseBracket(d)
      else s
    case Live(d, InString) => if c == '\"' then Live(d, Closed) else if c == '\\' then Live(d, Escaped) else s
    case Live(d, Escaped) => Live(d, InString)
    case Live(d, Closed) =>
      if c == ',' || c == ':' then Live(d, Open)
      else if c == '}' || c == ']' then CloseBracket(d)
      else if IsJsonSpace(c) then s
      else Dead
    case Done => Dead
    case Dead => Dead
  }

  function Run(s: Scan, text: string): Scan {
    if text == "" then s else Step(Run(s, text[..|text| - 1]), text[|text| - 1])
  }

  /** The JSON reader, the journal's line writer, `str`, and the contract check of a row. */
  datatype Codec = Codec(loads: string -> Option<Value>, line: (string, State) -> string, render: Value -> string,
                         accepts: (string, State) -> bool)

  datatype Row = Row(id: string, state: State)

  const ITEM_ID := "item_id"
  const STATE := "state"

  /** What JSON promises: a written row reads back; it is one line from a brace and a quoted key to
      a brace; and a text without space around it that reads as an object scans to its end. */
  ghost predicate IsJournalJson(c: Codec) {
    && (forall r: Row :: c.loads(c.line(r.id, r.state)) == Some(Object(map[ITEM_ID := Str(r.id), STATE := Object(r.state)])))
    && (forall r: Row :: "{\"i" <= c.line(r.id, r.state))
    && (forall r: Row, i | 0 <= i < |c.line(r.id, r.state)| :: c.line(r.id, r.state)[i] >= ' ')
    && (forall r: Row :: !IsSpace(c.line(r.id, r.state)[|c.line(r.id, r.state)| - 1]))
    && (forall t | t != "" && t[0] == '{' && !IsSpace(t[|t| - 1]) && c.loads(t).Some? && c.loads(t).value.Object? :: Run(Start, t) == Done)
    && (forall s: string :: c.render(Str(s)) == s)
  }

  function Line(c: Codec, r: Row): string {
    c.line(r.id, r.state)
  }

  // --- the scan never recovers from a torn write ----------------------------------------------

  lemma {:induction false} RunAppend(s: Scan, a: string, b: string)
    ensures Run(s, a + b) == Run(Run(s, a), b)
    decreases |b|
  {
    if b == "" {
      assert a + b == a;
    } else {
      var n := |b| - 1;
      assert (a + b)[..|a + b| - 1] == a + b[..n];
      RunAppend(s, a, b[..n]);
    }
  }

  lemma {:induction false} NothingAfterTheEnd(s: Scan, text: string)
    requires s.Done? || s.Dead?
    ensures text != "" ==> Run(s, text) == Dead
  {
    if text != "" { NothingAfterTheEnd(s, text[..|text| - 1]); }
  }

  /** Inside an open bracket, an object scans as it does alone, one level deeper. */
  function Under(d: nat, s: Scan): Scan {
    match s
    case Start => Live(d, Open)
    case Live(e, mode) => Live(d + 1 + e, mode)
    case Done => Live(d, Open)
    case Dead => Dead
  }

  lemma {:induction false} RunUnder(d: nat, text: string)
    requires Run(Start, text) != Done && Run(Start, text) != Dead
    ensures Run(Live(d, Open), text) == Under(d, Run(Start, text))
  {
    if text != "" {
      var front := text[..|text| - 1];
      assert text == front + [text[|text| - 1]];
      RunUnder(d, front);
    }
  }

  lemma RowIsSolid(c: Codec, r: Row)
    requires IsJournalJson(c)
    ensures "{\"i" <= Line(c, r) && !IsSpace(Line(c, r)[|Line(c, r)| - 1]) && Line(c, r)[0] == '{' && !IsSpace('{')
    ensures c.loads(Line(c, r)) == Some(Object(map[ITEM_ID := Str(r.id), STATE := Object(r.state)]))
    ensures Run(Start, Line(c, r)) == Done
  {
    assert "{\"i" <= c.line(r.id, r.state);
  }

  /** The proper prefixes of a row are unfinished, and only the whole row is finished. */
  lemma PrefixOfRow(c: Codec, r: Row, n: nat)
    requires IsJournalJson(c) && n <= |Line(c, r)|
    ensures n == |Line(c, r)| <==> Run(Start, Line(c, r)[..n]) == Done
    ensures Run(Start, Line(c, r)[..n]) != Dead
  {
    var line := Line(c, r);
    RowIsSolid(c, r);
    assert line == line[..n] + line[n..];
    RunAppend(Start, line[..n], line[n..]);
    var s := Run(Start, line[..n]);
    if s.Done? || s.Dead? {
      NothingAfterTheEnd(s, line[n..]);
    }
    assert n == |line| ==> line[..n] == line;
  }

  /** No row, nor any start of one, finishes a text that something was torn off before it. */
  lemma GluedNeverFinishes(c: Codec, torn: string, r: Row, n: nat)
    requires IsJournalJson(c) && torn != "" && 0 < n <= |Line(c, r)|
    ensures Run(Start, torn + Line(c, r)[..n]) != Done
  {
    var q := Line(c, r)[..n];
    RunAppend(Start, torn, q);
    var s := Run(Start, torn);
    AfterFirst(torn);
    RowIsSolid(c, r);
    if s.Done? || s.Dead? {
      NothingAfterTheEnd(s, q);
    } else if s.mode.Open? {
      UnderABracket(c, s.depth, r, n);
    } else {
      BrokenByKey(s, q, Line(c, r));
    }
  }

  lemma UnderABracket(c: Codec, d: nat, r: Row, n: nat)
    requires IsJournalJson(c) && 0 < n <= |Line(c, r)|
    ensures Run(Live(d, Open), Line(c, r)[..n]) != Done
  {
    var line := Line(c, r);
    PrefixOfRow(c, r, n - 1);
    RowIsSolid(c, r);
    FrontAndLast(line, n);
    OneMoreUnder(d, line[..n - 1], line[n - 1]);
  }

  lemma FrontAndLast(line: string, n: nat)
    requires 0 < n <= |line|
    ensures line[..n] == line[..n - 1] + [line[n - 1]]
    ensures n == 1 <==> line[..n - 1] == ""
  {}

  lemma OneMoreUnder(d: nat, front: string, ch: char)
    requires Run(Start, front) != Done && Run(Start, front) != Dead && (front == "" ==> ch == '{')
    ensures Run(Live(d, Open), front + [ch]) != Done
  {
    assert (front + [ch])[..|front|] == front;
    RunUnder(d, front);
    if front != "" { AfterFirst(front); }
  }

  /** After its first character a text is past the start of the scan. */
  lemma {:induction false} AfterFirst(text: string)
    requires text != ""
    ensures Run(Start, text) != Start
  {
    if |text| > 1 { AfterFirst(text[..|text| - 1]); }
  }

  /** In or after a string, the brace, the quote and the key's first letter end the scan. */
  lemma BrokenByKey(s: Scan, q: string, line: string)
    requires s.Live? && !s.mode.Open? && "{\"i" <= line && q <= line && q != ""
    ensures Run(s, q) != Done
  {
    assert line[0] == '{' && line[1] == '\"' && line[2] == 'i';
    var one := q[..1];
    assert one[..0] == "" && one[0] == '{';
    assert Run(s, one) == Step(s, '{');
    if |q| >= 2 {
      var two := q[..2];
      assert two[..1] == one && two[1] == '\"';
      assert Run(s, two) == Step(Step(s, '{'), '\"');
      if |q| >= 3 {
        var three := q[..3];
        assert three[..2] == two && three[2] == 'i';
        assert Run(s, three) == Dead;
        assert q == three + q[3..];
        RunAppend(s, three, q[3..]);
        NothingAfterTheEnd(Dead, q[3..]);
      } else {
        assert q == two;
      }
    } else {
      assert q == one;
    }
  }
}
