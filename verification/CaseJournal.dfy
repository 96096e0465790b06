/** The append-only journal of completed cases, and what loading it yields after any tear. */
module CaseJournals {
  import opened Text
  import opened Contracts
  import opened Cases
  import opened JournalText

  // --- loading -------------------------------------------------------------------------------

  /** The row that one raw line of the file holds, if it is readable. */
  function RowsOf(c: Codec, raw: string): (rows: seq<Row>)
    ensures |rows| <= 1
  {
    var line := Strip(raw);
    if line == "" then [] else
    match c.loads(line)
    case Some(Object(f)) =>
      if ITEM_ID in f && STATE in f && f[STATE].Object? then [Row(c.render(f[ITEM_ID]), f[STATE].fields)] else []
    case _ => []
  }

  function FirstNewline(text: string): (n: nat)
    ensures n <= |text| && (n < |text| ==> text[n] == '\n') && forall i | 0 <= i < n :: text[i] != '\n'
  {
    if text == "" || text[0] == '\n' then 0 else 1 + FirstNewline(text[1..])
  }

  ghost predicate HasNoNewline(text: string) {
    forall i | 0 <= i < |text| :: text[i] != '\n'
  }

  /** What follows the first line. */
  function AfterLine(text: string): (rest: string)
    ensures text != "" ==> |rest| < |text|
  {
    var n := FirstNewline(text);
    if n == |text| then "" else text[n + 1..]
  }

  /** The readable rows of the file, in order. */
  function LoadRows(c: Codec, text: string): seq<Row>
    decreases |text|
  {
    if text == "" then [] else RowsOf(c, text[..FirstNewline(text)]) + LoadRows(c, AfterLine(text))
  }

  /** The table a load builds: a later row replaces an earlier one. */
  function DoneOf(rows: seq<Row>): map<string, State> {
    if rows == [] then map[] else DoneOf(rows[..|rows| - 1])[rows[|rows| - 1].id := rows[|rows| - 1].state]
  }

  /** The table after one line: its row, if it has one, is stored under its id. */
  function AddRow(done: map<string, State>, row: seq<Row>): map<string, State> {
    if row == [] then done else done[row[0].id := row[0].state]
  }

  lemma DoneOneMore(before: map<string, State>, rows: seq<Row>, row: seq<Row>)
    requires |row| <= 1
    ensures before + DoneOf(rows + row) == AddRow(before + DoneOf(rows), row)
  {
    if row == [] {
      assert rows + row == rows;
    } else {
      assert (rows + row)[..|rows|] == rows;
    }
  }

  /** The loading loop: line by line, each readable row stored under its id. */
  method ReadLines(c: Codec, text: string, before: map<string, State>) returns (done: map<string, State>, loaded: nat)
    ensures loaded == |LoadRows(c, text)|
    ensures done == before + DoneOf(LoadRows(c, text))
  {
    ghost var rows: seq<Row> := [];
    var rest := text;
    done, loaded := before, 0;
    while rest != ""
      invariant LoadRows(c, text) == rows + LoadRows(c, rest)
      invariant done == before + DoneOf(rows) && loaded == |rows|
      decreases |rest|
    {
      var row := RowsOf(c, rest[..FirstNewline(rest)]);
      Associate(rows, row, LoadRows(c, AfterLine(rest)));
      DoneOneMore(before, rows, row);
      done, loaded, rows := AddRow(done, row), loaded + |row|, rows + row;
      rest := AfterLine(rest);
    }
    assert LoadRows(c, text) == rows;
  }

  class CaseJournal {
    const c: Codec
    var file: string
    var done: map<string, State>

    constructor (c: Codec, file: string)
      ensures this.c == c && this.file == file && done == map[]
    {
      this.c := c;
      this.file := file;
      done := map[];
    }

    method Load() returns (loaded: nat)
      modifies this`done
      ensures loaded == |LoadRows(c, file)|
      ensures done == old(done) + DoneOf(LoadRows(c, file))
    {
      done, loaded := ReadLines(c, file, done);
    }

    function Get(id: string): Option<State>
      reads this
    {
      if id in done then Some(done[id]) else None
    }

    /** Appends one completed case, trimmed, unless its id is known; false when the row breaks its
        contract, which raises before anything is written. */
    method Record(id: string, state: State) returns (ok: bool)
      modifies this
      ensures ok <==> id in old(done) || c.accepts(id, Trim(state))
      ensures if id in old(done) || !ok then file == old(file) && done == old(done)
              else file == old(file) + Line(c, Row(id, Trim(state))) + "\n" && done == old(done)[id := Trim(state)]
    {
      if id in done {
        return true;
      }
      var trimmed := Trim(state);
      if !c.accepts(id, trimmed) {
        return false;
      }
      file := file + c.line(id, trimmed) + "\n";
      done := done[id := trimmed];
      return true;
    }
  }

  // --- the tail of a file --------------------------------------------------------------------

  /** Where the last line of the first `n` characters starts. */
  function LineStart(text: string, n: nat): (m: nat)
    requires n <= |text|
    ensures m <= n && (m > 0 ==> text[m - 1] == '\n') && forall i | m <= i < n :: text[i] != '\n'
  {
    if n == 0 || text[n - 1] == '\n' then n else LineStart(text, n - 1)
  }

  /** The whole lines. */
  function Head(text: string): string {
    text[..LineStart(text, |text|)]
  }

  /** What follows the last newline. */
  function Tail(text: string): string {
    text[LineStart(text, |text|)..]
  }

  lemma LineStartIs(text: string, m: nat)
    requires m <= |text| && (m > 0 ==> text[m - 1] == '\n') && forall i | m <= i < |text| :: text[i] != '\n'
    ensures LineStart(text, |text|) == m
  {
    var k := LineStart(text, |text|);
    assert k > 0 ==> text[k - 1] == '\n';
  }

  lemma FirstNewlineIs(text: string, n: nat)
    requires n <= |text| && (n < |text| ==> text[n] == '\n') && HasNoNewline(text[..n])
    ensures FirstNewline(text) == n
  {
    assert forall i | 0 <= i < n :: text[i] == text[..n][i];
  }

  /** Whole lines load on their own. */
  lemma {:induction false} LoadConcat(c: Codec, a: string, b: string)
    requires a == "" || a[|a| - 1] == '\n'
    ensures LoadRows(c, a + b) == LoadRows(c, a) + LoadRows(c, b)
    decreases |a|
  {
    if a == "" {
      assert a + b == b && RowsOf(c, a) == [];
    } else {
      var n := FirstNewline(a);
      FirstNewlineIs(a + b, n);
      assert (a + b)[..n] == a[..n] && AfterLine(a + b) == AfterLine(a) + b;
      LoadConcat(c, AfterLine(a), b);
      Associate(RowsOf(c, a[..n]), LoadRows(c, AfterLine(a)), LoadRows(c, b));
    }
  }

  lemma LoadLastLine(c: Codec, t: string)
    requires HasNoNewline(t)
    ensures LoadRows(c, t) == RowsOf(c, t)
  {
    FirstNewlineIs(t, |t|);
    assert t[..|t|] == t;
    assert t == "" ==> RowsOf(c, t) == [];
  }

  lemma LoadByTail(c: Codec, text: string)
    ensures LoadRows(c, text) == LoadRows(c, Head(text)) + RowsOf(c, Tail(text))
  {
    assert text == Head(text) + Tail(text);
    LoadConcat(c, Head(text), Tail(text));
    LoadLastLine(c, Tail(text));
  }

  /** Appending without a newline only changes the last line. */
  lemma LoadWithin(c: Codec, text: string, q: string)
    requires HasNoNewline(q)
    ensures Tail(text + q) == Tail(text) + q
    ensures LoadRows(c, text + q) == LoadRows(c, Head(text)) + RowsOf(c, Tail(text) + q)
  {
    var n := LineStart(text, |text|);
    assert forall i | |text| <= i < |text + q| :: (text + q)[i] == q[i - |text|];
    assert forall i | n <= i < |text| :: (text + q)[i] == text[i];
    LineStartIs(text + q, n);
    assert (text + q)[n..] == text[n..] + q;
    assert (text + q)[..n] == text[..n];
    LoadByTail(c, text + q);
  }

  /** Ending the last line changes no row. */
  lemma TailEnded(text: string)
    ensures Tail(text + "\n") == ""
  {
    LineStartIs(text + "\n", |text| + 1);
  }

  lemma HeadAndTail(text: string)
    ensures text == Head(text) + Tail(text) && HasNoNewline(Tail(text))
    ensures Head(text) == "" || Head(text)[|Head(text)| - 1] == '\n'
  {}

  lemma LoadEnded(c: Codec, text: string)
    ensures LoadRows(c, text + "\n") == LoadRows(c, text)
  {
    HeadAndTail(text);
    hide *;
    var (h, t) := (Head(text), Tail(text));
    EndAssociates(h, t, text);
    LoadConcat(c, h, t + "\n");
    LoadOneLine(c, t);
    LoadByTail(c, text);
  }

  lemma EndAssociates(h: string, t: string, text: string)
    requires text == h + t
    ensures text + "\n" == h + (t + "\n")
  {}

  lemma LoadOneLine(c: Codec, t: string)
    requires HasNoNewline(t)
    ensures LoadRows(c, t + "\n") == RowsOf(c, t)
  {
    FirstNewlineIs(t + "\n", |t|);
    assert (t + "\n")[..|t|] == t && AfterLine(t + "\n") == "";
  }

  // --- the journal invariant -----------------------------------------------------------------

  ghost predicate DistinctIds(rows: seq<Row>) {
    forall i, j | 0 <= i < j < |rows| :: rows[i].id != rows[j].id
  }

  /** What can be said of any start of a journal whose writers recorded `history`: its last line is
      finished only if it is a recorded row, and the rows it loads were recorded, one per id. */
  ghost predicate PrefixOk(c: Codec, text: string, history: set<Row>) {
    PartsOk(c, Tail(text), LoadRows(c, text), history)
  }

  ghost predicate PartsOk(c: Codec, tail: string, rows: seq<Row>, history: set<Row>) {
    && (tail != "" ==> tail[0] == '{')
    && (Run(Start, tail) == Done ==> exists r :: r in history && tail == Line(c, r))
    && (forall i | 0 <= i < |rows| :: rows[i] in history)
    && DistinctIds(rows)
  }

  ghost predicate JournalOk(c: Codec, text: string, history: set<Row>) {
    forall n | 0 <= n <= |text| :: PrefixOk(c, text[..n], history)
  }

  lemma EmptyJournalOk(c: Codec)
    ensures JournalOk(c, "", {})
  {
    assert RowsOf(c, "") == [];
  }

  /** A journal torn at any character is a journal of the same history. */
  lemma TruncationKeeps(c: Codec, text: string, history: set<Row>, n: nat)
    requires JournalOk(c, text, history) && n <= |text|
    ensures JournalOk(c, text[..n], history)
  {
    forall m | 0 <= m <= n ensures PrefixOk(c, text[..n][..m], history) {
      assert text[..n][..m] == text[..m];
    }
  }

  /** A text that starts with a brace loses only its end to stripping. */
  lemma StripIsPrefix(t: string)
    requires t != "" && t[0] == '{'
    ensures Strip(t) <= t && Strip(t) != "" && Strip(t)[0] == '{' && !IsSpace(Strip(t)[|Strip(t)| - 1])
  {
    assert !IsSpace(t[0]) && TrimLeft(t) == t;
  }

  lemma WholeRowReads(c: Codec, r: Row)
    requires IsJournalJson(c)
    ensures RowsOf(c, Line(c, r)) == [r]
  {
    RowIsSolid(c, r);
    StripKeepsSolid(Line(c, r));
    assert ITEM_ID != STATE by { assert ITEM_ID[0] != STATE[0]; }
    assert c.render(Str(r.id)) == r.id;
  }

  lemma ReadableIsFinished(c: Codec, raw: string)
    requires IsJournalJson(c) && raw != "" && raw[0] == '{' && RowsOf(c, raw) != []
    ensures Run(Start, Strip(raw)) == Done
  {
    StripIsPrefix(raw);
  }

  /** What the last line reads as while a row is being appended to it: the row, if it is whole and
      the line was empty before; nothing otherwise. */
  lemma ReadWhileAppending(c: Codec, t: string, r: Row, n: nat)
    requires IsJournalJson(c) && 0 < n <= |Line(c, r)| && (t != "" ==> t[0] == '{')
    ensures RowsOf(c, t + Line(c, r)[..n]) == if t == "" && n == |Line(c, r)| then [r] else []
  {
    if t == "" && n == |Line(c, r)| {
      WholeSlice(Line(c, r));
      EmptyFirst(Line(c, r));
      WholeRowReads(c, r);
    } else if RowsOf(c, t + Line(c, r)[..n]) != [] {
      ReadableMeansWhole(c, t, r, n);
    }
  }

  lemma EmptyFirst(s: string)
    ensures "" + s == s
  {}

  lemma ReadableMeansWhole(c: Codec, t: string, r: Row, n: nat)
    requires IsJournalJson(c) && 0 < n <= |Line(c, r)| && (t != "" ==> t[0] == '{')
    requires RowsOf(c, t + Line(c, r)[..n]) != []
    ensures t == "" && n == |Line(c, r)|
  {
    var s := t + Line(c, r)[..n];
    RowIsSolid(c, r);
    AppendedBrace(t, Line(c, r), n);
    ReadableIsFinished(c, s);
    StripIsPrefix(s);
    StripKeepsUpTo(s, |t|);
    FinishedStart(c, t, r, n, Strip(s));
  }

  lemma FinishedStart(c: Codec, t: string, r: Row, n: nat, start: string)
    requires IsJournalJson(c) && 0 < n <= |Line(c, r)|
    requires start <= t + Line(c, r)[..n] && |start| > |t| && Run(Start, start) == Done
    ensures t == "" && n == |Line(c, r)|
  {
    hide *;
    StartOfAppend(t, Line(c, r), n, start);
    FinishedOnlyWhole(c, t, r, |start| - |t|);
  }

  lemma AppendedBrace(t: string, line: string, n: nat)
    requires 0 < n <= |line| && line[0] == '{' && (t != "" ==> t[0] == '{')
    ensures var s := t + line[..n]; |s| > |t| && s[0] == '{' && s[|t|] == '{'
  {}

  lemma StartOfAppend(t: string, line: string, n: nat, start: string)
    requires n <= |line| && start <= t + line[..n] && |start| > |t|
    ensures |start| - |t| <= n && start == t + line[..|start| - |t|]
  {}

  /** Stripping cannot reach back past a solid character. */
  lemma StripKeepsUpTo(s: string, i: nat)
    requires i < |s| && s[0] == '{' && s[i] == '{'
    ensures |Strip(s)| > i
  {
    assert !IsSpace('{') && TrimLeft(s) == s;
  }

  lemma FinishedOnlyWhole(c: Codec, t: string, r: Row, n: nat)
    requires IsJournalJson(c) && 0 < n <= |Line(c, r)|
    ensures Run(Start, t + Line(c, r)[..n]) == Done ==> t == "" && n == |Line(c, r)|
  {
    if t != "" {
      GluedNeverFinishes(c, t, r, n);
    } else {
      assert t + Line(c, r)[..n] == Line(c, r)[..n];
      PrefixOfRow(c, r, n);
    }
  }

  lemma RowHasNoNewline(c: Codec, r: Row, n: nat)
    requires IsJournalJson(c) && n <= |Line(c, r)|
    ensures HasNoNewline(Line(c, r)[..n])
  {
    assert forall i | 0 <= i < |c.line(r.id, r.state)| :: c.line(r.id, r.state)[i] >= ' ';
  }

  /** The rows of a journal while a row is being appended. */
  lemma LoadWhileAppending(c: Codec, text: string, r: Row, n: nat)
    requires IsJournalJson(c) && 0 < n <= |Line(c, r)| && (Tail(text) != "" ==> Tail(text)[0] == '{')
    ensures var t := text + Line(c, r)[..n];
            && Tail(t) == Tail(text) + Line(c, r)[..n]
            && LoadRows(c, t) == LoadRows(c, Head(text)) + if Tail(text) == "" && n == |Line(c, r)| then [r] else []
  {
    RowHasNoNewline(c, r, n);
    LoadWithin(c, text, Line(c, r)[..n]);
    ReadWhileAppending(c, Tail(text), r, n);
  }

  /** The whole lines load a start of what the file loads, and all of it once the last has ended. */
  lemma HeadLoads(c: Codec, text: string)
    ensures LoadRows(c, Head(text)) <= LoadRows(c, text)
    ensures Tail(text) == "" ==> LoadRows(c, Head(text)) == LoadRows(c, text)
  {
    LoadByTail(c, text);
    assert RowsOf(c, "") == [];
  }

  lemma PartsAppend(c: Codec, tail: string, before: seq<Row>, rows: seq<Row>, history: set<Row>, r: Row, n: nat)
    requires IsJournalJson(c) && PartsOk(c, tail, rows, history) && 0 < n <= |Line(c, r)|
    requires before <= rows && forall i | 0 <= i < |rows| :: rows[i].id != r.id
    ensures PartsOk(c, tail + Line(c, r)[..n], before + (if tail == "" && n == |Line(c, r)| then [r] else []), history + {r})
  {
    FinishedOnlyWhole(c, tail, r, n);
    RowIsSolid(c, r);
    var t := tail + Line(c, r)[..n];
    assert t[0] == '{';
    if Run(Start, t) == Done {
      assert t == Line(c, r);
    }
    RowsOneMore(before, rows, history, r);
  }

  lemma RowsOneMore(before: seq<Row>, rows: seq<Row>, history: set<Row>, r: Row)
    requires DistinctIds(rows) && before <= rows
    requires forall i | 0 <= i < |rows| :: rows[i] in history && rows[i].id != r.id
    ensures before + [] == before && DistinctIds(before) && DistinctIds(before + [r])
    ensures forall i | 0 <= i < |before| :: before[i] in history + {r}
    ensures forall i | 0 <= i < |before + [r]| :: (before + [r])[i] in history + {r}
  {
    assert forall i | 0 <= i < |before| :: before[i] == rows[i];
  }

  lemma PartialAppendOk(c: Codec, text: string, history: set<Row>, r: Row, n: nat)
    requires IsJournalJson(c) && PrefixOk(c, text, history) && 0 < n <= |Line(c, r)|
    requires forall i | 0 <= i < |LoadRows(c, text)| :: LoadRows(c, text)[i].id != r.id
    ensures PrefixOk(c, text + Line(c, r)[..n], history + {r})
  {
    HeadLoads(c, text);
    PartsAppend(c, Tail(text), LoadRows(c, Head(text)), LoadRows(c, text), history, r, n);
    LoadWhileAppending(c, text, r, n);
  }

  lemma EndedOk(c: Codec, text: string, history: set<Row>)
    requires PrefixOk(c, text, history)
    ensures PrefixOk(c, text + "\n", history)
  {
    LoadEnded(c, text);
    TailEnded(text);
    assert Run(Start, "") == Start;
  }

  lemma MoreHistory(c: Codec, text: string, history: set<Row>, r: Row)
    requires PrefixOk(c, text, history)
    ensures PrefixOk(c, text, history + {r})
  {}

  lemma AppendedPrefixOk(c: Codec, text: string, history: set<Row>, r: Row, after: string, n: nat)
    requires IsJournalJson(c) && JournalOk(c, text, history)
    requires forall i | 0 <= i < |LoadRows(c, text)| :: LoadRows(c, text)[i].id != r.id
    requires after == text + Line(c, r) + "\n" && |text| < n <= |after|
    ensures PrefixOk(c, after[..n], history + {r})
  {
    var line := Line(c, r);
    WholeSlice(text);
    assert PrefixOk(c, text[..|text|], history);
    if n <= |text| + |line| {
      SliceOfAppend(text, line, n);
      PartialAppendOk(c, text, history, r, n - |text|);
    } else {
      assert n == |after|;
      WholeSlice(after);
      WholeSlice(line);
      RowIsSolid(c, r);
      PartialAppendOk(c, text, history, r, |line|);
      EndedOk(c, text + line, history + {r});
    }
  }

  /** Appending a row under an id that does not load keeps the invariant, whatever was torn before. */
  lemma AppendKeeps(c: Codec, text: string, history: set<Row>, r: Row)
    requires IsJournalJson(c) && JournalOk(c, text, history)
    requires forall i | 0 <= i < |LoadRows(c, text)| :: LoadRows(c, text)[i].id != r.id
    ensures JournalOk(c, text + Line(c, r) + "\n", history + {r})
  {
    var after := text + Line(c, r) + "\n";
    forall n | 0 <= n <= |after| ensures PrefixOk(c, after[..n], history + {r}) {
      if n <= |text| {
        SliceBefore(text, Line(c, r), n);
        MoreHistory(c, text[..n], history, r);
      } else {
        AppendedPrefixOk(c, text, history, r, after, n);
      }
    }
  }

  /** Appending adds the row after an ended line; after a torn one it is lost with the torn line. */
  lemma LoadAfterAppend(c: Codec, text: string, r: Row)
    requires IsJournalJson(c) && (Tail(text) != "" ==> Tail(text)[0] == '{')
    ensures LoadRows(c, text + Line(c, r) + "\n") == if Tail(text) == "" then LoadRows(c, text) + [r] else LoadRows(c, Head(text))
    ensures LoadRows(c, Head(text)) <= LoadRows(c, text)
  {
    RowIsSolid(c, r);
    LoadWhileAppending(c, text, r, |Line(c, r)|);
    WholeSlice(Line(c, r));
    LoadEnded(c, text + Line(c, r));
    HeadLoads(c, text);
  }

  lemma SliceOfAppend(a: string, b: string, n: nat)
    requires |a| <= n <= |a| + |b|
    ensures (a + b + "\n")[..n] == a + b[..n - |a|]
  {}

  lemma SliceBefore(a: string, b: string, n: nat)
    requires n <= |a|
    ensures (a + b + "\n")[..n] == a[..n]
  {}

  lemma WholeSlice(s: string)
    ensures s[..|s|] == s
  {}

  // --- an untorn journal ---------------------------------------------------------------------

  function Written(c: Codec, rows: seq<Row>): string {
    if rows == [] then "" else Written(c, rows[..|rows| - 1]) + Line(c, rows[|rows| - 1]) + "\n"
  }

  lemma WrittenEnds(c: Codec, rows: seq<Row>)
    ensures Tail(Written(c, rows)) == "" && Head(Written(c, rows)) == Written(c, rows)
  {
    LineStartIs(Written(c, rows), |Written(c, rows)|);
  }

  /** Any start of a journal loads a start of the rows recorded in it; the whole loads them all. */
  lemma {:induction false} StartLoadsAStart(c: Codec, rows: seq<Row>, n: nat)
    requires IsJournalJson(c) && n <= |Written(c, rows)|
    ensures LoadRows(c, Written(c, rows)[..n]) <= rows
    ensures n == |Written(c, rows)| ==> LoadRows(c, Written(c, rows)[..n]) == rows
  {
    if rows == [] {
      assert n == 0 && Written(c, rows)[..n] == "";
    } else {
      var k := |rows| - 1;
      var text := Written(c, rows[..k]);
      StartLoadsAStart(c, rows[..k], if n <= |text| then n else |text|);
      WrittenEnds(c, rows[..k]);
      WholeSlice(text);
      OneMoreRow(c, rows[..k], rows[k], text, n);
      Unsnoc(rows);
    }
  }

  lemma Unsnoc(rows: seq<Row>)
    requires rows != []
    ensures rows[..|rows| - 1] + [rows[|rows| - 1]] == rows
  {}

  lemma OneMoreRow(c: Codec, front: seq<Row>, r: Row, text: string, n: nat)
    requires IsJournalJson(c) && Tail(text) == "" && n <= |text + Line(c, r) + "\n"|
    requires n <= |text| ==> LoadRows(c, text[..n]) <= front
    requires n > |text| ==> LoadRows(c, text) == front
    ensures var all := text + Line(c, r) + "\n";
            && LoadRows(c, all[..n]) <= front + [r]
            && (n == |all| ==> LoadRows(c, all[..n]) == front + [r])
  {
    var line := Line(c, r);
    var all := text + line + "\n";
    if n <= |text| {
      SliceBefore(text, line, n);
    } else if n <= |text| + |line| {
      SliceOfAppend(text, line, n);
      LoadWhileAppending(c, text, r, n - |text|);
      HeadLoads(c, text);
    } else {
      assert n == |all|;
      WholeSlice(all);
      LoadAfterAppend(c, text, r);
    }
  }
}
