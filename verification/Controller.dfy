/** The controller's replies, and the identity of a retrieved chunk. */
module Controller {
  import opened Text
  import opened Versioning

  datatype Decision = Stop | Continue(subquery: string)

  /** What `str.upper` makes of each character; it may be more than one character. */
  type Upper = char -> string

  function UpperText(up: Upper, s: string): string {
    if s == "" then "" else UpperText(up, s[..|s| - 1]) + up(s[|s| - 1])
  }

  function NextMarker(): string {
    "\U{0414}\U{0410}\U{041B}\U{0406}:"
  }

  /** `s.find(m)`: the least index at which `m` occurs in `s`, or -1. */
  function Find(s: string, m: string): (r: int)
    ensures -1 <= r <= |s|
    decreases |s|
  {
    if m <= s then 0
    else if s == "" then -1
    else
      var r := Find(s[1..], m);
      if r < 0 then -1 else r + 1
  }

  ghost predicate OccursFirst(s: string, m: string, at: nat) {
    at <= |s| && m <= s[at..] && forall i | 0 <= i < at :: !(m <= s[i..])
  }

  lemma {:induction false} FindIsFirst(s: string, m: string, at: nat)
    ensures Find(s, m) == at <==> OccursFirst(s, m, at)
    decreases |s|
  {
    assert s[0..] == s;
    if s != "" && !(m <= s) && at > 0 {
      FindIsFirst(s[1..], m, at - 1);
      assert forall i | 0 < i <= |s| :: s[i..] == s[1..][i - 1..];
    }
  }

  /** `s[n:]`, which is empty past the end. */
  function Skip(s: string, n: nat): string {
    if n <= |s| then s[n..] else ""
  }

  /** The decision on the text after the marker: its first line is the next sub-query. */
  function QueryOf(s: string): Decision {
    var remainder := SplitLines(Strip(s));
    var subquery := if remainder == [] then "" else Strip(remainder[0]);
    if subquery != "" then Continue(subquery) else Stop
  }

  /** The decision a reply states with marker `m`. */
  function ParseReply(up: Upper, m: string, text: string): Decision {
    var stripped := Strip(text);
    var idx := Find(UpperText(up, stripped), m);
    if stripped == "" || idx < 0 then Stop else QueryOf(Skip(stripped, idx + |m|))
  }

  function ParseController(up: Upper, text: string): Decision {
    ParseReply(up, NextMarker(), text)
  }

  /** What ends the loop, by the prompt; the code never looks for it. */
  function DoneMarker(): string {
    "\U{0413}\U{041E}\U{0422}\U{041E}\U{0412}\U{041E}"
  }

  /** A way to write the marker `m`: visible at both ends, and `m` in upper case. */
  ghost predicate Marks(up: Upper, m: string, mark: string) {
    m != "" && mark != "" && !IsSpace(mark[0]) && !IsSpace(mark[|mark| - 1]) && UpperText(up, mark) == m
  }

  // --- what a sub-query looks like -----------------------------------------------------------

  lemma {:induction false} TrimLeftKeepsLine(s: string)
    requires IsOneLine(s)
    ensures IsOneLine(TrimLeft(s))
  {
    if s != "" && IsSpace(s[0]) { TrimLeftKeepsLine(s[1..]); }
  }

  lemma FirstLineIsOne(s: string)
    requires s != ""
    ensures SplitLines(s) != [] && SplitLines(s)[0] == s[..FirstBreak(s)] && IsOneLine(s[..FirstBreak(s)])
  {
    assert FirstBreak(s) == |s| ==> s[..FirstBreak(s)] == s;
  }

  /** A sub-query is one line, not empty, with no surrounding whitespace. */
  predicate IsQuery(q: string) {
    q != "" && IsOneLine(q) && !IsSpace(q[0]) && !IsSpace(q[|q| - 1])
  }

  lemma SubqueryIsClean(s: string)
    requires QueryOf(s).Continue?
    ensures IsQuery(QueryOf(s).subquery)
  {
    var line := SplitLines(Strip(s))[0];
    FirstLineIsOne(Strip(s));
    TrimLeftKeepsLine(line);
    StripIsSolid(line);
  }

  /** A controller that continues always names a usable next query. */
  lemma ContinueNamesAQuery(up: Upper, m: string, text: string)
    requires ParseReply(up, m, text).Continue?
    ensures IsQuery(ParseReply(up, m, text).subquery)
  {
    hide QueryOf, Strip;
    var stripped := Strip(text);
    SubqueryIsClean(Skip(stripped, Find(UpperText(up, stripped), m) + |m|));
  }

  // --- when a reply stops --------------------------------------------------------------------

  /** What follows the marker names no query only if it is blank. */
  lemma BlankStops(s: string)
    ensures QueryOf(s) == Stop <==> IsBlank(s)
  {
    var t := Strip(s);
    StripIsSolid(s);
    if t != "" {
      FirstLineIsOne(t);
      var line := t[..FirstBreak(t)];
      assert line != "" && line[0] == t[0];
      StripIsSolid(line);
    }
  }

  /** A reply stops exactly when its upper case holds no continue marker, or nothing visible is left
      of it behind the place of the first one. Whether it holds the stop marker decides nothing. */
  lemma ReplyStopsIff(up: Upper, m: string, text: string)
    ensures ParseReply(up, m, text) == Stop <==>
            forall at: nat | OccursFirst(UpperText(up, Strip(text)), m, at) :: IsBlank(Skip(Strip(text), at + |m|))
  {
    hide *;
    var stripped := Strip(text);
    var idx := Find(UpperText(up, stripped), m);
    forall at: nat ensures OccursFirst(UpperText(up, stripped), m, at) <==> idx == at {
      FindIsFirst(UpperText(up, stripped), m, at);
    }
    StopsAt(up, m, text, stripped, idx);
    if idx >= 0 {
      var at: nat := idx;
      assert OccursFirst(UpperText(up, stripped), m, at);
      BlankStops(Skip(stripped, at + |m|));
    }
  }

  lemma StopsAt(up: Upper, m: string, text: string, stripped: string, idx: int)
    requires stripped == Strip(text) && idx == Find(UpperText(up, stripped), m)
    ensures ParseReply(up, m, text) == Stop <==> idx < 0 || QueryOf(Skip(stripped, idx + |m|)) == Stop
  {
    hide Find, UpperText, Strip, QueryOf;
    if stripped == "" && idx >= 0 { NothingStops(idx + |m|); }
  }

  lemma NothingStops(n: nat)
    ensures QueryOf(Skip("", n)) == Stop
  {
    BlankStops(Skip("", n));
  }

  // --- reading the query back ----------------------------------------------------------------

  lemma {:induction false} TrimRightDropsTail(s: string, n: nat)
    requires n <= |s| && forall i | n <= i < |s| :: IsSpace(s[i])
    ensures TrimRight(s) == TrimRight(s[..n])
    decreases |s|
  {
    if n < |s| {
      TrimRightDropsTail(s[..|s| - 1], n);
      assert s[..|s| - 1][..n] == s[..n];
    } else {
      assert s[..n] == s;
    }
  }

  lemma {:induction false} TrimLeftOfCut(s: string, n: nat)
    requires n <= |s| && forall i | n <= i < |s| :: IsSpace(s[i])
    ensures TrimRight(TrimLeft(s)) == TrimRight(TrimLeft(s[..n]))
    decreases |s|
  {
    if n > 0 && IsSpace(s[0]) {
      assert s[..n][1..] == s[1..][..n - 1];
      TrimLeftOfCut(s[1..], n - 1);
    } else if n > 0 {
      TrimRightDropsTail(s, n);
    } else {
      TrimLeftBlank(s);
    }
  }

  lemma {:induction false} UpperOfConcat(up: Upper, a: string, b: string)
    ensures UpperText(up, a + b) == UpperText(up, a) + UpperText(up, b)
  {
    if b == "" {
      assert a + b == a;
    } else {
      UpperOfConcat(up, a, b[..|b| - 1]);
      assert (a + b)[..|a + b| - 1] == a + b[..|b| - 1];
      Associate(UpperText(up, a), UpperText(up, b[..|b| - 1]), up(b[|b| - 1]));
    }
  }

  lemma {:induction false} UpperIsNoShorter(up: Upper, s: string)
    requires forall c :: up(c) != ""
    ensures |UpperText(up, s)| >= |s|
  {
    if s != "" { UpperIsNoShorter(up, s[..|s| - 1]); }
  }

  /** The reply before the marker starts with a visible character, if there is any. */
  predicate StartsSolid(s: string) {
    s == "" || !IsSpace(s[0])
  }

  /** `before + mark + rest`, where `mark` writes the marker and no marker occurs earlier in upper
      case. */
  ghost predicate IsMarkedReply(up: Upper, m: string, before: string, mark: string, rest: string) {
    && Marks(up, m, mark)
    && StartsSolid(before)
    && Find(UpperText(up, before) + m + UpperText(up, rest), m) == |UpperText(up, before)|
  }

  /** The visible part of a reply. */
  function Marked(before: string, mark: string, rest: string): string {
    before + mark + rest
  }

  /** How many characters upper-casing adds to `s`. */
  function Growth(up: Upper, s: string): int {
    |UpperText(up, s)| - |s|
  }

  lemma GrowthIsNotNegative(up: Upper, s: string)
    requires forall c :: up(c) != ""
    ensures Growth(up, s) >= 0
  {
    UpperIsNoShorter(up, s);
  }

  lemma {:induction false} TrimRightKeepsHead(head: string, rest: string)
    requires head != "" && !IsSpace(head[|head| - 1])
    ensures TrimRight(head + rest) == head + TrimRight(rest)
  {
    if rest == "" {
      assert head + rest == head;
    } else {
      assert (head + rest)[..|head + rest| - 1] == head + rest[..|rest| - 1];
      TrimRightKeepsHead(head, rest[..|rest| - 1]);
    }
  }

  lemma StripOfMarked(lead: string, before: string, m: string, rest: string)
    requires IsBlank(lead) && StartsSolid(before) && m != "" && !IsSpace(m[0]) && !IsSpace(m[|m| - 1])
    ensures Strip(lead + Marked(before, m, rest)) == Marked(before, m, TrimRight(rest))
  {
    hide IsSpace;
    var s := before + m + rest;
    assert s[0] == if before == "" then m[0] else before[0];
    TrimLeftOfPad(lead, s);
    assert (before + m)[|before + m| - 1] == m[|m| - 1];
    TrimRightKeepsHead(before + m, rest);
  }

  lemma FindInCut(s: string, m: string, n: nat, at: nat)
    requires at + |m| <= n <= |s| && Find(s, m) == at
    ensures Find(s[..n], m) == at
  {
    FindIsFirst(s, m, at);
    FindIsFirst(s[..n], m, at);
    assert s[..n][at..][..|m|] == s[at..][..|m|];
    forall i | 0 <= i < at ensures !(m <= s[..n][i..]) {
      CutIsPrefix(s, n, i);
    }
  }

  lemma CutIsPrefix(s: string, n: nat, i: nat)
    requires i <= n <= |s|
    ensures s[..n][i..] <= s[i..]
  {
    assert s[i..][..n - i] == s[..n][i..];
  }

  /** A marked reply's query is what follows the marker, less one character for each character
      that upper-casing adds up to there. */
  lemma MarkedReplyIsRead(up: Upper, m: string, lead: string, before: string, mark: string, rest: string)
    requires (forall c :: up(c) != "") && IsBlank(lead) && IsMarkedReply(up, m, before, mark, rest)
    ensures Growth(up, before + mark) >= 0
    ensures ParseReply(up, m, lead + Marked(before, mark, rest)) == QueryOf(Skip(rest, Growth(up, before + mark)))
  {
    hide *;
    GrowthIsNotNegative(up, before + mark);
    MarkedLength(up, m, before, mark, rest);
    var (k, cut) := (Growth(up, before + mark), TrimRight(rest));
    StripOfMarked(lead, before, mark, rest);
    FoundInStripped(up, m, before, mark, rest);
    SkipPastMarker(before, mark, cut, k);
    ParsedAt(up, m, lead + Marked(before, mark, rest), Marked(before, mark, cut), |UpperText(up, before)|);
    QueryOfSkippedCut(rest, k);
  }

  lemma MarkedLength(up: Upper, m: string, before: string, mark: string, rest: string)
    requires IsMarkedReply(up, m, before, mark, rest)
    ensures Marked(before, mark, TrimRight(rest)) != ""
    ensures |UpperText(up, before)| + |m| == |before| + Growth(up, before + mark) + |mark|
    ensures StartsSolid(before) && mark != "" && !IsSpace(mark[0]) && !IsSpace(mark[|mark| - 1])
  {
    hide Find, IsSpace;
    UpperOfConcat(up, before, mark);
  }

  lemma ParsedAt(up: Upper, m: string, text: string, stripped: string, at: nat)
    requires Strip(text) == stripped && stripped != "" && Find(UpperText(up, stripped), m) == at
    ensures ParseReply(up, m, text) == QueryOf(Skip(stripped, at + |m|))
  {
    hide Strip, Find, UpperText, QueryOf, Skip;
  }

  lemma SkipPastMarker(before: string, m: string, cut: string, k: nat)
    ensures Skip(Marked(before, m, cut), |before| + k + |m|) == Skip(cut, k)
  {
    var s := before + m + cut;
    if k <= |cut| {
      assert s[|before| + k + |m|..] == cut[k..];
    }
  }

  lemma FoundInStripped(up: Upper, m: string, before: string, mark: string, rest: string)
    requires IsMarkedReply(up, m, before, mark, rest)
    ensures Find(UpperText(up, Marked(before, mark, TrimRight(rest))), m) == |UpperText(up, before)|
  {
    var (cut, front) := (TrimRight(rest), UpperText(up, before));
    UpperOfMarked(up, before, mark, cut);
    UpperOfConcat(up, cut, rest[|cut|..]);
    assert rest == cut + rest[|cut|..];
    var all := front + m + UpperText(up, rest);
    var n := |front + m + UpperText(up, cut)|;
    assert all[..n] == front + m + UpperText(up, cut);
    FindInCut(all, m, n, |front|);
  }

  lemma UpperOfMarked(up: Upper, before: string, mark: string, rest: string)
    ensures UpperText(up, Marked(before, mark, rest)) == UpperText(up, before) + UpperText(up, mark) + UpperText(up, rest)
  {
    UpperOfConcat(up, before + mark, rest);
    UpperOfConcat(up, before, mark);
  }

  lemma QueryOfSkippedCut(rest: string, k: nat)
    ensures QueryOf(Skip(TrimRight(rest), k)) == QueryOf(Skip(rest, k))
  {
    StripOfSkippedPrefix(rest, |TrimRight(rest)|, k);
    assert rest[..|TrimRight(rest)|] == TrimRight(rest);
  }

  /** Cutting trailing whitespace first changes nothing about the stripped remainder. */
  lemma StripOfSkippedPrefix(s: string, n: nat, k: nat)
    requires n <= |s| && forall i | n <= i < |s| :: IsSpace(s[i])
    ensures Strip(Skip(s[..n], k)) == Strip(Skip(s, k))
  {
    if k <= n {
      SuffixIsBlank(s, n, k);
      TrimLeftOfCut(s[k..], n - k);
      assert s[k..][..n - k] == s[..n][k..];
    } else if k <= |s| {
      SuffixIsBlank(s, k, k);
      TrimLeftBlank(s[k..]);
    }
  }

  lemma SuffixIsBlank(s: string, n: nat, k: nat)
    requires k <= n <= |s| && forall i | n <= i < |s| :: IsSpace(s[i])
    ensures forall i | n - k <= i < |s[k..]| :: IsSpace(s[k..][i])
  {
    forall i | n - k <= i < |s[k..]| ensures IsSpace(s[k..][i]) {
      assert s[k..][i] == s[i + k];
    }
  }

  /** The line that `tail` goes on with is blank. */
  predicate EndsLine(tail: string) {
    IsBlank(tail[..FirstBreak(tail)])
  }

  /** A query written after the marker is read back, whatever comes before and whatever lines come
      after, as long as the padding makes up for the characters that upper-casing adds. */
  lemma QueryRoundTrips(up: Upper, m: string, lead: string, before: string, mark: string, pad: string, q: string, tail: string)
    requires (forall c :: up(c) != "") && IsBlank(lead) && IsMarkedReply(up, m, before, mark, pad + q + tail)
    requires IsBlank(pad) && IsQuery(q) && EndsLine(tail)
    requires Growth(up, before + mark) <= |pad|
    ensures ParseReply(up, m, lead + Marked(before, mark, pad + q + tail)) == Continue(q)
  {
    hide *;
    QueryIsReadIff(up, m, lead, before, mark, pad, q, tail);
  }

  /** And exactly then, unless a later line repeats it: a query is read back if and only if
      upper-casing adds no more characters than there is padding after the marker, or else so many
      that the cut falls behind the query and what is left of the later lines names it again. */
  lemma QueryIsReadIff(up: Upper, m: string, lead: string, before: string, mark: string, pad: string, q: string, tail: string)
    requires (forall c :: up(c) != "") && IsBlank(lead) && IsMarkedReply(up, m, before, mark, pad + q + tail)
    requires IsBlank(pad) && IsQuery(q) && EndsLine(tail)
    ensures var (k, isRead) := (Growth(up, before + mark), ParseReply(up, m, lead + Marked(before, mark, pad + q + tail)) == Continue(q));
            && (isRead <==> k <= |pad| || (k >= |pad| + |q| && QueryOf(Skip(tail, k - |pad| - |q|)) == Continue(q)))
            && (IsBlank(tail) ==> (isRead <==> k <= |pad|))
  {
    MarkedReplyIsRead(up, m, lead, before, mark, pad + q + tail);
    hide *;
    var k := Growth(up, before + mark);
    if k <= |pad| {
      PaddingIsSkipped(pad, q, tail, k);
      FirstLineRead(pad[k..], q, tail);
    } else if k < |pad| + |q| {
      CutQueryIsLost(pad, q, tail, k);
    } else {
      QueryIsSkipped(pad, q, tail, k);
    }
  }

  lemma PaddingIsSkipped(pad: string, q: string, tail: string, k: nat)
    requires k <= |pad| && IsBlank(pad)
    ensures Skip(pad + q + tail, k) == pad[k..] + q + tail && IsBlank(pad[k..])
  {
    assert (pad + q + tail)[k..] == pad[k..] + q + tail;
  }

  lemma QueryIsSkipped(pad: string, q: string, tail: string, k: nat)
    requires k >= |pad| + |q|
    ensures var n := k - |pad| - |q|;
            Skip(pad + q + tail, k) == Skip(tail, n) && (IsBlank(tail) ==> QueryOf(Skip(tail, n)) == Stop)
  {
    var n := k - |pad| - |q|;
    if n <= |tail| { assert (pad + q + tail)[k..] == tail[n..]; }
    BlankStops(Skip(tail, n));
  }

  /** A cut inside the query leaves a shorter one. */
  lemma CutQueryIsLost(pad: string, q: string, tail: string, k: nat)
    requires IsQuery(q) && EndsLine(tail) && |pad| < k < |pad| + |q|
    ensures QueryOf(Skip(pad + q + tail, k)) != Continue(q)
  {
    hide QueryOf, EndsLine, IsSpace, IsLineBreak;
    var rest := q[k - |pad|..];
    assert Skip(pad + q + tail, k) == rest + tail;
    var blank := TrimLeftSplits(rest);
    var r := TrimLeft(rest);
    assert rest[|rest| - 1] == q[|q| - 1];
    TrimLeftKeepsLine(rest);
    TrimLeftBlank(rest);
    assert r != "" by { assert !IsSpace(rest[|rest| - 1]); }
    assert r[|r| - 1] == rest[|rest| - 1];
    FirstLineRead(blank, r, tail);
    assert blank + r + tail == rest + tail;
  }

  lemma {:induction false} TrimLeftSplits(s: string) returns (blank: string)
    ensures IsBlank(blank) && s == blank + TrimLeft(s)
  {
    blank := "";
    if s != "" && IsSpace(s[0]) {
      var rest := TrimLeftSplits(s[1..]);
      blank := [s[0]] + rest;
    }
  }

  lemma FirstLineRead(pad: string, q: string, tail: string)
    requires IsBlank(pad) && IsQuery(q) && EndsLine(tail)
    ensures QueryOf(pad + q + tail) == Continue(q)
  {
    hide IsSpace, IsLineBreak, IsOneLine, SplitLines, TrimLeft, TrimRight, FirstBreak;
    var s := StripOfLine(pad, q, tail);
    FirstLineIsOne(s);
    var gap := FirstLineOf(s, q, tail);
    StripOfPadded("", q, gap);
    assert "" + q + gap == q + gap;
  }

  lemma StripOfLine(pad: string, q: string, tail: string) returns (s: string)
    requires IsBlank(pad) && IsQuery(q)
    ensures s == Strip(pad + q + tail) && q <= s <= q + tail
  {
    TrimLeftOfPad(pad, q + tail);
    assert pad + q + tail == pad + (q + tail);
    assert (q + tail)[0] == q[0];
    s := TrimRight(q + tail);
    assert |s| >= |q| by {
      assert (q + tail)[|q| - 1] == q[|q| - 1];
    }
    assert s[..|q|] == q;
  }

  /** The first line of `s` is `q` and whitespace. */
  lemma FirstLineOf(s: string, q: string, tail: string) returns (gap: string)
    requires q <= s <= q + tail && IsOneLine(q) && EndsLine(tail)
    ensures IsBlank(gap) && s[..FirstBreak(s)] == q + gap
  {
    hide IsSpace, IsLineBreak;
    var n := FirstBreak(s);
    assert forall i | 0 <= i < |q| :: s[i] == q[i];
    BreakIsLater(s, |q|);
    gap := tail[..n - |q|];
    assert forall i | 0 <= i < n - |q| :: tail[i] == s[i + |q|];
    BreakIsLater(tail, n - |q|);
    assert s[..n] == q + gap;
    var line := tail[..FirstBreak(tail)];
    assert forall i | 0 <= i < |gap| :: gap[i] == line[i];
  }

  lemma BreakIsLater(s: string, n: nat)
    requires n <= |s| && forall i | 0 <= i < n :: !IsLineBreak(s[i])
    ensures FirstBreak(s) >= n
  {}

  lemma StripOfPadded(pad: string, q: string, tail: string)
    requires IsBlank(pad) && q != "" && !IsSpace(q[0]) && !IsSpace(q[|q| - 1]) && IsBlank(tail)
    ensures Strip(pad + q + tail) == q
  {
    assert pad + q + tail == pad + (q + tail) && (q + tail)[0] == q[0];
    TrimLeftOfPad(pad, q + tail);
    TrimRightDropsTail(q + tail, |q|);
    assert (q + tail)[..|q|] == q;
  }

  lemma {:induction false} TrimLeftOfPad(pad: string, s: string)
    requires IsBlank(pad) && s != "" && !IsSpace(s[0])
    ensures TrimLeft(pad + s) == s
  {
    if pad == "" {
      assert pad + s == s;
    } else {
      assert (pad + s)[1..] == pad[1..] + s;
      TrimLeftOfPad(pad[1..], s);
    }
  }

  /** A character that upper-cases to two before the marker makes a good query unread. */
  lemma ExpandingPrefixLosesTheQuery(up: Upper, m: string)
    requires (forall c :: up(c) != "") && up('\U{DF}') == "SS" && up('q') == "Q"
    requires Marks(up, m, m) && m[0] != 'S'
    ensures ParseReply(up, m, "\U{DF}" + m + "q") == Stop
    ensures QueryOf("q") == Continue("q")
  {
    FirstLineRead("", "q", "");
    assert "" + "q" + "" == "q";
    OneCharacter(up, '\U{DF}');
    OneCharacter(up, 'q');
    FoundAfter("SS", m, "Q");
    MarkedReplyIsRead(up, m, "", "\U{DF}", m, "q");
    UpperOfConcat(up, "\U{DF}", m);
    assert "" + Marked("\U{DF}", m, "q") == "\U{DF}" + m + "q";
    assert Skip("q", 1) == "";
  }

  /** The stop marker before the continue marker changes nothing: the reply goes on. */
  lemma BothMarkersContinue(up: Upper, q: string)
    requires (forall c :: up(c) != "") && Marks(up, NextMarker(), NextMarker()) && UpperText(up, DoneMarker() + "\n") == DoneMarker() + "\n"
    requires IsQuery(q)
    ensures ParseController(up, DoneMarker() + "\n" + NextMarker() + " " + q) == Continue(q)
  {
    var (done, m) := (DoneMarker() + "\n", NextMarker());
    DoneHoldsNoMarker();
    BothMarkers(up, m, done, q);
  }

  /** The stop marker after the continue marker is a query: it turns a stop into one more hop. */
  lemma StopMarkerIsAsked(up: Upper)
    requires (forall c :: up(c) != "") && Marks(up, NextMarker(), NextMarker())
    ensures ParseController(up, NextMarker() + " " + DoneMarker()) == Continue(DoneMarker())
    ensures ParseController(up, NextMarker() + " ") == Stop
  {
    AloneAfterMarker(up, NextMarker(), DoneMarker());
    NothingAfterMarker(up, NextMarker());
    assert IsQuery(DoneMarker());
  }

  lemma AloneAfterMarker(up: Upper, m: string, q: string)
    requires (forall c :: up(c) != "") && Marks(up, m, m) && IsQuery(q)
    ensures ParseReply(up, m, m + " " + q) == Continue(q)
  {
    hide ParseReply, QueryOf, IsQuery, IsSpace, Marked, IsMarkedReply;
    assert "" + m == m;
    MarkedFromStart(up, m, " " + q + "");
    BlankPads();
    QueryRoundTrips(up, m, "", "", m, " ", q, "");
    Regroup("", m, q);
    assert "" + m + " " + q == m + " " + q;
  }

  lemma NothingAfterMarker(up: Upper, m: string)
    requires (forall c :: up(c) != "") && Marks(up, m, m)
    ensures ParseReply(up, m, m + " ") == Stop
  {
    hide ParseReply, QueryOf, IsSpace, Marked, IsMarkedReply;
    MarkedFromStart(up, m, " ");
    BlankPads();
    MarkedReplyIsRead(up, m, "", "", m, " ");
    assert "" + Marked("", m, " ") == m + " " by { MarkedAtStart(m, " "); }
    var k := Growth(up, "" + m);
    assert IsBlank(Skip(" ", k));
    BlankStops(Skip(" ", k));
  }

  lemma MarkedAtStart(m: string, rest: string)
    ensures "" + Marked("", m, rest) == m + rest
  {}

  /** A reply that starts with the marker is marked there. */
  lemma MarkedFromStart(up: Upper, m: string, rest: string)
    requires Marks(up, m, m)
    ensures IsMarkedReply(up, m, "", m, rest)
  {
    FoundAfter("", m, UpperText(up, rest));
    assert UpperText(up, "") == "";
  }

  lemma DoneHoldsNoMarker()
    ensures var done := DoneMarker() + "\n"; !IsSpace(done[0]) && forall i | 0 <= i < |done| :: done[i] != NextMarker()[0]
  {}

  lemma BothMarkers(up: Upper, m: string, done: string, q: string)
    requires (forall c :: up(c) != "") && Marks(up, m, m) && UpperText(up, done) == done && IsQuery(q)
    requires done != "" && !IsSpace(done[0]) && forall i | 0 <= i < |done| :: done[i] != m[0]
    ensures ParseReply(up, m, done + m + " " + q) == Continue(q)
  {
    hide ParseReply, QueryOf, UpperText, Find, IsQuery, IsSpace, Marked;
    UpperOfConcat(up, done, m);
    FoundAfter(done, m, UpperText(up, " " + q + ""));
    BlankPads();
    QueryRoundTrips(up, m, "", done, m, " ", q, "");
    Regroup(done, m, q);
  }

  lemma BlankPads()
    ensures IsBlank("") && IsBlank(" ")
  {}

  lemma Regroup(a: string, b: string, q: string)
    ensures "" + Marked(a, b, " " + q + "") == a + b + " " + q
  {}

  lemma OneCharacter(up: Upper, c: char)
    ensures UpperText(up, [c]) == up(c)
  {
    assert [c][..0] == "";
  }

  lemma FoundAfter(a: string, m: string, b: string)
    requires m != "" && forall i | 0 <= i < |a| :: a[i] != m[0]
    ensures Find(a + m + b, m) == |a|
  {
    var s := a + m + b;
    FindIsFirst(s, m, |a|);
    assert s[|a|..][..|m|] == m;
    forall i | 0 <= i < |a| ensures !(m <= s[i..]) {
      assert s[i..][0] == a[i];
    }
  }

  // --- chunk identity ------------------------------------------------------------------------

  datatype Chunk = Chunk(chunkId: string, docId: Option<string>, charStart: Option<nat>, charEnd: Option<nat>, text: string)

  function Shown(n: Option<nat>): string {
    if n.Some? then Digits(n.value) else "None"
  }

  function DocOf(chunk: Chunk): string {
    if chunk.docId.Some? then chunk.docId.value else "?"
  }

  /** The chunk's own id if it has one, else its document and span. */
  function ChunkKey(chunk: Chunk): string {
    if chunk.chunkId != "" then chunk.chunkId
    else DocOf(chunk) + ":" + Shown(chunk.charStart) + ":" + Shown(chunk.charEnd)
  }

  predicate HasNoColon(s: string) {
    forall i | 0 <= i < |s| :: s[i] != ':'
  }

  function LastColon(s: string): (n: int)
    ensures -1 <= n < |s|
  {
    if s == "" || s[|s| - 1] == ':' then |s| - 1 else LastColon(s[..|s| - 1])
  }

  lemma {:induction false} LastColonFound(a: string, b: string)
    requires HasNoColon(b)
    ensures LastColon(a + ":" + b) == |a|
  {
    if b != "" {
      LastColonFound(a, b[..|b| - 1]);
      assert (a + ":" + b)[..|a + ":" + b| - 1] == a + ":" + b[..|b| - 1];
    }
  }

  lemma LastColonSplits(a: string, b: string, c: string, d: string)
    requires HasNoColon(b) && HasNoColon(d) && a + ":" + b == c + ":" + d
    ensures a == c && b == d
  {
    var s := a + ":" + b;
    LastColonFound(a, b);
    LastColonFound(c, d);
    assert s[..|a|] == a && s[..|c|] == c && s[|a| + 1..] == b && s[|c| + 1..] == d;
  }

  lemma ShownOnce(m: Option<nat>, n: Option<nat>)
    ensures HasNoColon(Shown(m))
    ensures Shown(m) == Shown(n) ==> m == n
  {
  }

  /** Chunks without an id share a key exactly when they share document and span. */
  lemma PositionalKeysAreExact(a: Chunk, b: Chunk)
    requires a.chunkId == "" && b.chunkId == ""
    ensures ChunkKey(a) == ChunkKey(b) <==> DocOf(a) == DocOf(b) && a.charStart == b.charStart && a.charEnd == b.charEnd
  {
    ShownOnce(a.charStart, b.charStart);
    ShownOnce(b.charStart, a.charStart);
    ShownOnce(a.charEnd, b.charEnd);
    ShownOnce(b.charEnd, a.charEnd);
    if ChunkKey(a) == ChunkKey(b) {
      LastColonSplits(DocOf(a) + ":" + Shown(a.charStart), Shown(a.charEnd), DocOf(b) + ":" + Shown(b.charStart), Shown(b.charEnd));
      LastColonSplits(DocOf(a), Shown(a.charStart), DocOf(b), Shown(b.charStart));
    }
  }
}
