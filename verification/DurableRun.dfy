/** The resumable evaluation run: one session of it, and any number of killed and resumed sessions. */
module DurableRun {
  import opened Text
  import opened Contracts
  import opened Cases
  import opened Retry
  import opened JournalText
  import opened CaseJournals

  /** The settings of one session; a resume may bring another runner and another retry budget. */
  datatype Setup = Setup(run: Runner, policy: Policy, canRelaunch: bool)

  /** A session under way: the journal file, the table of known cases, the tallies, and what the
      session used and wrote. `raised` marks a row that broke its contract and ended the session. */
  datatype Progress = Progress(file: string, done: map<string, State>, tally: Tally, resumed: nat,
                               states: seq<State>, recorded: seq<Row>, raised: bool)

  function LiveState(s: Setup, at: nat, item: Item): State {
    CaseState(s.policy, s.canRelaunch, s.run, item, at)
  }

  function LiveTally(s: Setup, t: Tally, item: Item): Tally {
    AddCase(t, s.policy, CaseCalls(s.policy, s.canRelaunch, s.run, item, t.calls))
  }

  /** The journal file once `row` is appended. */
  function WithRow(c: Codec, file: string, row: Row): string {
    file + Line(c, row) + "\n"
  }

  /** One item: reuse its journaled state, or run it and journal it. */
  function Take(c: Codec, s: Setup, pr: Progress, item: Item): Progress {
    if pr.raised then pr
    else if item.id in pr.done then pr.(resumed := pr.resumed + 1, states := pr.states + [pr.done[item.id]])
    else
      var state := LiveState(s, pr.tally.calls, item);
      var (tally, row) := (LiveTally(s, pr.tally, item), Row(item.id, Trim(state)));
      if !c.accepts(row.id, row.state) then pr.(tally := tally, raised := true)
      else Progress(WithRow(c, pr.file, row), pr.done[row.id := row.state], tally, pr.resumed,
                    pr.states + [state], pr.recorded + [row], false)
  }

  function TakeAll(c: Codec, s: Setup, pr: Progress, items: seq<Item>): Progress {
    if items == [] then pr else Take(c, s, TakeAll(c, s, pr, items[..|items| - 1]), items[|items| - 1])
  }

  /** What a session starts from: the table it was handed, and what the journal adds to it. */
  function Start(c: Codec, file: string, done: map<string, State>, tally: Tally, resumed: nat): Progress {
    Progress(file, done + DoneOf(LoadRows(c, file)), tally, resumed, [], [], false)
  }

  /** The start of a session with a fresh table and fresh counters. */
  function Opened(c: Codec, file: string): Progress {
    Start(c, file, map[], Tally(0, 0, 0, []), 0)
  }

  /** A whole session over a journal file. */
  function Session(c: Codec, s: Setup, file: string, items: seq<Item>): Progress {
    TakeAll(c, s, Opened(c, file), items)
  }

  /** The batch of a completed session: per item its score row, retrieved chunks and answer. */
  datatype Batch<+R> = Batch(rows: seq<R>, retrieved: seq<Value>, answers: seq<Value>)

  function Column(s: State, key: string, default: Value): Value {
    if key in s then s[key] else default
  }

  function BatchOf<R>(score: (Item, State) -> R, items: seq<Item>, states: seq<State>): Batch<R>
    requires |states| == |items|
  {
    if items == [] then Batch([], [], []) else
    var n := |items| - 1;
    var b := BatchOf(score, items[..n], states[..n]);
    Batch(b.rows + [score(items[n], states[n])],
          b.retrieved + [Column(states[n], "retrieved", List([]))],
          b.answers + [Column(states[n], "answer", Str(""))])
  }

  // --- the session as it runs ----------------------------------------------------------------

  /** The loop over the items, on top of the table and the counters it is handed. Nothing when a
      row broke its contract. */
  method ExecuteCasesDurable<R>(items: seq<Item>, endpoint: Endpoint, journal: CaseJournal, s: Setup, counted: nat, score: (Item, State) -> R)
    returns (batch: Option<Batch<R>>, resumed: nat)
    requires s.run == endpoint.run
    modifies endpoint, journal
    ensures var pr := TakeAll(journal.c, s, Start(journal.c, old(journal.file), old(journal.done), old(endpoint.tally), counted), items);
            && journal.file == pr.file && journal.done == pr.done && endpoint.tally == pr.tally && resumed == pr.resumed
            && (batch.None? <==> pr.raised)
            && (batch.Some? ==> |pr.states| == |items| && batch.value == BatchOf(score, items, pr.states))
  {
    hide CaseState, AddCase, CaseCalls, Trim, Line, LoadRows, BatchOf;
    var loaded := journal.Load();
    var rows: seq<R> := [];
    var retrieved: seq<Value> := [];
    var answers: seq<Value> := [];
    resumed := counted;
    ghost var start := Start(journal.c, journal.file, old(journal.done), endpoint.tally, counted);
    ghost var pr := start;
    assert items[..0] == [];
    NothingBatched(score);
    for k := 0 to |items|
      invariant pr == TakeAll(journal.c, s, start, items[..k]) && !pr.raised
      invariant journal.file == pr.file && journal.done == pr.done && endpoint.tally == pr.tally && resumed == pr.resumed
      invariant |pr.states| == k && Batch(rows, retrieved, answers) == BatchOf(score, items[..k], pr.states)
    {
      var item := items[k];
      assert items[..k + 1][..k] == items[..k];
      ghost var before := pr;
      pr := Take(journal.c, s, pr, item);
      var cached := journal.Get(item.id);
      var state;
      if cached.Some? {
        state := cached.value;
        resumed := resumed + 1;
      } else {
        state := endpoint.RunCaseWithRetry(item, s.policy, s.canRelaunch);
        var ok := journal.Record(item.id, state);
        if !ok {
          RaisedStays(journal.c, s, start, items, k + 1);
          return None, resumed;
        }
      }
      BatchOneMore(score, items, k, before.states, state);
      assert pr.states == before.states + [state];
      rows := rows + [score(item, state)];
      retrieved := retrieved + [Column(state, "retrieved", List([]))];
      answers := answers + [Column(state, "answer", Str(""))];
    }
    assert items[..|items|] == items;
    return Some(Batch(rows, retrieved, answers)), resumed;
  }

  /** The batch item by item: the score of its state, and the chunks and the answer that the state
      holds, or none and the empty text. */
  lemma {:induction false} BatchIsByItem<R>(score: (Item, State) -> R, items: seq<Item>, states: seq<State>)
    requires |states| == |items|
    ensures var b := BatchOf(score, items, states);
            && |b.rows| == |b.retrieved| == |b.answers| == |items|
            && forall i | 0 <= i < |items| ::
                 && b.rows[i] == score(items[i], states[i])
                 && b.retrieved[i] == (if "retrieved" in states[i] then states[i]["retrieved"] else List([]))
                 && b.answers[i] == (if "answer" in states[i] then states[i]["answer"] else Str(""))
  {
    if items != [] {
      BatchIsByItem(score, items[..|items| - 1], states[..|items| - 1]);
    }
  }

  lemma NothingBatched<R>(score: (Item, State) -> R)
    ensures BatchOf(score, [], []) == Batch([], [], [])
  {}

  lemma BatchOneMore<R>(score: (Item, State) -> R, items: seq<Item>, k: nat, states: seq<State>, state: State)
    requires k < |items| && |states| == k
    ensures var b := BatchOf(score, items[..k], states);
            BatchOf(score, items[..k + 1], states + [state])
            == Batch(b.rows + [score(items[k], state)], b.retrieved + [Column(state, "retrieved", List([]))], b.answers + [Column(state, "answer", Str(""))])
  {
    assert items[..k + 1][..k] == items[..k] && (states + [state])[..k] == states;
  }

  lemma {:induction false} RaisedStays(c: Codec, s: Setup, pr: Progress, items: seq<Item>, k: nat)
    requires k <= |items| && TakeAll(c, s, pr, items[..k]).raised
    ensures TakeAll(c, s, pr, items) == TakeAll(c, s, pr, items[..k])
    decreases |items| - k
  {
    if k < |items| {
      assert items[..k + 1][..k] == items[..k];
      RaisedStays(c, s, pr, items, k + 1);
    } else {
      assert items[..k] == items;
    }
  }

  // --- accounting over a session -------------------------------------------------------------

  /** Every call of the runner is a live case, a retry or a relaunch; the live cases are those that
      were recorded, and the one whose row broke its contract. */
  lemma {:induction false} CallsAreAccounted(c: Codec, s: Setup, file: string, items: seq<Item>)
    ensures var pr := Session(c, s, file, items);
            && pr.resumed <= |items|
            && pr.tally.calls == |pr.recorded| + (if pr.raised then 1 else 0) + pr.tally.caseRetries + pr.tally.backendRelaunches
            && (!pr.raised ==> |pr.states| == |items| == pr.resumed + |pr.recorded|)
  {
    if items != [] {
      var front := items[..|items| - 1];
      CallsAreAccounted(c, s, file, front);
      var pr := Session(c, s, file, front);
      var item := items[|items| - 1];
      AccountingIsExact(pr.tally, s.policy, CaseCalls(s.policy, s.canRelaunch, s.run, item, pr.tally.calls));
    }
  }

  // --- one session keeps the journal ---------------------------------------------------------

  /** The table of a session never knows less than the journal, and only what was recorded. */
  ghost predicate TableOk(c: Codec, pr: Progress, history: set<Row>) {
    && JournalOk(c, pr.file, history)
    && (forall i | 0 <= i < |LoadRows(c, pr.file)| :: LoadRows(c, pr.file)[i].id in pr.done)
    && (forall id | id in pr.done :: Row(id, pr.done[id]) in history)
  }

  function RowSet(rows: seq<Row>): set<Row> {
    set r | r in rows
  }

  lemma {:induction false} DoneOfRows(rows: seq<Row>)
    ensures forall i | 0 <= i < |rows| :: rows[i].id in DoneOf(rows)
    ensures forall id | id in DoneOf(rows) :: Row(id, DoneOf(rows)[id]) in rows
  {
    if rows != [] {
      var n := |rows| - 1;
      DoneOfRows(rows[..n]);
      assert rows[n] == Row(rows[n].id, rows[n].state) && rows[n] in rows;
      forall i | 0 <= i < |rows| ensures rows[i].id in DoneOf(rows) {
        if i < n { assert rows[..n][i] == rows[i]; }
      }
    }
  }

  lemma OpenedOk(c: Codec, file: string, history: set<Row>)
    requires JournalOk(c, file, history)
    ensures TableOk(c, Opened(c, file), history)
  {
    DoneOfRows(LoadRows(c, file));
    WholeSlice(file);
    assert PrefixOk(c, file[..|file|], history);
  }

  lemma TakeKeeps(c: Codec, s: Setup, pr: Progress, item: Item, history: set<Row>)
    requires IsJournalJson(c) && TableOk(c, pr, history) && RowSet(Take(c, s, pr, item).recorded) <= history
    ensures TableOk(c, Take(c, s, pr, item), history)
  {
    var after := Take(c, s, pr, item);
    if !pr.raised && item.id !in pr.done && !after.raised {
      var row := Row(item.id, Trim(LiveState(s, pr.tally.calls, item)));
      LastIsRecorded(pr.recorded, row);
      RecordedKeeps(c, pr, after, row, history);
    }
  }

  lemma RecordedKeeps(c: Codec, pr: Progress, after: Progress, row: Row, history: set<Row>)
    requires IsJournalJson(c) && TableOk(c, pr, history) && row in history && row.id !in pr.done
    requires after.file == WithRow(c, pr.file, row) && after.done == pr.done[row.id := row.state]
    ensures TableOk(c, after, history)
  {
    hide WithRow, LoadRows, JournalOk;
    AppendedTableOk(c, pr.file, pr.done, history, row);
    assert Row(row.id, row.state) == row;
  }

  lemma LastIsRecorded(rows: seq<Row>, row: Row)
    ensures row in RowSet(rows + [row])
  {
    assert (rows + [row])[|rows|] == row;
  }

  lemma AppendedTableOk(c: Codec, file: string, done: map<string, State>, history: set<Row>, row: Row)
    requires IsJournalJson(c) && JournalOk(c, file, history) && row in history && row.id !in done
    requires forall i | 0 <= i < |LoadRows(c, file)| :: LoadRows(c, file)[i].id in done
    ensures var after := WithRow(c, file, row);
            && JournalOk(c, after, history)
            && (forall i | 0 <= i < |LoadRows(c, after)| :: LoadRows(c, after)[i].id in done || LoadRows(c, after)[i].id == row.id)
  {
    hide LoadRows, JournalOk;
    AppendKeeps(c, file, history, row);
    assert history + {row} == history;
    LastLineStarts(c, file, history);
    LoadAfterAppend(c, file, row);
    AllOldOrNew(LoadRows(c, file), LoadRows(c, WithRow(c, file, row)), row);
  }

  lemma LastLineStarts(c: Codec, file: string, history: set<Row>)
    requires JournalOk(c, file, history)
    ensures Tail(file) != "" ==> Tail(file)[0] == '{'
  {
    WholeSlice(file);
    assert PrefixOk(c, file[..|file|], history);
  }

  lemma AllOldOrNew(before: seq<Row>, after: seq<Row>, row: Row)
    requires after == before + [row] || after <= before
    ensures forall i | 0 <= i < |after| :: after[i] == row || (i < |before| && after[i] == before[i])
  {}

  lemma {:induction false} SessionKeeps(c: Codec, s: Setup, file: string, items: seq<Item>, history: set<Row>)
    requires IsJournalJson(c) && JournalOk(c, file, history) && RowSet(Session(c, s, file, items).recorded) <= history
    ensures TableOk(c, Session(c, s, file, items), history)
  {
    if items == [] {
      OpenedOk(c, file, history);
    } else {
      var front := items[..|items| - 1];
      RecordedGrows(c, s, Session(c, s, file, front), items[|items| - 1]);
      SessionKeeps(c, s, file, front, history);
      TakeKeeps(c, s, Session(c, s, file, front), items[|items| - 1], history);
    }
  }

  lemma RecordedGrows(c: Codec, s: Setup, pr: Progress, item: Item)
    ensures RowSet(pr.recorded) <= RowSet(Take(c, s, pr, item).recorded)
  {}

  // --- any number of sessions ----------------------------------------------------------------

  /** A session that was killed, or ended: it wrote at most the rows of the first `reached` items,
      the last of them perhaps in part, and left the first `kept` characters of its journal on disk. */
  datatype Visit = Visit(setup: Setup, reached: nat, kept: nat)

  function AtMost(n: nat, most: nat): nat {
    if n <= most then n else most
  }

  /** The session that `v` is the start of, over the journal that it found. */
  function Visited(c: Codec, items: seq<Item>, v: Visit, file: string): Progress {
    Session(c, v.setup, file, items[..AtMost(v.reached, |items|)])
  }

  function FileAfter(c: Codec, items: seq<Item>, visits: seq<Visit>): string {
    if visits == [] then "" else
    var last := visits[|visits| - 1];
    var file := Visited(c, items, last, FileAfter(c, items, visits[..|visits| - 1])).file;
    file[..AtMost(last.kept, |file|)]
  }

  /** Every row that any of the sessions set out to write. */
  function History(c: Codec, items: seq<Item>, visits: seq<Visit>): set<Row> {
    if visits == [] then {} else
    var front := visits[..|visits| - 1];
    History(c, items, front) + RowSet(Visited(c, items, visits[|visits| - 1], FileAfter(c, items, front)).recorded)
  }

  /** Visits follow one another on the same file: each runs a session over a start of the items, on
      what the ones before it left, and leaves a start of its file. */
  lemma VisitsLeaveStarts(c: Codec, items: seq<Item>, visits: seq<Visit>, v: Visit)
    ensures FileAfter(c, items, []) == ""
    ensures var before := FileAfter(c, items, visits);
            && (v.reached <= |items| ==>
                  var file := Session(c, v.setup, before, items[..v.reached]).file;
                  FileAfter(c, items, visits + [v]) == if v.kept <= |file| then file[..v.kept] else file)
            && (v.reached >= |items| && v.kept >= |Session(c, v.setup, before, items).file| ==>
                  FileAfter(c, items, visits + [v]) == Session(c, v.setup, before, items).file)
  {
    hide Session;
    assert (visits + [v])[..|visits|] == visits;
    assert items[..|items|] == items;
    var file := Visited(c, items, v, FileAfter(c, items, visits)).file;
    assert file[..|file|] == file;
  }

  lemma MoreHistoryKeeps(c: Codec, file: string, history: set<Row>, more: set<Row>)
    requires JournalOk(c, file, history) && history <= more
    ensures JournalOk(c, file, more)
  {
    forall n | 0 <= n <= |file| ensures PrefixOk(c, file[..n], more) {
      assert PrefixOk(c, file[..n], history);
    }
  }

  /** Whatever the kills, the journal loads only rows that a session set out to write before it was
      killed, at most one per id, and so does any start of it. */
  lemma {:induction false} JournalSurvivesKills(c: Codec, items: seq<Item>, visits: seq<Visit>)
    requires IsJournalJson(c)
    ensures JournalOk(c, FileAfter(c, items, visits), History(c, items, visits))
  {
    if visits == [] {
      EmptyJournalOk(c);
    } else {
      var (front, last) := (visits[..|visits| - 1], visits[|visits| - 1]);
      var (file, history) := (FileAfter(c, items, front), History(c, items, visits));
      JournalSurvivesKills(c, items, front);
      MoreHistoryKeeps(c, file, History(c, items, front), history);
      SessionKeeps(c, last.setup, file, items[..AtMost(last.reached, |items|)], history);
      var whole := Visited(c, items, last, file);
      assert JournalOk(c, whole.file, history);
      var kept := AtMost(last.kept, |whole.file|);
      TruncationKeeps(c, whole.file, history, kept);
      assert FileAfter(c, items, visits) == whole.file[..kept];
    }
  }

  // --- the batch of a completed session ------------------------------------------------------

  /** A score that reads journaled columns only. */
  ghost predicate ScoresJournaled<R(!new)>(score: (Item, State) -> R) {
    forall item, state :: score(item, state) == score(item, Trim(state))
  }

  /** Cases with the same journaled columns give the same batch. */
  lemma {:induction false} BatchByJournaledColumns<R(!new)>(score: (Item, State) -> R, items: seq<Item>, a: seq<State>, b: seq<State>)
    requires ScoresJournaled(score) && |a| == |b| == |items|
    requires forall i | 0 <= i < |items| :: Trim(a[i]) == Trim(b[i])
    ensures BatchOf(score, items, a) == BatchOf(score, items, b)
  {
    if items != [] {
      var n := |items| - 1;
      BatchByJournaledColumns(score, items[..n], a[..n], b[..n]);
      assert score(items[n], a[n]) == score(items[n], Trim(a[n])) == score(items[n], Trim(b[n])) == score(items[n], b[n]);
      ColumnOfTrim(a[n]);
      ColumnOfTrim(b[n]);
    }
  }

  lemma ColumnOfTrim(s: State)
    ensures Column(s, "retrieved", List([])) == Column(Trim(s), "retrieved", List([]))
    ensures Column(s, "answer", Str("")) == Column(Trim(s), "answer", Str(""))
  {
    assert IsJournaled("retrieved") && IsJournaled("answer");
  }

  /** The states journaled for the items of a session, in item order. */
  function Journaled(pr: Progress, items: seq<Item>): (r: seq<State>)
    requires forall i | 0 <= i < |items| :: items[i].id in pr.done
    ensures |r| == |items| && forall i | 0 <= i < |r| :: r[i] == pr.done[items[i].id]
  {
    seq(|items|, i requires 0 <= i < |items| => pr.done[items[i].id])
  }

  lemma {:induction false} UsedStatesAreJournaled(c: Codec, s: Setup, file: string, items: seq<Item>)
    ensures var pr := Session(c, s, file, items);
            !pr.raised ==>
              && |pr.states| == |items|
              && (forall i | 0 <= i < |items| :: items[i].id in pr.done && Trim(pr.states[i]) == Trim(pr.done[items[i].id]))
  {
    if items != [] {
      var n := |items| - 1;
      var (front, item) := (items[..n], items[n]);
      UsedStatesAreJournaled(c, s, file, front);
      var (pr, after) := (Session(c, s, file, front), Session(c, s, file, items));
      if !after.raised {
        TrimIsIdempotent(after.states[n]);
        forall i | 0 <= i < |items| ensures items[i].id in after.done && Trim(after.states[i]) == Trim(after.done[items[i].id]) {
          if i < n { assert front[i] == items[i] && items[i].id in pr.done; }
        }
      }
    }
  }

  /** A completed session returns one row per item, in item order, each the score of the state that
      is journaled for that item. */
  lemma CompletedBatch<R(!new)>(c: Codec, s: Setup, file: string, items: seq<Item>, score: (Item, State) -> R)
    requires ScoresJournaled(score) && !Session(c, s, file, items).raised
    ensures var pr := Session(c, s, file, items);
            && |pr.states| == |items|
            && (forall i | 0 <= i < |items| :: items[i].id in pr.done)
            && BatchOf(score, items, pr.states) == BatchOf(score, items, Journaled(pr, items))
  {
    UsedStatesAreJournaled(c, s, file, items);
    var pr := Session(c, s, file, items);
    BatchByJournaledColumns(score, items, pr.states, Journaled(pr, items));
  }

  // --- a deterministic runner ----------------------------------------------------------------

  ghost predicate UniqueIds(items: seq<Item>) {
    forall i, j | 0 <= i < j < |items| :: items[i].id != items[j].id
  }

  /** Every call for an item returns that item's outcome. */
  ghost predicate Deterministic(s: Setup, outcome: Item -> State) {
    forall item, at :: s.run(item, at) == outcome(item)
  }

  /** A row that some item's outcome gives, and that its contract accepts. */
  ghost predicate IsOutcomeRow(c: Codec, items: seq<Item>, outcome: Item -> State, r: Row) {
    exists i :: 0 <= i < |items| && r == Row(items[i].id, Trim(outcome(items[i]))) && c.accepts(r.id, r.state)
  }

  lemma TakeRecordsOutcome(c: Codec, s: Setup, pr: Progress, items: seq<Item>, outcome: Item -> State, i: nat)
    requires Deterministic(s, outcome) && i < |items|
    requires forall r | r in pr.recorded :: IsOutcomeRow(c, items, outcome, r)
    ensures forall r | r in Take(c, s, pr, items[i]).recorded :: IsOutcomeRow(c, items, outcome, r)
  {
    assert LiveState(s, pr.tally.calls, items[i]) == outcome(items[i]);
    hide LiveState, Trim, Line;
  }

  lemma {:induction false} RecordsOutcomes(c: Codec, s: Setup, file: string, items: seq<Item>, outcome: Item -> State, n: nat)
    requires Deterministic(s, outcome) && n <= |items|
    ensures forall r | r in Session(c, s, file, items[..n]).recorded :: IsOutcomeRow(c, items, outcome, r)
  {
    if n > 0 {
      RecordsOutcomes(c, s, file, items, outcome, n - 1);
      assert items[..n][..n - 1] == items[..n - 1] && items[..n][n - 1] == items[n - 1];
      TakeRecordsOutcome(c, s, Session(c, s, file, items[..n - 1]), items, outcome, n - 1);
    }
  }

  lemma {:induction false} HistoryIsOutcomes(c: Codec, items: seq<Item>, visits: seq<Visit>, outcome: Item -> State)
    requires forall i | 0 <= i < |visits| :: Deterministic(visits[i].setup, outcome)
    ensures forall r | r in History(c, items, visits) :: IsOutcomeRow(c, items, outcome, r)
  {
    if visits != [] {
      var (front, last) := (visits[..|visits| - 1], visits[|visits| - 1]);
      HistoryIsOutcomes(c, items, front, outcome);
      RecordsOutcomes(c, last.setup, FileAfter(c, items, front), items, outcome, AtMost(last.reached, |items|));
    }
  }

  lemma TableWithin(c: Codec, s: Setup, file: string, items: seq<Item>, history: set<Row>)
    requires IsJournalJson(c) && JournalOk(c, file, history)
    ensures var pr := Session(c, s, file, items);
            forall id | id in pr.done :: Row(id, pr.done[id]) in history + RowSet(pr.recorded)
  {
    var all := history + RowSet(Session(c, s, file, items).recorded);
    MoreHistoryKeeps(c, file, history, all);
    SessionKeeps(c, s, file, items, all);
  }

  /** What the table of a session knows of an item is that item's outcome. */
  lemma {:induction false} TableIsOutcomes(c: Codec, s: Setup, file: string, items: seq<Item>, history: set<Row>, outcome: Item -> State)
    requires IsJournalJson(c) && JournalOk(c, file, history) && Deterministic(s, outcome) && UniqueIds(items)
    requires forall r | r in history :: IsOutcomeRow(c, items, outcome, r)
    ensures var pr := Session(c, s, file, items);
            forall i | 0 <= i < |items| && items[i].id in pr.done ::
              pr.done[items[i].id] == Trim(outcome(items[i])) && c.accepts(items[i].id, Trim(outcome(items[i])))
  {
    var pr := Session(c, s, file, items);
    var all := history + RowSet(pr.recorded);
    TableWithin(c, s, file, items, history);
    RecordsOutcomes(c, s, file, items, outcome, |items|);
    assert items[..|items|] == items;
    forall i | 0 <= i < |items| && items[i].id in pr.done
      ensures pr.done[items[i].id] == Trim(outcome(items[i])) && c.accepts(items[i].id, Trim(outcome(items[i])))
    {
      var r := Row(items[i].id, pr.done[items[i].id]);
      assert r in all;
      assert r in history || r in pr.recorded;
      var j :| 0 <= j < |items| && r == Row(items[j].id, Trim(outcome(items[j]))) && c.accepts(r.id, r.state);
      assert items[i].id == items[j].id;
    }
  }

  function Outcomes(items: seq<Item>, outcome: Item -> State): (r: seq<State>)
    ensures |r| == |items| && forall i | 0 <= i < |r| :: r[i] == outcome(items[i])
  {
    seq(|items|, i requires 0 <= i < |items| => outcome(items[i]))
  }

  /** With a deterministic runner, any sequence of killed and resumed sessions, under any retry
      budgets, ends in the batch of the items' outcomes. */
  lemma ResumedBatch<R(!new)>(c: Codec, items: seq<Item>, visits: seq<Visit>, last: Setup, outcome: Item -> State, score: (Item, State) -> R)
    requires IsJournalJson(c) && UniqueIds(items) && ScoresJournaled(score)
    requires Deterministic(last, outcome) && forall i | 0 <= i < |visits| :: Deterministic(visits[i].setup, outcome)
    requires !Session(c, last, FileAfter(c, items, visits), items).raised
    ensures var pr := Session(c, last, FileAfter(c, items, visits), items);
            |pr.states| == |items| && BatchOf(score, items, pr.states) == BatchOf(score, items, Outcomes(items, outcome))
    ensures forall i | 0 <= i < |items| :: c.accepts(items[i].id, Trim(outcome(items[i])))
  {
    var file := FileAfter(c, items, visits);
    JournalSurvivesKills(c, items, visits);
    HistoryIsOutcomes(c, items, visits, outcome);
    TableIsOutcomes(c, last, file, items, History(c, items, visits), outcome);
    UsedStatesAreJournaled(c, last, file, items);
    var pr := Session(c, last, file, items);
    forall i | 0 <= i < |items| ensures Trim(pr.states[i]) == Trim(Outcomes(items, outcome)[i]) {
      TrimIsIdempotent(outcome(items[i]));
    }
    BatchByJournaledColumns(score, items, pr.states, Outcomes(items, outcome));
  }

  lemma {:induction false} AcceptedNeverRaises(c: Codec, s: Setup, file: string, items: seq<Item>, outcome: Item -> State)
    requires Deterministic(s, outcome) && forall i | 0 <= i < |items| :: c.accepts(items[i].id, Trim(outcome(items[i])))
    ensures !Session(c, s, file, items).raised
  {
    if items != [] {
      AcceptedNeverRaises(c, s, file, items[..|items| - 1], outcome);
    }
  }

  /** Resuming is equivalent to never having been interrupted: the uninterrupted run completes too,
      with the same batch. */
  lemma ResumeEqualsUninterrupted<R(!new)>(c: Codec, items: seq<Item>, visits: seq<Visit>, last: Setup, alone: Setup,
                                          outcome: Item -> State, score: (Item, State) -> R)
    requires IsJournalJson(c) && UniqueIds(items) && ScoresJournaled(score)
    requires Deterministic(last, outcome) && forall i | 0 <= i < |visits| :: Deterministic(visits[i].setup, outcome)
    requires Deterministic(alone, outcome)
    requires !Session(c, last, FileAfter(c, items, visits), items).raised
    ensures var (resumed, direct) := (Session(c, last, FileAfter(c, items, visits), items), Session(c, alone, "", items));
            && !direct.raised && |direct.states| == |resumed.states| == |items|
            && BatchOf(score, items, resumed.states) == BatchOf(score, items, direct.states)
  {
    ResumedBatch(c, items, visits, last, outcome, score);
    AcceptedNeverRaises(c, alone, "", items, outcome);
    ResumedBatch(c, items, [], alone, outcome, score);
  }
}
