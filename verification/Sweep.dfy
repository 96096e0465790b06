/** The resumable sweep over isolated cells, and any sequence of its attempts. */
module Sweeps {
  import opened Text
  import opened Isolation

  datatype Status = Done | Skipped | CellFailed

  datatype CellResult = CellResult(cellKey: string, model: string, backend: string, status: Status,
                                   runDir: Option<string>, residualMb: Option<int>, detail: string)

  /** A marker file: text that does not parse, or an object that may lack required keys. */
  datatype MarkerFile = Unreadable | Fields(result: CellResult, allKeys: bool)

  type Markers = map<string, MarkerFile>

  /** The key of a cell hashes its fingerprint without the run name. */
  type Digest = map<string, string> -> string

  function CellKey(digest: Digest, config: Config): string {
    digest(config.fingerprint - {"run_name"})
  }

  /** The result a marker stands for; an unreadable or unfinished one stands for none. */
  function ReadMarker(file: MarkerFile): Option<CellResult> {
    if file.Fields? && file.result.status == Done && file.allKeys then Some(file.result) else None
  }

  predicate IsMarked(markers: Markers, key: string) {
    key in markers && ReadMarker(markers[key]).Some?
  }

  /** One execution of a cell's work: its key, the clock it began at, and how it came out. */
  datatype Execution = Execution(key: string, config: Config, start: Clock, outcome: Outcome)

  datatype Sweep = Sweep(markers: Markers, clock: Clock, results: seq<CellResult>, log: seq<Execution>, aborted: bool)

  function ResultOf(key: string, config: Config, outcome: Outcome): CellResult
    requires outcome.Finished? || outcome.WorkFailed?
  {
    match outcome
    case Finished(runDir, residual, _) => CellResult(key, config.model, config.backend, Done, Some(runDir), residual, "ok")
    case WorkFailed(detail) => CellResult(key, config.model, config.backend, CellFailed, None, None, detail)
  }

  /** One cell of a sweep. */
  function Visit(e: Setup, digest: Digest, resume: bool, s: Sweep, config: Config): Sweep {
    var key := CellKey(digest, config);
    if s.aborted then s
    else if resume && IsMarked(s.markers, key) then
      s.(results := s.results + [ReadMarker(s.markers[key]).value.(status := Skipped)])
    else Execute(s, key, config, Isolated(e, config, s.clock))
  }

  /** What the outcome of an executed cell does to the sweep. */
  function Execute(s: Sweep, key: string, config: Config, ran: (Outcome, Clock)): Sweep {
    var logged := s.(clock := ran.1, log := s.log + [Execution(key, config, s.clock, ran.0)]);
    match ran.0
    case NotReclaimed => logged.(aborted := true)
    case Killed => logged.(aborted := true)
    case WorkFailed(_) => logged.(results := s.results + [ResultOf(key, config, ran.0)])
    case Finished(_, _, _) =>
      logged.(results := s.results + [ResultOf(key, config, ran.0)],
              markers := s.markers[key := Fields(ResultOf(key, config, ran.0), true)])
  }

  function VisitAll(e: Setup, digest: Digest, resume: bool, s: Sweep, configs: seq<Config>): Sweep {
    if configs == [] then s
    else Visit(e, digest, resume, VisitAll(e, digest, resume, s, configs[..|configs| - 1]), configs[|configs| - 1])
  }

  datatype Report = Report(cells: nat, completed: nat, skipped: nat, failed: nat, results: seq<CellResult>)

  function CountOf(results: seq<CellResult>, status: Status): nat {
    if results == [] then 0
    else CountOf(results[..|results| - 1], status) + if results[|results| - 1].status == status then 1 else 0
  }

  function ReportOf(results: seq<CellResult>): Report {
    Report(|results|, CountOf(results, Done), CountOf(results, Skipped), CountOf(results, CellFailed), results)
  }

  /** Every result has exactly one of the three statuses. */
  lemma {:induction false} CountsAddUp(results: seq<CellResult>)
    ensures CountOf(results, Done) + CountOf(results, Skipped) + CountOf(results, CellFailed) == |results|
  {
    if results != [] { CountsAddUp(results[..|results| - 1]); }
  }

  /** The marker directory of one sweep id, on one machine. */
  class SweepDirectory {
    const digest: Digest
    const machine: Machine
    var markers: Markers
    ghost var log: seq<Execution>

    constructor (digest: Digest, machine: Machine, markers: Markers)
      ensures this.digest == digest && this.machine == machine && this.markers == markers && log == []
    {
      this.digest, this.machine, this.markers, log := digest, machine, markers, [];
    }

    ghost function State(results: seq<CellResult>, aborted: bool): Sweep
      reads this, machine
    {
      Sweep(markers, machine.clock, results, log, aborted)
    }

    /** Runs the cells in order; a leak aborts the sweep without a report. */
    method RunSweep(configs: seq<Config>, resume: bool) returns (report: Option<Report>)
      modifies this, machine
      ensures var end := VisitAll(machine.setup, digest, resume, old(State([], false)), configs);
              && State(end.results, end.aborted) == end
              && report == if end.aborted then None else Some(ReportOf(end.results))
      ensures report.Some? ==> ReportsExecutions(report.value, configs, old(log), log)
    {
      var results: seq<CellResult> := [];
      ghost var start := State([], false);
      for i := 0 to |configs|
        invariant State(results, false) == VisitAll(machine.setup, digest, resume, start, configs[..i])
      {
        ghost var before := State(results, false);
        OneMoreVisit(machine.setup, digest, resume, start, configs, i);
        var key := CellKey(digest, configs[i]);
        if resume && IsMarked(markers, key) {
          results := results + [ReadMarker(markers[key]).value.(status := Skipped)];
        } else {
          ghost var began := machine.clock;
          var outcome := machine.IsolateCell(configs[i]);
          log := log + [Execution(key, configs[i], began, outcome)];
          if outcome.NotReclaimed? {
            AbortedStays(machine.setup, digest, resume, start, configs, i + 1);
            return None;
          }
          var result := ResultOf(key, configs[i], outcome);
          if outcome.Finished? { markers := markers[key := Fields(result, true)]; }
          results := results + [result];
        }
      }
      assert configs[..|configs|] == configs;
      ReportCountsExecutions(machine.setup, digest, resume, start, configs);
      report := Some(ReportOf(results));
    }
  }

  lemma OneMoreVisit(e: Setup, digest: Digest, resume: bool, s: Sweep, configs: seq<Config>, i: nat)
    requires i < |configs|
    ensures VisitAll(e, digest, resume, s, configs[..i + 1]) == Visit(e, digest, resume, VisitAll(e, digest, resume, s, configs[..i]), configs[i])
  {
    assert configs[..i + 1][..i] == configs[..i];
  }

  lemma {:induction false} AbortedStays(e: Setup, digest: Digest, resume: bool, s: Sweep, configs: seq<Config>, i: nat)
    requires i <= |configs| && VisitAll(e, digest, resume, s, configs[..i]).aborted
    ensures VisitAll(e, digest, resume, s, configs) == VisitAll(e, digest, resume, s, configs[..i])
    decreases |configs|
  {
    if i == |configs| {
      assert configs[..i] == configs;
    } else {
      var front := configs[..|configs| - 1];
      assert front[..i] == configs[..i];
      AbortedStays(e, digest, resume, s, front, i);
    }
  }

  // --- one sweep -----------------------------------------------------------------------------

  /** The result that an executed cell adds, if its sweep goes on. */
  ghost predicate IsResultOf(r: CellResult, key: string, config: Config, outcome: Outcome) {
    && r.cellKey == key && r.model == config.model && r.backend == config.backend
    && match outcome
       case Finished(runDir, residual, _) => r.status == Done && r.runDir == Some(runDir) && r.residualMb == residual && r.detail == "ok"
       case WorkFailed(detail) => r.status == CellFailed && r.runDir.None? && r.residualMb.None? && r.detail == detail
       case _ => false
  }

  /** What a marker file must hold for its cell to be skipped: a whole result, of a finished cell. */
  ghost predicate HoldsFinished(markers: Markers, key: string, r: CellResult) {
    key in markers && markers[key] == Fields(r, true) && r.status == Done
  }

  /** One cell of a sweep: a resumed sweep skips it exactly if its marker holds a finished result,
      which it then repeats; otherwise it is executed, its result is added unless it leaked, and its
      marker is written exactly if it finished. */
  lemma CellIsVisited(e: Setup, digest: Digest, resume: bool, s: Sweep, config: Config)
    requires !s.aborted
    ensures var (key, end) := (digest(config.fingerprint - {"run_name"}), Visit(e, digest, resume, s, config));
            && (end.log == s.log <==> resume && exists r :: HoldsFinished(s.markers, key, r))
            && (end.log == s.log ==> forall r | HoldsFinished(s.markers, key, r) :: end == s.(results := s.results + [r.(status := Skipped)]))
            && (end.log != s.log ==>
                  var (outcome, clock) := Isolated(e, config, s.clock);
                  && end.log == s.log + [Execution(key, config, s.clock, outcome)] && end.clock == clock
                  && (end.aborted <==> outcome == NotReclaimed)
                  && (if end.aborted then end.results == s.results
                      else |end.results| == |s.results| + 1 && s.results <= end.results && IsResultOf(end.results[|s.results|], key, config, outcome))
                  && (if outcome.Finished? then HoldsFinished(end.markers, key, end.results[|s.results|])
                                                && end.markers == s.markers[key := end.markers[key]]
                      else end.markers == s.markers))
  {
    NextCellStarts(e, config, s.clock);
    hide Isolated;
    var key := CellKey(digest, config);
    if IsMarked(s.markers, key) { assert HoldsFinished(s.markers, key, ReadMarker(s.markers[key]).value); }
  }

  /** Every usable marker is filed under the key of the result it holds. */
  ghost predicate MarkersOwn(markers: Markers) {
    forall key | IsMarked(markers, key) :: ReadMarker(markers[key]).value.cellKey == key
  }

  ghost predicate Matches(digest: Digest, configs: seq<Config>, results: seq<CellResult>) {
    |results| == |configs| && forall i | 0 <= i < |configs| :: results[i].cellKey == CellKey(digest, configs[i])
  }

  /** A sweep that does not abort has one result per configuration, in order. */
  lemma {:induction false} OneResultEach(e: Setup, digest: Digest, resume: bool, s: Sweep, configs: seq<Config>)
    requires s.results == [] && !s.aborted && MarkersOwn(s.markers)
    ensures var end := VisitAll(e, digest, resume, s, configs);
            MarkersOwn(end.markers) && (!end.aborted ==> Matches(digest, configs, end.results))
  {
    if configs != [] {
      var (front, config) := (configs[..|configs| - 1], configs[|configs| - 1]);
      OneResultEach(e, digest, resume, s, front);
      VisitAddsOne(e, digest, resume, VisitAll(e, digest, resume, s, front), front, config);
      assert configs == front + [config];
    }
  }

  lemma VisitAddsOne(e: Setup, digest: Digest, resume: bool, s: Sweep, front: seq<Config>, config: Config)
    requires MarkersOwn(s.markers) && (!s.aborted ==> Matches(digest, front, s.results))
    ensures var end := Visit(e, digest, resume, s, config);
            MarkersOwn(end.markers) && (!end.aborted ==> Matches(digest, front + [config], end.results))
  {
    var ran := Isolated(e, config, s.clock);
    if ran.0.Finished? {
      var markers := s.markers[CellKey(digest, config) := Fields(ResultOf(CellKey(digest, config), config, ran.0), true)];
      forall key | IsMarked(markers, key) ensures ReadMarker(markers[key]).value.cellKey == key {
        assert key != CellKey(digest, config) ==> IsMarked(s.markers, key);
      }
    }
  }

  function Executions(log: seq<Execution>, finished: bool): nat {
    if log == [] then 0
    else
      var outcome := log[|log| - 1].outcome;
      Executions(log[..|log| - 1], finished) + if (if finished then outcome.Finished? else outcome.WorkFailed?) then 1 else 0
  }

  /** After `n` cells: the statuses are those of the executions since `before`, and of as many other
      cells, which were skipped. */
  ghost predicate CountsMatch(s: Sweep, before: seq<Execution>, n: nat) {
    && CountOf(s.results, Done) == Executions(s.log, true) - Executions(before, true)
    && CountOf(s.results, CellFailed) == Executions(s.log, false) - Executions(before, false)
    && (!s.aborted ==> |s.results| == n && CountOf(s.results, Skipped) == n - (|s.log| - |before|))
  }

  /** A report that shows a sweep of `configs` as it ran: its cells, those executed and finished,
      those executed whose work failed, and those not executed; and these make up all cells. */
  ghost predicate ReportsExecutions(r: Report, configs: seq<Config>, before: seq<Execution>, log: seq<Execution>) {
    && r.cells == |configs| == |r.results|
    && r.completed == Executions(log, true) - Executions(before, true)
    && r.failed == Executions(log, false) - Executions(before, false)
    && r.skipped == |configs| - (|log| - |before|)
    && r.completed + r.failed + r.skipped == r.cells
  }

  /** The report of a sweep that does not abort shows the executions of that sweep. */
  lemma ReportCountsExecutions(e: Setup, digest: Digest, resume: bool, s: Sweep, configs: seq<Config>)
    requires s.results == [] && !s.aborted
    ensures var end := VisitAll(e, digest, resume, s, configs);
            !end.aborted ==> ReportsExecutions(ReportOf(end.results), configs, s.log, end.log)
  {
    VisitsCount(e, digest, resume, s, configs);
    CountsAddUp(VisitAll(e, digest, resume, s, configs).results);
  }

  lemma {:induction false} VisitsCount(e: Setup, digest: Digest, resume: bool, s: Sweep, configs: seq<Config>)
    requires s.results == [] && !s.aborted
    ensures CountsMatch(VisitAll(e, digest, resume, s, configs), s.log, |configs|)
  {
    if configs != [] {
      hide Visit, CountsMatch;
      VisitsCount(e, digest, resume, s, configs[..|configs| - 1]);
      VisitCounts(e, digest, resume, VisitAll(e, digest, resume, s, configs[..|configs| - 1]), s.log, |configs| - 1, configs[|configs| - 1]);
    }
  }

  lemma VisitCounts(e: Setup, digest: Digest, resume: bool, s: Sweep, before: seq<Execution>, n: nat, config: Config)
    requires CountsMatch(s, before, n)
    ensures CountsMatch(Visit(e, digest, resume, s, config), before, n + 1)
  {
    hide Execute, Isolated, CountOf, Executions;
    ExecuteCounts(s, before, n, CellKey(digest, config), config, Isolated(e, config, s.clock));
    if IsMarked(s.markers, CellKey(digest, config)) {
      CountOneMore(s.results, ReadMarker(s.markers[CellKey(digest, config)]).value.(status := Skipped));
    }
  }

  lemma ExecuteCounts(s: Sweep, before: seq<Execution>, n: nat, key: string, config: Config, ran: (Outcome, Clock))
    requires CountsMatch(s, before, n)
    ensures !s.aborted ==> CountsMatch(Execute(s, key, config, ran), before, n + 1)
  {
    hide CountOf, Executions;
    ExecutionsOneMore(s.log, Execution(key, config, s.clock, ran.0));
    if ran.0.Finished? || ran.0.WorkFailed? { CountOneMore(s.results, ResultOf(key, config, ran.0)); }
  }

  lemma ExecutionsOneMore(log: seq<Execution>, x: Execution)
    ensures Executions(log + [x], true) == Executions(log, true) + if x.outcome.Finished? then 1 else 0
    ensures Executions(log + [x], false) == Executions(log, false) + if x.outcome.WorkFailed? then 1 else 0
  {
    assert (log + [x])[..|log|] == log;
  }

  lemma CountOneMore(results: seq<CellResult>, r: CellResult)
    ensures forall status :: CountOf(results + [r], status) == CountOf(results, status) + if r.status == status then 1 else 0
  {
    assert (results + [r])[..|results|] == results;
  }

  /** Execution `i` was safe to follow, and the next one started where it ended. */
  ghost predicate FollowsSafely(e: Setup, log: seq<Execution>, i: nat)
    requires i + 1 < |log|
  {
    && SafeToFollow(e, log[i].config, log[i].start)
    && log[i + 1].start == Isolated(e, log[i].config, log[i].start).1
  }

  /** Within a sweep each cell starts where the one before it ended, and only if that was safe. */
  ghost predicate IsSafeChain(e: Setup, log: seq<Execution>) {
    forall i | 0 <= i < |log| - 1 :: FollowsSafely(e, log, i)
  }

  /** The sweep is at the end of its last execution, and aborted exactly if that one leaked. */
  ghost predicate IsAtEnd(e: Setup, s: Sweep) {
    if s.log == [] then !s.aborted
    else
      var last := s.log[|s.log| - 1];
      s.clock == Isolated(e, last.config, last.start).1 && (s.aborted <==> !SafeToFollow(e, last.config, last.start))
  }

  lemma {:induction false} NoCellAfterALeak(e: Setup, digest: Digest, resume: bool, s: Sweep, configs: seq<Config>)
    requires s.log == [] && !s.aborted
    ensures var end := VisitAll(e, digest, resume, s, configs); IsSafeChain(e, end.log) && IsAtEnd(e, end)
  {
    if configs != [] {
      NoCellAfterALeak(e, digest, resume, s, configs[..|configs| - 1]);
      VisitFollowsSafely(e, digest, resume, VisitAll(e, digest, resume, s, configs[..|configs| - 1]), configs[|configs| - 1]);
    }
  }

  lemma VisitFollowsSafely(e: Setup, digest: Digest, resume: bool, s: Sweep, config: Config)
    requires IsSafeChain(e, s.log) && IsAtEnd(e, s)
    ensures var end := Visit(e, digest, resume, s, config); IsSafeChain(e, end.log) && IsAtEnd(e, end)
  {
    NextCellStarts(e, config, s.clock);
    var x := Execution(CellKey(digest, config), config, s.clock, Isolated(e, config, s.clock).0);
    if !s.aborted {
      forall i | 0 <= i < |s.log| ensures FollowsSafely(e, s.log + [x], i) {
        assert i < |s.log| - 1 ==> FollowsSafely(e, s.log, i);
      }
    }
  }

  // --- any sequence of attempts --------------------------------------------------------------

  /** One attempt: the cells it reaches before it ends or is killed, whether the kill falls inside
      the next cell's work, and the clock readings it starts at. */
  datatype Attempt = Attempt(configs: seq<Config>, resume: bool, visits: nat, killedInside: bool, start: Clock)

  function Reached(a: Attempt): nat {
    if a.visits < |a.configs| then a.visits else |a.configs|
  }

  function RunAttempt(e: Setup, digest: Digest, s: Sweep, a: Attempt): Sweep {
    var begun := s.(clock := a.start, results := [], aborted := false);
    var reached := VisitAll(e, digest, a.resume, begun, a.configs[..Reached(a)]);
    if a.killedInside && Reached(a) < |a.configs| && !reached.aborted
    then KillInside(digest, a.resume, reached, a.configs[Reached(a)])
    else reached
  }

  /** A kill inside a cell's work; a cell that would be skipped has none. */
  function KillInside(digest: Digest, resume: bool, s: Sweep, config: Config): Sweep {
    var key := CellKey(digest, config);
    if resume && IsMarked(s.markers, key) then s else Execute(s, key, config, (Killed, s.clock))
  }

  function RunAttempts(e: Setup, digest: Digest, s: Sweep, attempts: seq<Attempt>): Sweep {
    if attempts == [] then s
    else RunAttempt(e, digest, RunAttempts(e, digest, s, attempts[..|attempts| - 1]), attempts[|attempts| - 1])
  }

  /** Attempts follow one another on the same markers. One that is not killed is a whole sweep; one
      that is killed inside a cell that is due has executed the cells before it, and leaves their
      markers and an execution that came to nothing. */
  lemma AttemptsAreSweeps(e: Setup, digest: Digest, s: Sweep, attempts: seq<Attempt>, a: Attempt)
    ensures RunAttempts(e, digest, s, []) == s
    ensures var before := RunAttempts(e, digest, s, attempts);
            var begun := before.(clock := a.start, results := [], aborted := false);
            var after := RunAttempts(e, digest, s, attempts + [a]);
            && (a.visits >= |a.configs| ==> after == VisitAll(e, digest, a.resume, begun, a.configs))
            && (a.visits < |a.configs| ==>
                  var (reached, config) := (VisitAll(e, digest, a.resume, begun, a.configs[..a.visits]), a.configs[a.visits]);
                  var key := CellKey(digest, config);
                  && after.markers == reached.markers
                  && after.log == if a.killedInside && !reached.aborted && !(a.resume && IsMarked(reached.markers, key))
                                  then reached.log + [Execution(key, config, reached.clock, Killed)] else reached.log)
  {
    assert (attempts + [a])[..|attempts|] == attempts;
    assert a.configs[..|a.configs|] == a.configs;
    hide VisitAll;
  }

  /** Some execution of `key` in the log finished. */
  ghost predicate HasFinished(log: seq<Execution>, key: string) {
    exists i :: 0 <= i < |log| && log[i].key == key && log[i].outcome.Finished?
  }

  /** A cell has a usable marker exactly when it had one at first or an execution of it finished. */
  ghost predicate MarkedIffFinished(first: Markers, s: Sweep) {
    forall key :: IsMarked(s.markers, key) <==> IsMarked(first, key) || HasFinished(s.log, key)
  }

  /** No cell is executed after an execution of it finished, nor if it was marked at first. */
  ghost predicate NeverAgain(first: Markers, log: seq<Execution>) {
    && (forall i | 0 <= i < |log| :: !IsMarked(first, log[i].key))
    && forall i, j | 0 <= i < j < |log| && log[i].outcome.Finished? :: log[j].key != log[i].key
  }

  lemma LogGrows(log: seq<Execution>, x: Execution, key: string)
    ensures HasFinished(log + [x], key) <==> HasFinished(log, key) || (x.key == key && x.outcome.Finished?)
  {
    var more := log + [x];
    if HasFinished(log, key) {
      var i :| 0 <= i < |log| && log[i].key == key && log[i].outcome.Finished?;
      assert more[i] == log[i];
    }
    if x.key == key && x.outcome.Finished? { assert more[|log|] == x; }
  }

  /** Executing a cell keeps markers and log in step. */
  lemma ExecuteKeepsMarks(first: Markers, s: Sweep, key: string, config: Config, ran: (Outcome, Clock))
    requires MarkedIffFinished(first, s)
    ensures MarkedIffFinished(first, Execute(s, key, config, ran))
  {
    forall k { LogGrows(s.log, Execution(key, config, s.clock, ran.0), k); }
  }

  /** Executing a cell that has no marker executes no finished cell again. */
  lemma ExecuteIsFirst(first: Markers, s: Sweep, key: string, config: Config, ran: (Outcome, Clock))
    requires MarkedIffFinished(first, s) && NeverAgain(first, s.log) && !IsMarked(s.markers, key)
    ensures NeverAgain(first, Execute(s, key, config, ran).log)
  {
    forall i | 0 <= i < |s.log| && s.log[i].outcome.Finished? ensures s.log[i].key != key {
      assert HasFinished(s.log, s.log[i].key);
    }
  }

  ghost predicate InStep(first: Markers, resumed: bool, s: Sweep) {
    MarkedIffFinished(first, s) && (resumed ==> NeverAgain(first, s.log))
  }

  lemma {:induction false} VisitsKeep(e: Setup, digest: Digest, first: Markers, resume: bool, resumed: bool, s: Sweep, configs: seq<Config>)
    requires InStep(first, resumed, s) && (resumed ==> resume)
    ensures InStep(first, resumed, VisitAll(e, digest, resume, s, configs))
  {
    if configs != [] {
      var before := VisitAll(e, digest, resume, s, configs[..|configs| - 1]);
      var config := configs[|configs| - 1];
      VisitsKeep(e, digest, first, resume, resumed, s, configs[..|configs| - 1]);
      ExecuteKeeps(first, resume, resumed, before, digest, config, Isolated(e, config, before.clock));
    }
  }

  lemma ExecuteKeeps(first: Markers, resume: bool, resumed: bool, s: Sweep, digest: Digest, config: Config, ran: (Outcome, Clock))
    requires InStep(first, resumed, s) && (resumed ==> resume)
    ensures !(resume && IsMarked(s.markers, CellKey(digest, config))) ==>
              InStep(first, resumed, Execute(s, CellKey(digest, config), config, ran))
  {
    if !(resume && IsMarked(s.markers, CellKey(digest, config))) {
      ExecuteKeepsMarks(first, s, CellKey(digest, config), config, ran);
      if resumed { ExecuteIsFirst(first, s, CellKey(digest, config), config, ran); }
    }
  }

  /** Over any sequence of sweeps, ended by success, a leak or a kill at any point: a cell has a
      marker exactly when it finished, and if all of them resume, no finished cell runs again. */
  lemma {:induction false} AttemptsKeep(e: Setup, digest: Digest, resumed: bool, s: Sweep, attempts: seq<Attempt>)
    requires s.log == [] && forall i | 0 <= i < |attempts| :: resumed ==> attempts[i].resume
    ensures InStep(s.markers, resumed, RunAttempts(e, digest, s, attempts))
  {
    if attempts != [] {
      var n := |attempts| - 1;
      var (before, a) := (RunAttempts(e, digest, s, attempts[..n]), attempts[n]);
      AttemptsKeep(e, digest, resumed, s, attempts[..n]);
      var begun := before.(clock := a.start, results := [], aborted := false);
      VisitsKeep(e, digest, s.markers, a.resume, resumed, begun, a.configs[..Reached(a)]);
      if Reached(a) < |a.configs| {
        var reached := VisitAll(e, digest, a.resume, begun, a.configs[..Reached(a)]);
        ExecuteKeeps(s.markers, a.resume, resumed, reached, digest, a.configs[Reached(a)], (Killed, reached.clock));
      }
    }
  }

  /** Two cells share a key exactly when only their run names differ. */
  lemma SameCell(digest: Digest, a: Config, b: Config)
    requires forall x, y :: digest(x) == digest(y) ==> x == y
    ensures CellKey(digest, a) == CellKey(digest, b)
       <==> forall field | field != "run_name" ::
              && (field in a.fingerprint <==> field in b.fingerprint)
              && (field in a.fingerprint ==> a.fingerprint[field] == b.fingerprint[field])
  {
    var (x, y) := (a.fingerprint - {"run_name"}, b.fingerprint - {"run_name"});
    if x == y {
      forall field | field != "run_name" ensures
        && (field in a.fingerprint <==> field in b.fingerprint)
        && (field in a.fingerprint ==> a.fingerprint[field] == b.fingerprint[field])
      {
        assert field in x <==> field in a.fingerprint;
        assert field in y <==> field in b.fingerprint;
      }
    }
  }
}
