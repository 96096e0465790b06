/** The per-cell contract: baseline, work, bounded polling for reclaimed memory, attribution. */
module Isolation {
  import opened Text

  /** A cell's configuration; `fingerprint` holds the JSON text of each reproducibility field. */
  datatype Config = Config(model: string, backend: string, fingerprint: map<string, string>)

  datatype Work = Ran(runDir: string) | Failed(detail: string)

  /** Process id and megabytes, one entry per process, in listing order. */
  type Usage = seq<(nat, int)>

  /** What the machine answers: the k-th memory reading, the k-th process listing, the k-th work. */
  datatype World = World(used: nat -> int, usage: nat -> Usage, work: (nat, Config) -> Work)

  function UsedAt(w: World, k: nat): int {
    w.used(k)
  }

  function UsageAt(w: World, k: nat): Usage {
    w.usage(k)
  }

  function WorkAt(w: World, k: nat, config: Config): Work {
    w.work(k, config)
  }

  /** How many readings, listings and pieces of work there have been. */
  datatype Clock = Clock(readings: nat, listings: nat, works: nat)

  datatype Setup = Setup(world: World, hasReader: bool, hasListing: bool, tolerance: int)

  datatype Verdict = Reclaimed | Leaked | BaselineShift

  datatype Outcome =
    | Finished(runDir: string, residual: Option<int>, verdict: Option<Verdict>)
    | WorkFailed(detail: string)
    | NotReclaimed
    | Killed

  predicate IsGated(e: Setup, config: Config) {
    e.hasReader && (config.backend == "vllm" || config.backend == "llamacpp")
  }

  function ClassifyResidual(residual: int, held: int, tolerance: int): Verdict {
    if residual <= tolerance then Reclaimed else if held > tolerance then Leaked else BaselineShift
  }

  /** A residual is reclaimed if it is in tolerance, and otherwise leaked exactly if the new processes
      hold more than that. */
  lemma EachVerdict(residual: int, held: int, tolerance: int)
    ensures var verdict := ClassifyResidual(residual, held, tolerance);
            && (verdict == Reclaimed <==> residual <= tolerance)
            && (verdict == Leaked <==> residual > tolerance && held > tolerance)
            && (verdict == BaselineShift <==> residual > tolerance >= held)
  {}

  function Pids(usage: Usage): set<nat> {
    set i | 0 <= i < |usage| :: usage[i].0
  }

  function PidsHeld(usage: Usage, pids: set<nat>): int {
    if usage == [] then 0
    else PidsHeld(usage[..|usage| - 1], pids) + if usage[|usage| - 1].0 in pids then usage[|usage| - 1].1 else 0
  }

  /** Memory held by the processes that appeared between two listings. */
  function NewlyHeld(before: Usage, after: Usage): int {
    PidsHeld(after, Pids(after) - Pids(before))
  }

  /** All held memory is either newly held or held by a process from before. */
  lemma {:induction false} HeldSplits(usage: Usage, some: set<nat>, others: set<nat>)
    requires some !! others
    ensures PidsHeld(usage, some) + PidsHeld(usage, others) == PidsHeld(usage, some + others)
  {
    if usage != [] { HeldSplits(usage[..|usage| - 1], some, others); }
  }

  lemma {:induction false} HeldDependsOnListed(usage: Usage, pids: set<nat>, others: set<nat>)
    requires forall i | 0 <= i < |usage| :: usage[i].0 in pids <==> usage[i].0 in others
    ensures PidsHeld(usage, pids) == PidsHeld(usage, others)
  {
    if usage != [] { HeldDependsOnListed(usage[..|usage| - 1], pids, others); }
  }

  /** Attribution splits all held memory between the new processes and those from before. */
  lemma AttributionSplits(before: Usage, after: Usage)
    ensures NewlyHeld(before, after) + PidsHeld(after, Pids(before)) == PidsHeld(after, Pids(after))
  {
    var appeared := Pids(after) - Pids(before);
    HeldSplits(after, appeared, Pids(before));
    HeldDependsOnListed(after, appeared + Pids(before), Pids(after));
  }

  /** How many readings the poll takes from reading `t` on, with `left` allowed: it stops at the
      first at or under the ceiling, or with the last allowed. */
  function Polls(w: World, t: nat, ceiling: int, left: nat): (n: nat)
    requires left >= 1
    ensures 1 <= n <= left
    decreases left, t
  {
    if left == 1 || UsedAt(w, t) <= ceiling then 1 else 1 + Polls(w, t + 1, ceiling, left - 1)
  }

  ghost predicate AllOver(w: World, first: nat, last: nat, ceiling: int) {
    forall j | first <= j < last :: UsedAt(w, j) > ceiling
  }

  /** `n` readings from `t` on are what polling takes: all but the last are over the ceiling, and
      the last is not unless it was the last allowed. */
  ghost predicate StopsAfter(w: World, t: nat, ceiling: int, left: nat, n: nat) {
    1 <= n <= left && AllOver(w, t, t + n - 1, ceiling) && (n < left ==> UsedAt(w, t + n - 1) <= ceiling)
  }

  lemma {:induction false} PollsIsTheStop(w: World, t: nat, ceiling: int, left: nat, n: nat)
    requires left >= 1
    ensures StopsAfter(w, t, ceiling, left, n) <==> n == Polls(w, t, ceiling, left)
    decreases left, t
  {
    if left > 1 && UsedAt(w, t) > ceiling {
      PollsIsTheStop(w, t + 1, ceiling, left - 1, Polls(w, t + 1, ceiling, left - 1));
      if n > 1 { PollsIsTheStop(w, t + 1, ceiling, left - 1, n - 1); }
    }
  }

  /** The last reading is in tolerance exactly when one of the allowed readings is. */
  lemma LastPollDecides(w: World, t: nat, ceiling: int, left: nat)
    requires left >= 1
    ensures UsedAt(w, t + Polls(w, t, ceiling, left) - 1) > ceiling <==> AllOver(w, t, t + left, ceiling)
  {
    var n := Polls(w, t, ceiling, left);
    PollsIsTheStop(w, t, ceiling, left, n);
    if UsedAt(w, t + n - 1) > ceiling {
      forall j | t <= j < t + left ensures UsedAt(w, j) > ceiling {
        assert j < t + n - 1 || j == t + n - 1;
      }
    }
  }

  function AtLeastOne(n: int): nat {
    if n < 1 then 1 else n
  }

  /** The cell's baseline is the reading before the work. */
  function Baseline(e: Setup, start: Clock): int {
    UsedAt(e.world, start.readings)
  }

  function CellPolls(e: Setup, start: Clock): (n: nat)
    ensures 1 <= n <= 30
  {
    Polls(e.world, start.readings + 1, Baseline(e, start) + e.tolerance, 30)
  }

  /** The last reading of a gated cell that began at `start`. */
  function LastReading(e: Setup, start: Clock): int {
    UsedAt(e.world, start.readings + CellPolls(e, start))
  }

  function NewlyHeldBy(e: Setup, start: Clock): int {
    NewlyHeld(UsageAt(e.world, start.listings), UsageAt(e.world, start.listings + 1))
  }

  function Residual(e: Setup, start: Clock): int {
    LastReading(e, start) - Baseline(e, start)
  }

  /** What a gated cell's readings say, once its work has returned. */
  function GateVerdict(e: Setup, start: Clock): Verdict {
    if Residual(e, start) <= e.tolerance then Reclaimed
    else if !e.hasListing then Leaked
    else ClassifyResidual(Residual(e, start), NewlyHeldBy(e, start), e.tolerance)
  }

  /** The clock after the work of a cell: a gated one has taken a listing and a baseline. */
  function AfterWork(e: Setup, config: Config, start: Clock): Clock {
    if IsGated(e, config)
    then Clock(start.readings + 1, start.listings + (if e.hasListing then 1 else 0), start.works + 1)
    else start.(works := start.works + 1)
  }

  function AfterGate(e: Setup, worked: Clock, polls: nat, over: bool): Clock {
    Clock(worked.readings + polls, worked.listings + (if over && e.hasListing then 1 else 0), worked.works)
  }

  /** A whole cell from `start`: its outcome and the clock after it. */
  function Isolated(e: Setup, config: Config, start: Clock): (Outcome, Clock) {
    var worked := AfterWork(e, config, start);
    match WorkAt(e.world, start.works, config)
    case Failed(detail) => (WorkFailed(detail), worked)
    case Ran(runDir) =>
      if !IsGated(e, config) then (Finished(runDir, None, None), worked)
      else
        var gated := AfterGate(e, worked, CellPolls(e, start), Residual(e, start) > e.tolerance);
        if GateVerdict(e, start) == Leaked then (NotReclaimed, gated)
        else (Finished(runDir, Some(Residual(e, start)), Some(GateVerdict(e, start))), gated)
  }

  /** The machine a cell runs on. */
  class Machine {
    const setup: Setup
    var clock: Clock

    constructor (setup: Setup, clock: Clock)
      ensures this.setup == setup && this.clock == clock
    {
      this.setup, this.clock := setup, clock;
    }

    method Read() returns (mb: int)
      modifies this
      ensures mb == UsedAt(setup.world, old(clock).readings)
      ensures clock == old(clock).(readings := old(clock).readings + 1)
    {
      mb := UsedAt(setup.world, clock.readings);
      clock := clock.(readings := clock.readings + 1);
    }

    method ReadUsage() returns (usage: Usage)
      modifies this
      ensures usage == UsageAt(setup.world, old(clock).listings)
      ensures clock == old(clock).(listings := old(clock).listings + 1)
    {
      usage := UsageAt(setup.world, clock.listings);
      clock := clock.(listings := clock.listings + 1);
    }

    /** Polls until the use is back in tolerance, or the polls run out. */
    method WaitForReclaim(baseline: int, tolerance: int, maxPolls: int)
      returns (reclaimed: bool, residual: int, polls: nat)
      modifies this
      ensures polls == Polls(setup.world, old(clock).readings, baseline + tolerance, AtLeastOne(maxPolls))
      ensures clock == old(clock).(readings := old(clock).readings + polls)
      ensures residual == UsedAt(setup.world, old(clock).readings + polls - 1) - baseline
      ensures reclaimed <==> residual <= tolerance
      ensures polls >= 1 && (polls > 1 ==> polls <= maxPolls)
    {
      var mb := Read();
      residual := mb - baseline;
      polls := 1;
      while residual > tolerance && polls < maxPolls
        invariant 1 <= polls <= AtLeastOne(maxPolls)
        invariant clock == old(clock).(readings := old(clock).readings + polls)
        invariant residual == UsedAt(setup.world, old(clock).readings + polls - 1) - baseline
        invariant AllOver(setup.world, old(clock).readings, old(clock).readings + polls - 1, baseline + tolerance)
        decreases maxPolls - polls
      {
        mb := Read();
        residual := mb - baseline;
        polls := polls + 1;
      }
      PollsIsTheStop(setup.world, old(clock).readings, baseline + tolerance, AtLeastOne(maxPolls), polls);
      reclaimed := residual <= tolerance;
    }

    /** The gate after the work: poll, and attribute what is still held. */
    method JudgeReclaim(baseline: int, before: Usage) returns (verdict: Verdict, residual: int)
      modifies this
      ensures var polls := Polls(setup.world, old(clock).readings, baseline + setup.tolerance, 30);
              && residual == UsedAt(setup.world, old(clock).readings + polls - 1) - baseline
              && clock == AfterGate(setup, old(clock), polls, residual > setup.tolerance)
      ensures verdict == if residual <= setup.tolerance then Reclaimed
                         else if !setup.hasListing then Leaked
                         else ClassifyResidual(residual, NewlyHeld(before, UsageAt(setup.world, old(clock).listings)), setup.tolerance)
    {
      var reclaimed, polls;
      reclaimed, residual, polls := WaitForReclaim(baseline, setup.tolerance, 30);
      if reclaimed { return Reclaimed, residual; }
      if !setup.hasListing { return Leaked, residual; }
      var after := ReadUsage();
      var held := PidsHeld(after, Pids(after) - Pids(before));
      verdict := ClassifyResidual(residual, held, setup.tolerance);
    }

    method IsolateCell(config: Config) returns (outcome: Outcome)
      modifies this
      ensures (outcome, clock) == Isolated(setup, config, old(clock))
    {
      var gate := IsGated(setup, config);
      var before: Usage := [];
      var baseline := 0;
      if gate {
        if setup.hasListing { before := ReadUsage(); }
        baseline := Read();
      }
      var work := WorkAt(setup.world, clock.works, config);
      clock := clock.(works := clock.works + 1);
      if work.Failed? { return WorkFailed(work.detail); }
      if !gate { return Finished(work.runDir, None, None); }
      var verdict, residual := JudgeReclaim(baseline, before);
      if verdict == Leaked { return NotReclaimed; }
      return Finished(work.runDir, Some(residual), Some(verdict));
    }
  }

  /** Every reading that the gate may take is over tolerance. */
  ghost predicate StaysOver(e: Setup, start: Clock) {
    AllOver(e.world, start.readings + 1, start.readings + 31, Baseline(e, start) + e.tolerance)
  }

  lemma ReclaimedUnlessOver(e: Setup, start: Clock)
    ensures GateVerdict(e, start) == Reclaimed <==> !StaysOver(e, start)
  {
    var (t, ceiling) := (start.readings + 1, Baseline(e, start) + e.tolerance);
    LastPollDecides(e.world, t, ceiling, 30);
    var last := start.readings + CellPolls(e, start);
    assert last == t + Polls(e.world, t, ceiling, 30) - 1;
  }

  /** When the next cell may start: no gate, work that failed (which skips the gate), a reading
      back in tolerance, or attribution showing the new processes hold at most that much. */
  ghost predicate SafeToFollow(e: Setup, config: Config, start: Clock) {
    || !IsGated(e, config)
    || WorkAt(e.world, start.works, config).Failed?
    || !StaysOver(e, start)
    || (e.hasListing && NewlyHeldBy(e, start) <= e.tolerance)
  }

  /** The sweep goes on after a cell exactly when the next one may start. */
  lemma NextCellStarts(e: Setup, config: Config, start: Clock)
    ensures Isolated(e, config, start).0 != NotReclaimed <==> SafeToFollow(e, config, start)
    ensures Isolated(e, config, start).0 != Killed
  {
    ReclaimedUnlessOver(e, start);
  }

  /** The last reading is over the first by more than the tolerance. */
  predicate EndsOver(e: Setup, start: Clock, end: Clock) {
    end.readings > 0 && UsedAt(e.world, end.readings - 1) - UsedAt(e.world, start.readings) > e.tolerance
  }

  /** What a cell does and reports, by its readings. Only vLLM and llama.cpp cells are measured, and
      only with a reader: the first reading is taken before the work and the others after it, and
      the residual is the last of them less the first. One listing is taken before the work, and one
      more only if the residual is over tolerance. Work that fails is reported as it is. */
  lemma CellReports(e: Setup, config: Config, start: Clock)
    ensures var ((outcome, end), work) := (Isolated(e, config, start), WorkAt(e.world, start.works, config));
            && end.works == start.works + 1
            && (work.Failed? ==> outcome == WorkFailed(work.detail)) && (outcome.WorkFailed? ==> work.Failed?)
            && (outcome.Finished? ==> work == Ran(outcome.runDir))
            && if e.hasReader && config.backend in {"vllm", "llamacpp"} then
                 && start.readings + (if work.Failed? then 1 else 2) <= end.readings <= start.readings + (if work.Failed? then 1 else 31)
                 && end.listings == start.listings + (if !e.hasListing then 0 else if work.Ran? && EndsOver(e, start, end) then 2 else 1)
                 && (outcome.Finished? ==>
                       && outcome.residual == Some(UsedAt(e.world, end.readings - 1) - UsedAt(e.world, start.readings))
                       && (outcome.verdict == Some(Reclaimed) <==> outcome.residual.value <= e.tolerance)
                       && (outcome.verdict == Some(BaselineShift) <==> outcome.residual.value > e.tolerance))
               else
                 end.readings == start.readings && end.listings == start.listings
                 && (outcome.Finished? ==> outcome.residual.None? && outcome.verdict.None?)
  {}

  /** An over-tolerance cell is tolerated exactly when processes from before it hold all but at most
      the tolerance of what is held after it. */
  lemma ShiftIsHeldByOthers(e: Setup, start: Clock)
    ensures var (before, after) := (UsageAt(e.world, start.listings), UsageAt(e.world, start.listings + 1));
            GateVerdict(e, start) == BaselineShift
            <==> StaysOver(e, start) && e.hasListing && PidsHeld(after, Pids(after)) - PidsHeld(after, Pids(before)) <= e.tolerance
  {
    hide StaysOver, Pids, PidsHeld;
    AttributionSplits(UsageAt(e.world, start.listings), UsageAt(e.world, start.listings + 1));
    ReclaimedUnlessOver(e, start);
  }

  /** A device whose use rises by more than the tolerance during the first cell and stays there, all
      of it held by a process that the cell launched. */
  function LeakingSetup(work: Work, tolerance: int): Setup {
    Setup(World(k => if k == 0 then 0 else tolerance + 1, k => if k == 0 then [] else [(1, tolerance + 1)], (k, config) => work),
          true, true, tolerance)
  }

  /** Work that fails hides the leak: on the same device the sweep goes on after work that failed,
      and aborts after work that returned. */
  lemma FailedWorkHidesALeak(config: Config, tolerance: int, detail: string, runDir: string)
    requires config.backend == "vllm" || config.backend == "llamacpp"
    ensures var (failing, returning, start) := (LeakingSetup(Failed(detail), tolerance), LeakingSetup(Ran(runDir), tolerance), Clock(0, 0, 0));
            && IsGated(failing, config) && StaysOver(failing, start) && NewlyHeldBy(failing, start) > tolerance
            && Isolated(failing, config, start).0 == WorkFailed(detail)
            && Isolated(returning, config, start).0 == NotReclaimed
  {
    LeakStays(Failed(detail), tolerance);
    LeakStays(Ran(runDir), tolerance);
    hide StaysOver, NewlyHeldBy, GateVerdict, AfterGate, AfterWork, Residual, CellPolls;
    NextCellStarts(LeakingSetup(Failed(detail), tolerance), config, Clock(0, 0, 0));
    NextCellStarts(LeakingSetup(Ran(runDir), tolerance), config, Clock(0, 0, 0));
  }

  lemma LeakStays(work: Work, tolerance: int)
    ensures var (e, start) := (LeakingSetup(work, tolerance), Clock(0, 0, 0));
            StaysOver(e, start) && NewlyHeldBy(e, start) > tolerance
  {
    hide NewlyHeld;
    NewProcessHolds(tolerance + 1);
  }

  lemma NewProcessHolds(mb: int)
    ensures NewlyHeld([], [(1, mb)]) == mb
  {
    var after: Usage := [(1, mb)];
    var appeared := Pids(after) - Pids([]);
    assert after[0].0 in Pids(after) && 1 in appeared;
    assert after[..|after| - 1] == [] && PidsHeld([], appeared) == 0;
  }

  /** Cells that each begin at the last reading of the one before. */
  ghost predicate BackToBack(e: Setup, starts: seq<Clock>) {
    forall i | 0 < i < |starts| :: Baseline(e, starts[i]) == LastReading(e, starts[i - 1])
  }

  ghost predicate AllReclaimed(e: Setup, starts: seq<Clock>) {
    forall i | 0 <= i < |starts| :: GateVerdict(e, starts[i]) == Reclaimed
  }

  /** n reclaimed cells in a row drift at most n tolerances above the first baseline. */
  lemma {:induction false} DriftIsBounded(e: Setup, starts: seq<Clock>)
    requires starts != [] && BackToBack(e, starts) && AllReclaimed(e, starts)
    ensures LastReading(e, starts[|starts| - 1]) <= Baseline(e, starts[0]) + |starts| * e.tolerance
  {
    var n := |starts| - 1;
    assert AllReclaimed(e, starts) && starts[n] == starts[|starts| - 1];
    if n > 0 {
      DriftIsBounded(e, starts[..n]);
      assert (n + 1) * e.tolerance == n * e.tolerance + e.tolerance;
    }
  }
}
