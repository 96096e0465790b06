/** The auto-RAG stage machine: eight ordered stages, atomic result markers, and resume. */
module AutoRag {
  import opened Text
  import opened Contracts

  datatype Stage = Ingest | Draft | Verification | Retrieval | JointSearch | PromptSystem | FinalEval | Recommendation

  function Stages(): (r: seq<Stage>)
    ensures |r| == 8
  {
    [Ingest, Draft, Verification, Retrieval, JointSearch, PromptSystem, FinalEval, Recommendation]
  }

  /** The position of a stage. */
  function Index(stage: Stage): (j: nat)
    ensures j < |Stages()| && Stages()[j] == stage
  {
    match stage
    case Ingest => 0
    case Draft => 1
    case Verification => 2
    case Retrieval => 3
    case JointSearch => 4
    case PromptSystem => 5
    case FinalEval => 6
    case Recommendation => 7
  }

  lemma IndexOfStage(k: nat)
    requires k < |Stages()|
    ensures Index(Stages()[k]) == k
  {}

  type Outputs = map<Stage, Record>

  datatype Status = Started | PausedAt | FailedAt | Done

  /** A journal line; `stage` is nothing for the run itself, and a completion carries its digest. */
  datatype Event = Event(stage: Option<Stage>, status: Status, digest: Option<Record>)

  /** The run directory: the pinned settings, the result markers, and the event log. */
  datatype Disk = Disk(manifest: Option<Record>, results: Outputs, events: seq<Event>)

  datatype Reply = Finished(result: Record) | Pending | Raised

  /** The stage runners of one run: each sees the outputs of the stages before it. */
  type Runners = (Stage, Outputs) -> Reply

  datatype Outcome = Completed(outputs: Outputs) | Paused | Failed | Killed | Refused

  /** A stage runner that was called, with what it was shown. */
  datatype Call = Call(stage: Stage, seen: Outputs)

  /** A run under way. `power` counts the durable writes it can still make before it is killed. */
  datatype Run = Run(disk: Disk, power: nat, outputs: Outputs, calls: seq<Call>, ended: Option<Outcome>)

  /** One durable write; without power the process is dead before it. */
  function Write(r: Run, disk: Disk): Run {
    if r.ended.Some? then r
    else if r.power == 0 then r.(ended := Some(Killed))
    else r.(disk := disk, power := r.power - 1)
  }

  function Log(r: Run, e: Event): Run {
    Write(r, r.disk.(events := r.disk.events + [e]))
  }

  function Publish(r: Run, stage: Stage, result: Record): Run {
    Write(r, r.disk.(results := r.disk.results[stage := result]))
  }

  function EndWith(r: Run, outcome: Outcome): Run {
    if r.ended.Some? then r else r.(ended := Some(outcome))
  }

  /** Opening pins the settings of a new directory and refuses other settings on an old one. */
  function Open(disk: Disk, power: nat, settings: Record): Run {
    var r := Run(disk, power, map[], [], None);
    if disk.manifest.Some? then
      if disk.manifest.value == settings then r else EndWith(r, Refused)
    else
      Log(Write(r, disk.(manifest := Some(settings))), Event(None, Started, None))
  }

  /** One stage: reuse its result, or run it and publish the result before the completion event. */
  function Advance(r: Run, runners: Runners, stage: Stage): Run {
    if r.ended.Some? then r
    else if stage in r.disk.results then r.(outputs := r.outputs[stage := r.disk.results[stage]])
    else
      var s := Log(r, Event(Some(stage), Started, None));
      if s.ended.Some? then s else Handle(Called(s, stage), stage, runners(stage, s.outputs))
  }

  /** A stage runner is called with the outputs so far. */
  function Called(s: Run, stage: Stage): Run {
    s.(calls := s.calls + [Call(stage, s.outputs)])
  }

  /** What the run does with a runner's reply. */
  function Handle(called: Run, stage: Stage, reply: Reply): Run {
    match reply
    case Pending => EndWith(Log(called, Event(Some(stage), PausedAt, None)), Paused)
    case Raised => EndWith(Log(called, Event(Some(stage), FailedAt, None)), Failed)
    case Finished(result) =>
      var t := Log(Publish(called, stage, result), Event(Some(stage), Done, Some(result)));
      if t.ended.Some? then t else t.(outputs := t.outputs[stage := result])
  }

  function AdvanceTo(r: Run, runners: Runners, k: nat): Run
    requires k <= |Stages()|
  {
    if k == 0 then r else Advance(AdvanceTo(r, runners, k - 1), runners, Stages()[k - 1])
  }

  function Close(r: Run): Run {
    var s := Log(r, Event(None, Done, None));
    EndWith(s, Completed(s.outputs))
  }

  /** A whole run over a directory. */
  function RunAutoRag(disk: Disk, settings: Record, runners: Runners, power: nat): Run {
    Close(AdvanceTo(Open(disk, power, settings), runners, |Stages()|))
  }

  // --- the run as it runs --------------------------------------------------------------------

  /** The journal of one run directory; every method that writes tells whether the run lives on. */
  class AutoRagJournal {
    var disk: Disk
    var power: nat

    constructor (disk: Disk, power: nat)
      ensures this.disk == disk && this.power == power
    {
      this.disk, this.power := disk, power;
    }

    method WriteDisk(next: Disk) returns (alive: bool)
      modifies this
      ensures alive <==> old(power) > 0
      ensures if alive then disk == next && power == old(power) - 1 else disk == old(disk) && power == old(power)
    {
      alive := power > 0;
      if alive {
        disk, power := next, power - 1;
      }
    }

    method LogEvent(stage: Option<Stage>, status: Status, digest: Option<Record>) returns (alive: bool)
      modifies this
      ensures alive <==> old(power) > 0
      ensures if alive then disk == old(disk).(events := old(disk.events) + [Event(stage, status, digest)]) && power == old(power) - 1
              else disk == old(disk) && power == old(power)
    {
      alive := WriteDisk(disk.(events := disk.events + [Event(stage, status, digest)]));
    }

    method OpenDirectory(settings: Record) returns (end: Option<Outcome>)
      modifies this
      ensures Open(old(disk), old(power), settings) == Run(disk, power, map[], [], end)
    {
      if disk.manifest.Some? {
        return if disk.manifest.value == settings then None else Some(Refused);
      }
      var alive := WriteDisk(disk.(manifest := Some(settings)));
      if alive {
        alive := LogEvent(None, Started, None);
      }
      return if alive then None else Some(Killed);
    }

    /** The result marker, then the completion event. */
    method Complete(stage: Stage, result: Record, ghost r: Run) returns (alive: bool)
      requires r.disk == disk && r.power == power && r.ended.None?
      modifies this
      ensures var t := Log(Publish(r, stage, result), Event(Some(stage), Done, Some(result)));
              t == r.(disk := disk, power := power, ended := if alive then None else Some(Killed))
    {
      alive := WriteDisk(disk.(results := disk.results[stage := result]));
      if alive {
        alive := LogEvent(Some(stage), Done, Some(result));
      }
    }

    /** One turn of the stage loop; `r` is the run before it and `after` the run it leads to. */
    method RunStage(stage: Stage, runners: Runners, outputs: Outputs, ghost r: Run)
      returns (next: Outputs, end: Option<Outcome>, ghost after: Run)
      requires r == Run(disk, power, outputs, r.calls, None)
      modifies this
      ensures after == Advance(r, runners, stage) && after == Run(disk, power, next, after.calls, end)
    {
      next := outputs;
      after := Advance(r, runners, stage);
      if stage in disk.results {
        next := outputs[stage := disk.results[stage]];
        return next, None, after;
      }
      var alive := LogEvent(Some(stage), Started, None);
      if !alive {
        return next, Some(Killed), after;
      }
      match runners(stage, outputs) {
        case Pending =>
          alive := LogEvent(Some(stage), PausedAt, None);
          end := Some(if alive then Paused else Killed);
        case Raised =>
          alive := LogEvent(Some(stage), FailedAt, None);
          end := Some(if alive then Failed else Killed);
        case Finished(result) =>
          alive := Complete(stage, result, Run(disk, power, outputs, r.calls + [Call(stage, outputs)], None));
          next := if alive then outputs[stage := result] else outputs;
          end := if alive then None else Some(Killed);
      }
    }

    method RunStages(settings: Record, runners: Runners) returns (outcome: Outcome)
      modifies this
      ensures var r := RunAutoRag(old(disk), settings, runners, old(power));
              r.ended == Some(outcome) && disk == r.disk && power == r.power
    {
      ghost var r0 := Open(disk, power, settings);
      ghost var r := r0;
      var outputs: Outputs := map[];
      var end := OpenDirectory(settings);
      if end.Some? {
        EndedStays(r0, runners, 0);
        return end.value;
      }
      for k := 0 to |Stages()|
        invariant r == AdvanceTo(r0, runners, k) && r == Run(disk, power, outputs, r.calls, None)
      {
        outputs, end, r := RunStage(Stages()[k], runners, outputs, r);
        if end.Some? {
          EndedStays(r0, runners, k + 1);
          return end.value;
        }
      }
      var alive := LogEvent(None, Done, None);
      outcome := if alive then Completed(outputs) else Killed;
    }
  }

  lemma {:induction false} EndedStays(r: Run, runners: Runners, k: nat)
    requires k <= |Stages()| && AdvanceTo(r, runners, k).ended.Some?
    ensures Close(AdvanceTo(r, runners, |Stages()|)) == AdvanceTo(r, runners, k)
    decreases |Stages()| - k
  {
    if k < |Stages()| { EndedStays(r, runners, k + 1); }
  }

  // --- what one run keeps --------------------------------------------------------------------

  /** The outputs are those of the first `n` stages. */
  ghost predicate HasFirst(o: Outputs, n: nat) {
    forall stage: Stage :: stage in o <==> Index(stage) < n
  }

  /** The completed stages are the first ones, as many as there are. */
  ghost predicate IsPrefix(results: Outputs) {
    |results| <= |Stages()| && HasFirst(results, |results|)
  }

  /** The outputs of the first `k` stages. */
  function FirstOutputs(results: Outputs, k: nat): Outputs {
    map stage | stage in results && Index(stage) < k :: results[stage]
  }

  /** A completion in the log has its durable result behind it. */
  ghost predicate EventOk(results: Outputs, e: Event) {
    e.status == Done ==>
      match e.stage
      case Some(stage) => stage in results && e.digest == Some(results[stage])
      case None => |results| == |Stages()|
  }

  ghost predicate DiskOk(disk: Disk) {
    IsPrefix(disk.results) && forall i | 0 <= i < |disk.events| :: EventOk(disk.results, disk.events[i])
  }

  /** Results only accumulate: none is lost and none is overwritten. */
  ghost predicate Extends(before: Outputs, after: Outputs) {
    forall stage | stage in before :: stage in after && after[stage] == before[stage]
  }

  /** A runner that was called: its stage had no result, and it saw exactly the earlier outputs. */
  ghost predicate CallOk(before: Outputs, after: Outputs, call: Call, k: nat) {
    && call.stage !in before && Index(call.stage) < k
    && HasFirst(call.seen, Index(call.stage)) && call.seen == FirstOutputs(after, Index(call.stage))
  }

  ghost predicate CallsOk(before: Outputs, after: Outputs, calls: seq<Call>, k: nat) {
    && (forall i | 0 <= i < |calls| :: CallOk(before, after, calls[i], k))
    && (forall i, j | 0 <= i < j < |calls| :: calls[i].stage != calls[j].stage)
  }

  ghost predicate RunOk(before: Disk, r: Run, k: nat) {
    && k <= |Stages()| && DiskOk(r.disk) && Extends(before.results, r.disk.results)
    && CallsOk(before.results, r.disk.results, r.calls, k)
    && (r.ended.None? ==> k <= |r.disk.results| && r.outputs == FirstOutputs(r.disk.results, k))
    && (r.ended.Some? && r.ended.value.Completed? ==>
          |r.disk.results| == |Stages()| && r.ended.value.outputs == r.disk.results)
  }

  lemma IndexIsInjective(s: Stage, t: Stage)
    requires Index(s) == Index(t)
    ensures s == t
  {
    assert Stages()[Index(s)] == Stages()[Index(t)];
  }

  lemma AllFirst(o: Outputs, n: nat)
    requires HasFirst(o, n)
    ensures FirstOutputs(o, n) == o
  {}

  lemma NextIsFirst(o: Outputs, stage: Stage, result: Record)
    requires HasFirst(o, Index(stage))
    ensures stage !in o && HasFirst(o[stage := result], Index(stage) + 1)
  {
    forall s: Stage ensures s in o[stage := result] <==> Index(s) < Index(stage) + 1 {
      if Index(s) == Index(stage) { IndexIsInjective(s, stage); }
    }
  }

  lemma AddResult(results: Outputs, stage: Stage, result: Record)
    requires IsPrefix(results) && |results| == Index(stage)
    ensures var after := results[stage := result];
            && stage !in results && IsPrefix(after) && |after| == Index(stage) + 1
            && Extends(results, after)
            && FirstOutputs(results, Index(stage)) == results && FirstOutputs(after, Index(stage) + 1) == after
  {
    hide Stages, Index;
    NextIsFirst(results, stage, result);
    AllFirst(results, Index(stage));
    AllFirst(results[stage := result], Index(stage) + 1);
    assert |results[stage := result]| == |results| + 1;
  }

  /** Earlier outputs do not change when the next result is added. */
  lemma EarlierOutputsStay(results: Outputs, stage: Stage, result: Record, j: nat)
    requires j <= Index(stage)
    ensures FirstOutputs(results[stage := result], j) == FirstOutputs(results, j)
  {}

  lemma CallIsOk(before: Outputs, results: Outputs, stage: Stage, calls: seq<Call>)
    requires CallsOk(before, results, calls, Index(stage)) && stage !in before
    requires HasFirst(FirstOutputs(results, Index(stage)), Index(stage))
    ensures CallsOk(before, results, calls + [Call(stage, FirstOutputs(results, Index(stage)))], Index(stage) + 1)
  {
    var after := calls + [Call(stage, FirstOutputs(results, Index(stage)))];
    forall i | 0 <= i < |after| ensures CallOk(before, results, after[i], Index(stage) + 1) {
      if i < |calls| { assert CallOk(before, results, calls[i], Index(stage)); }
    }
    forall i | 0 <= i < |calls| ensures calls[i].stage != stage {
      assert CallOk(before, results, calls[i], Index(stage));
    }
  }

  lemma MoreStages(before: Outputs, results: Outputs, calls: seq<Call>, k: nat)
    requires CallsOk(before, results, calls, k)
    ensures CallsOk(before, results, calls, k + 1)
  {
    forall i | 0 <= i < |calls| ensures CallOk(before, results, calls[i], k + 1) {
      assert CallOk(before, results, calls[i], k);
    }
  }

  lemma EventsStayOk(results: Outputs, stage: Stage, result: Record, events: seq<Event>)
    requires IsPrefix(results) && |results| == Index(stage)
    requires forall i | 0 <= i < |events| :: EventOk(results, events[i])
    ensures forall i | 0 <= i < |events| :: EventOk(results[stage := result], events[i])
  {
    forall i | 0 <= i < |events| ensures EventOk(results[stage := result], events[i]) {
      assert EventOk(results, events[i]);
      AddResult(results, stage, result);
    }
  }

  lemma EventKeeps(before: Disk, r: Run, k: nat, e: Event)
    requires RunOk(before, r, k) && EventOk(r.disk.results, e)
    ensures RunOk(before, Log(r, e), k)
  {}

  /** A stage that was called and did not finish, or that was killed before its result was written. */
  lemma CalledKeeps(before: Disk, r: Run, stage: Stage)
    requires RunOk(before, r, Index(stage)) && r.ended.None? && |r.disk.results| == Index(stage)
    ensures CallsOk(before.results, r.disk.results, r.calls + [Call(stage, r.outputs)], Index(stage) + 1)
  {
    AddResult(r.disk.results, stage, map[]);
    CallIsOk(before.results, r.disk.results, stage, r.calls);
  }

  /** Publishing keeps the invariant and, if the run lives on, leads past the stage. */
  lemma PublishKeeps(before: Disk, r: Run, stage: Stage, result: Record)
    requires RunOk(before, r, Index(stage)) && r.ended.None? && r.power > 0 && |r.disk.results| == Index(stage)
    ensures var called := r.(calls := r.calls + [Call(stage, r.outputs)]);
            var t := Publish(called, stage, result).(outputs := r.outputs[stage := result]);
            RunOk(before, t, Index(stage) + 1)
  {
    var results := r.disk.results;
    AddResult(results, stage, result);
    CalledKeeps(before, r, stage);
    var calls := r.calls + [Call(stage, r.outputs)];
    CallsStayOk(before.results, results, stage, result, calls);
    EventsStayOk(results, stage, result, r.disk.events);
  }

  lemma CallsStayOk(before: Outputs, results: Outputs, stage: Stage, result: Record, calls: seq<Call>)
    requires CallsOk(before, results, calls, Index(stage) + 1)
    ensures CallsOk(before, results[stage := result], calls, Index(stage) + 1)
  {
    forall i | 0 <= i < |calls| ensures CallOk(before, results[stage := result], calls[i], Index(stage) + 1) {
      assert CallOk(before, results, calls[i], Index(stage) + 1);
      EarlierOutputsStay(results, stage, result, Index(calls[i].stage));
    }
  }

  lemma FirstOutputsNext(results: Outputs, stage: Stage)
    requires stage in results
    ensures FirstOutputs(results, Index(stage) + 1) == FirstOutputs(results, Index(stage))[stage := results[stage]]
  {
    var (a, b) := (FirstOutputs(results, Index(stage) + 1), FirstOutputs(results, Index(stage))[stage := results[stage]]);
    forall s: Stage ensures s in a <==> s in b {
      if Index(s) == Index(stage) { IndexIsInjective(s, stage); }
    }
  }

  lemma AdvanceKeeps(before: Disk, r: Run, runners: Runners, stage: Stage)
    requires RunOk(before, r, Index(stage)) && (r.ended.Some? ==> !r.ended.value.Completed?)
    ensures RunOk(before, Advance(r, runners, stage), Index(stage) + 1)
    ensures Advance(r, runners, stage).ended.Some? ==> !Advance(r, runners, stage).ended.value.Completed?
  {
    var results := r.disk.results;
    if r.ended.Some? {
      MoreStages(before.results, results, r.calls, Index(stage));
    } else if stage in results {
      FirstOutputsNext(results, stage);
      MoreStages(before.results, results, r.calls, Index(stage));
    } else {
      AdvanceByRunning(before, r, runners, stage);
    }
  }

  lemma AdvanceByRunning(before: Disk, r: Run, runners: Runners, stage: Stage)
    requires RunOk(before, r, Index(stage)) && r.ended.None? && stage !in r.disk.results && |r.disk.results| == Index(stage)
    ensures RunOk(before, Advance(r, runners, stage), Index(stage) + 1)
    ensures Advance(r, runners, stage).ended.Some? ==> !Advance(r, runners, stage).ended.value.Completed?
  {
    var started := Event(Some(stage), Started, None);
    var s := Log(r, started);
    EventKeeps(before, r, Index(stage), started);
    if s.ended.Some? {
      EndedKeeps(before, s, Index(stage));
    } else {
      HandleKeeps(before, s, stage, runners(stage, s.outputs));
    }
  }

  lemma HandleKeeps(before: Disk, s: Run, stage: Stage, reply: Reply)
    requires RunOk(before, s, Index(stage)) && s.ended.None? && |s.disk.results| == Index(stage)
    ensures RunOk(before, Handle(Called(s, stage), stage, reply), Index(stage) + 1)
    ensures Handle(Called(s, stage), stage, reply).ended.Some? ==> !Handle(Called(s, stage), stage, reply).ended.value.Completed?
  {
    hide Stages, Index;
    match reply {
      case Pending => UnfinishedKeeps(before, s, stage, Event(Some(stage), PausedAt, None), Paused);
      case Raised => UnfinishedKeeps(before, s, stage, Event(Some(stage), FailedAt, None), Failed);
      case Finished(result) => FinishedKeeps(before, s, stage, result);
    }
  }

  lemma EndedKeeps(before: Disk, r: Run, k: nat)
    requires RunOk(before, r, k) && k < |Stages()| && r.ended.Some?
    ensures RunOk(before, r, k + 1)
  {
    MoreStages(before.results, r.disk.results, r.calls, k);
  }

  lemma UnfinishedKeeps(before: Disk, s: Run, stage: Stage, e: Event, outcome: Outcome)
    requires RunOk(before, s, Index(stage)) && s.ended.None? && |s.disk.results| == Index(stage)
    requires e.status != Done && !outcome.Completed?
    ensures RunOk(before, EndWith(Log(Called(s, stage), e), outcome), Index(stage) + 1)
  {
    CalledKeeps(before, s, stage);
  }

  lemma FinishedKeeps(before: Disk, s: Run, stage: Stage, result: Record)
    requires RunOk(before, s, Index(stage)) && s.ended.None? && |s.disk.results| == Index(stage)
    ensures var t := Log(Publish(Called(s, stage), stage, result), Event(Some(stage), Done, Some(result)));
            RunOk(before, if t.ended.Some? then t else t.(outputs := t.outputs[stage := result]), Index(stage) + 1)
  {
    CalledKeeps(before, s, stage);
    if s.power > 0 {
      PublishKeeps(before, s, stage, result);
      PublishedThenLogged(before, s, stage, result);
    }
  }

  lemma PublishedThenLogged(before: Disk, s: Run, stage: Stage, result: Record)
    requires s.ended.None? && s.power > 0
    requires var called := s.(calls := s.calls + [Call(stage, s.outputs)]);
             RunOk(before, Publish(called, stage, result).(outputs := s.outputs[stage := result]), Index(stage) + 1)
    ensures var called := s.(calls := s.calls + [Call(stage, s.outputs)]);
            var t := Log(Publish(called, stage, result), Event(Some(stage), Done, Some(result)));
            RunOk(before, if t.ended.Some? then t else t.(outputs := t.outputs[stage := result]), Index(stage) + 1)
  {
    var called := s.(calls := s.calls + [Call(stage, s.outputs)]);
    var p := Publish(called, stage, result).(outputs := s.outputs[stage := result]);
    EventKeeps(before, p, Index(stage) + 1, Event(Some(stage), Done, Some(result)));
  }

  lemma OpenKeeps(disk: Disk, power: nat, settings: Record)
    requires DiskOk(disk)
    ensures RunOk(disk, Open(disk, power, settings), 0)
    ensures Open(disk, power, settings).ended.Some? ==> !Open(disk, power, settings).ended.value.Completed?
  {
    StartIsOk(disk, disk, power);
    if disk.manifest.None? && power > 0 {
      var pinned := disk.(manifest := Some(settings));
      StartIsOk(disk, pinned, power - 1);
      EventKeeps(disk, Run(pinned, power - 1, map[], [], None), 0, Event(None, Started, None));
    }
  }

  lemma StartIsOk(before: Disk, disk: Disk, power: nat)
    requires DiskOk(before) && disk.results == before.results && disk.events == before.events
    ensures RunOk(before, Run(disk, power, map[], [], None), 0)
  {
    NoOutputs(disk.results);
  }

  lemma NoOutputs(results: Outputs)
    ensures FirstOutputs(results, 0) == map[]
  {}

  lemma {:induction false} AdvanceToKeeps(before: Disk, r: Run, runners: Runners, k: nat)
    requires k <= |Stages()| && RunOk(before, r, 0) && (r.ended.Some? ==> !r.ended.value.Completed?)
    ensures RunOk(before, AdvanceTo(r, runners, k), k)
    ensures AdvanceTo(r, runners, k).ended.Some? ==> !AdvanceTo(r, runners, k).ended.value.Completed?
  {
    hide RunOk, Advance;
    if k > 0 {
      AdvanceToKeeps(before, r, runners, k - 1);
      IndexOfStage(k - 1);
      AdvanceKeeps(before, AdvanceTo(r, runners, k - 1), runners, Stages()[k - 1]);
    }
  }

  /** One run from a good directory: the results stay a prefix of the stages, none is overwritten,
      runners run only for stages without a result and see exactly the outputs of all earlier ones,
      and a completed run returns the results of all eight stages. */
  lemma RunKeeps(disk: Disk, settings: Record, runners: Runners, power: nat)
    requires DiskOk(disk)
    ensures RunOk(disk, RunAutoRag(disk, settings, runners, power), |Stages()|)
  {
    hide Open, AdvanceTo, CallsOk;
    var r := Open(disk, power, settings);
    OpenKeeps(disk, power, settings);
    AdvanceToKeeps(disk, r, runners, |Stages()|);
    var s := AdvanceTo(r, runners, |Stages()|);
    if s.ended.None? {
      EventKeeps(disk, s, |Stages()|, Event(None, Done, None));
      AllFirst(s.disk.results, |Stages()|);
    }
  }

  // --- any sequence of runs ------------------------------------------------------------------

  /** A run that ends in success, a pause, a failure, a refusal, or a kill after `power` writes. */
  datatype Attempt = Attempt(settings: Record, runners: Runners, power: nat)

  function RunOf(attempts: seq<Attempt>, i: nat): Run
    requires i < |attempts|
    decreases i, 1
  {
    var a := attempts[i];
    RunAutoRag(DiskBefore(attempts, i), a.settings, a.runners, a.power)
  }

  /** The directory before attempt `i`, starting from an empty one. */
  function DiskBefore(attempts: seq<Attempt>, i: nat): Disk
    requires i <= |attempts|
    decreases i, 0
  {
    if i == 0 then Disk(None, map[], []) else RunOf(attempts, i - 1).disk
  }

  lemma {:induction false} DirectoryIsOk(attempts: seq<Attempt>, i: nat)
    requires i <= |attempts|
    ensures DiskOk(DiskBefore(attempts, i))
  {
    if i > 0 {
      DirectoryIsOk(attempts, i - 1);
      var a := attempts[i - 1];
      RunKeeps(DiskBefore(attempts, i - 1), a.settings, a.runners, a.power);
    }
  }

  lemma {:induction false} ResultsOnlyGrow(attempts: seq<Attempt>, i: nat, j: nat)
    requires i <= j <= |attempts|
    ensures Extends(DiskBefore(attempts, i).results, DiskBefore(attempts, j).results)
  {
    if i < j {
      ResultsOnlyGrow(attempts, i, j - 1);
      DirectoryIsOk(attempts, j - 1);
      var a := attempts[j - 1];
      RunKeeps(DiskBefore(attempts, j - 1), a.settings, a.runners, a.power);
    }
  }

  /** Over any sequence of runs a completed stage is never run again, whatever ended the runs, and
      every runner that is called sees exactly the durable outputs of all earlier stages. */
  lemma CompletedStagesNeverRerun(attempts: seq<Attempt>, i: nat, j: nat, call: Call)
    requires i <= j < |attempts| && call in RunOf(attempts, j).calls
    ensures call.stage !in DiskBefore(attempts, i).results
    ensures HasFirst(call.seen, Index(call.stage))
    ensures Extends(call.seen, DiskBefore(attempts, |attempts|).results)
  {
    ResultsOnlyGrow(attempts, i, j);
    ResultsOnlyGrow(attempts, j + 1, |attempts|);
    DirectoryIsOk(attempts, j);
    var a := attempts[j];
    RunKeeps(DiskBefore(attempts, j), a.settings, a.runners, a.power);
    var n :| 0 <= n < |RunOf(attempts, j).calls| && RunOf(attempts, j).calls[n] == call;
    assert CallOk(DiskBefore(attempts, j).results, RunOf(attempts, j).disk.results, call, |Stages()|);
  }

  // --- the pinned settings -------------------------------------------------------------------

  /** A run whose settings are not those that the directory is pinned to calls no stage, writes
      nothing and ends in a refusal. */
  lemma OtherSettingsAreRefused(disk: Disk, settings: Record, runners: Runners, power: nat)
    requires disk.manifest.Some? && disk.manifest.value != settings
    ensures RunAutoRag(disk, settings, runners, power) == Run(disk, power, map[], [], Some(Refused))
  {
    EndedStays(Open(disk, power, settings), runners, 0);
  }

  /** Stages and the end of a run leave the manifest alone, and nothing but opening refuses. */
  lemma AdvanceKeepsPin(r: Run, runners: Runners, stage: Stage)
    ensures Advance(r, runners, stage).disk.manifest == r.disk.manifest
    ensures Advance(r, runners, stage).ended == Some(Refused) ==> r.ended == Some(Refused)
  {
    if r.ended.None? && stage !in r.disk.results {
      var s := Log(r, Event(Some(stage), Started, None));
      HandleKeepsPin(Called(s, stage), stage, runners(stage, s.outputs));
    }
  }

  lemma HandleKeepsPin(called: Run, stage: Stage, reply: Reply)
    ensures Handle(called, stage, reply).disk.manifest == called.disk.manifest
    ensures Handle(called, stage, reply).ended == Some(Refused) ==> called.ended == Some(Refused)
  {}

  lemma {:induction false} AdvanceToKeepsPin(r: Run, runners: Runners, k: nat)
    requires k <= |Stages()|
    ensures AdvanceTo(r, runners, k).disk.manifest == r.disk.manifest
    ensures AdvanceTo(r, runners, k).ended == Some(Refused) ==> r.ended == Some(Refused)
  {
    hide Advance, Stages;
    if k > 0 {
      AdvanceToKeepsPin(r, runners, k - 1);
      AdvanceKeepsPin(AdvanceTo(r, runners, k - 1), runners, Stages()[k - 1]);
    }
  }

  /** What one run does to the pin: a refusal means other settings; a run that is not refused and
      can write leaves its own settings pinned; one that cannot write leaves the pin as it is. */
  lemma RunPins(disk: Disk, a: Attempt)
    ensures var r := RunAutoRag(disk, a.settings, a.runners, a.power);
            && r.disk.manifest == (if disk.manifest.None? && a.power > 0 then Some(a.settings) else disk.manifest)
            && (r.ended == Some(Refused) <==> disk.manifest.Some? && disk.manifest.value != a.settings)
            && (r.calls != [] || (r.ended.Some? && r.ended.value.Completed?) ==> r.disk.manifest == Some(a.settings))
  {
    hide AdvanceTo, Stages;
    var r := Open(disk, a.power, a.settings);
    AdvanceToKeepsPin(r, a.runners, |Stages()|);
    if disk.manifest.Some? && disk.manifest.value != a.settings {
      OtherSettingsAreRefused(disk, a.settings, a.runners, a.power);
    } else if r.ended.Some? {
      NoStagesYet(r, a.runners);
      EndedStays(r, a.runners, 0);
    }
  }

  lemma NoStagesYet(r: Run, runners: Runners)
    ensures AdvanceTo(r, runners, 0) == r
  {}

  /** The settings of the first of the first `i` attempts that could write. */
  function PinnedBy(attempts: seq<Attempt>, i: nat): Option<Record>
    requires i <= |attempts|
  {
    if i == 0 then None
    else if PinnedBy(attempts, i - 1).Some? then PinnedBy(attempts, i - 1)
    else if attempts[i - 1].power > 0 then Some(attempts[i - 1].settings)
    else None
  }

  lemma {:induction false} FirstWriterPins(attempts: seq<Attempt>, i: nat)
    requires i <= |attempts|
    ensures DiskBefore(attempts, i).manifest == PinnedBy(attempts, i)
  {
    hide RunAutoRag;
    if i > 0 {
      FirstWriterPins(attempts, i - 1);
      RunPins(DiskBefore(attempts, i - 1), attempts[i - 1]);
    }
  }

  lemma {:induction false} PinStays(attempts: seq<Attempt>, i: nat, j: nat)
    requires i <= j <= |attempts| && PinnedBy(attempts, i).Some?
    ensures PinnedBy(attempts, j) == PinnedBy(attempts, i)
  {
    if i < j { PinStays(attempts, i, j - 1); }
  }

  /** Over any sequence of runs the directory keeps the settings of the first run that could write:
      a run is refused exactly if it comes later with other settings, and every run that calls a
      stage or completes has those settings. */
  lemma OnlyPinnedSettingsRun(attempts: seq<Attempt>, i: nat)
    requires i < |attempts|
    ensures var (r, a) := (RunOf(attempts, i), attempts[i]);
            && (r.ended == Some(Refused) <==> PinnedBy(attempts, i).Some? && PinnedBy(attempts, i) != Some(a.settings))
            && (r.ended == Some(Refused) ==> r.calls == [] && r.disk == DiskBefore(attempts, i))
            && (r.calls != [] || (r.ended.Some? && r.ended.value.Completed?) ==> PinnedBy(attempts, |attempts|) == Some(a.settings))
  {
    var (a, disk) := (attempts[i], DiskBefore(attempts, i));
    RunIs(attempts, i);
    if PinnedBy(attempts, i + 1).Some? { PinStays(attempts, i + 1, |attempts|); }
    hide *;
    FirstWriterPins(attempts, i);
    FirstWriterPins(attempts, i + 1);
    RunPins(disk, a);
    if disk.manifest.Some? && disk.manifest.value != a.settings {
      OtherSettingsAreRefused(disk, a.settings, a.runners, a.power);
    }
  }

  lemma RunIs(attempts: seq<Attempt>, i: nat)
    requires i < |attempts|
    ensures var a := attempts[i]; RunOf(attempts, i) == RunAutoRag(DiskBefore(attempts, i), a.settings, a.runners, a.power)
    ensures DiskBefore(attempts, i + 1) == RunOf(attempts, i).disk
  {
    hide RunAutoRag;
  }

  // --- deterministic stages ------------------------------------------------------------------

  /** Runners that, when they finish, return what the stage computes from the earlier outputs; they
      may still pause or fail at any time. */
  ghost predicate Computes(runners: Runners, f: (Stage, Outputs) -> Record) {
    forall stage, seen :: runners(stage, seen).Finished? ==> runners(stage, seen).result == f(stage, seen)
  }

  /** The outputs of the first `n` stages, each computed from those before it. */
  function Chain(f: (Stage, Outputs) -> Record, n: nat): Outputs
    requires n <= |Stages()|
  {
    if n == 0 then map[] else
    var (front, stage) := (Chain(f, n - 1), Stages()[n - 1]);
    front[stage := f(stage, front)]
  }

  /** The durable results are a start of the chain. */
  ghost predicate OnChain(f: (Stage, Outputs) -> Record, results: Outputs) {
    |results| <= |Stages()| && results == Chain(f, |results|)
  }

  lemma ChainNext(f: (Stage, Outputs) -> Record, stage: Stage)
    ensures Chain(f, Index(stage) + 1) == Chain(f, Index(stage))[stage := f(stage, Chain(f, Index(stage)))]
  {
    assert Stages()[Index(stage)] == stage;
  }

  /** A stage leaves the results alone or adds what its runner returned. */
  lemma ResultsAfterAdvance(r: Run, runners: Runners, stage: Stage)
    ensures var after := Advance(r, runners, stage).disk.results;
            || after == r.disk.results
            || (r.ended.None? && stage !in r.disk.results && runners(stage, r.outputs).Finished?
                && after == r.disk.results[stage := runners(stage, r.outputs).result])
  {
    if r.ended.None? && stage !in r.disk.results {
      var s := Log(r, Event(Some(stage), Started, None));
      HandledResults(Called(s, stage), stage, runners(stage, s.outputs));
    }
  }

  lemma HandledResults(called: Run, stage: Stage, reply: Reply)
    ensures var after := Handle(called, stage, reply).disk.results;
            after == called.disk.results || (reply.Finished? && after == called.disk.results[stage := reply.result])
  {}

  lemma AddToChain(f: (Stage, Outputs) -> Record, results: Outputs, stage: Stage)
    requires IsPrefix(results) && OnChain(f, results) && |results| == Index(stage)
    ensures FirstOutputs(results, Index(stage)) == results
    ensures OnChain(f, results[stage := f(stage, results)])
  {
    AddResult(results, stage, f(stage, results));
    ChainNext(f, stage);
  }

  lemma AdvanceStaysOnChain(before: Disk, r: Run, runners: Runners, stage: Stage, f: (Stage, Outputs) -> Record)
    requires RunOk(before, r, Index(stage)) && OnChain(f, r.disk.results)
    requires runners(stage, r.outputs).Finished? ==> runners(stage, r.outputs).result == f(stage, r.outputs)
    ensures OnChain(f, Advance(r, runners, stage).disk.results)
  {
    ResultsAfterAdvance(r, runners, stage);
    if r.ended.None? && stage !in r.disk.results {
      AddToChain(f, r.disk.results, stage);
    }
  }

  lemma OpenKeepsResults(disk: Disk, power: nat, settings: Record)
    ensures Open(disk, power, settings).disk.results == disk.results
  {}

  lemma {:induction false} RunStaysOnChain(disk: Disk, r: Run, runners: Runners, f: (Stage, Outputs) -> Record, k: nat)
    requires RunOk(disk, r, 0) && (r.ended.Some? ==> !r.ended.value.Completed?)
    requires OnChain(f, r.disk.results) && Computes(runners, f) && k <= |Stages()|
    ensures OnChain(f, AdvanceTo(r, runners, k).disk.results)
  {
    hide RunOk, Advance, OnChain;
    if k > 0 {
      RunStaysOnChain(disk, r, runners, f, k - 1);
      AdvanceToKeeps(disk, r, runners, k - 1);
      IndexOfStage(k - 1);
      AdvanceStaysOnChain(disk, AdvanceTo(r, runners, k - 1), runners, Stages()[k - 1], f);
    }
  }

  lemma CloseKeepsResults(r: Run)
    ensures Close(r).disk.results == r.disk.results
  {}

  lemma AttemptStaysOnChain(disk: Disk, a: Attempt, f: (Stage, Outputs) -> Record)
    requires DiskOk(disk) && OnChain(f, disk.results) && Computes(a.runners, f)
    ensures OnChain(f, RunAutoRag(disk, a.settings, a.runners, a.power).disk.results)
  {
    hide Open, Close, AdvanceTo, OnChain, RunOk;
    var r := Open(disk, a.power, a.settings);
    OpenKeeps(disk, a.power, a.settings);
    OpenKeepsResults(disk, a.power, a.settings);
    RunStaysOnChain(disk, r, a.runners, f, |Stages()|);
    CloseKeepsResults(AdvanceTo(r, a.runners, |Stages()|));
  }

  lemma {:induction false} DirectoryIsOnChain(attempts: seq<Attempt>, f: (Stage, Outputs) -> Record, i: nat)
    requires i <= |attempts| && forall j | 0 <= j < |attempts| :: Computes(attempts[j].runners, f)
    ensures OnChain(f, DiskBefore(attempts, i).results)
  {
    hide Computes, OnChain, RunAutoRag, DiskOk;
    if i > 0 {
      DirectoryIsOnChain(attempts, f, i - 1);
      DirectoryIsOk(attempts, i - 1);
      AttemptStaysOnChain(DiskBefore(attempts, i - 1), attempts[i - 1], f);
    } else {
      NothingIsOnChain(f);
    }
  }

  lemma NothingIsOnChain(f: (Stage, Outputs) -> Record)
    ensures OnChain(f, map[])
  {}

  // --- when a run completes ------------------------------------------------------------------

  /** Every stage that is run returns a result. */
  ghost predicate AlwaysFinishes(runners: Runners) {
    forall stage, seen :: runners(stage, seen).Finished?
  }

  /** The directory is new, or pinned to the same settings. */
  predicate Admits(disk: Disk, settings: Record) {
    disk.manifest.None? || disk.manifest.value == settings
  }

  lemma OpenLives(disk: Disk, power: nat, settings: Record)
    requires Admits(disk, settings) && power >= 2
    ensures Open(disk, power, settings).ended.None? && Open(disk, power, settings).power >= power - 2
  {}

  lemma AdvanceLives(r: Run, runners: Runners, stage: Stage)
    requires r.ended.None? && r.power >= 3 && AlwaysFinishes(runners)
    ensures Advance(r, runners, stage).ended.None? && Advance(r, runners, stage).power >= r.power - 3
  {}

  lemma {:induction false} AdvanceToLives(r: Run, runners: Runners, k: nat)
    requires k <= |Stages()| && r.ended.None? && r.power >= 3 * k && AlwaysFinishes(runners)
    ensures AdvanceTo(r, runners, k).ended.None? && AdvanceTo(r, runners, k).power >= r.power - 3 * k
  {
    hide Advance, AlwaysFinishes, Stages;
    if k > 0 {
      AdvanceToLives(r, runners, k - 1);
      AdvanceLives(AdvanceTo(r, runners, k - 1), runners, Stages()[k - 1]);
    }
  }

  /** A run completes if its stages finish and 27 writes remain: two to open the directory, three
      for each of the eight stages, and one to close. */
  lemma EnoughWritesComplete(disk: Disk, settings: Record, runners: Runners, power: nat)
    requires Admits(disk, settings) && AlwaysFinishes(runners) && power >= 27
    ensures var ended := RunAutoRag(disk, settings, runners, power).ended; ended.Some? && ended.value.Completed?
  {
    hide Open, AdvanceTo, AlwaysFinishes, Stages;
    OpenLives(disk, power, settings);
    AdvanceToLives(Open(disk, power, settings), runners, |Stages()|);
  }

  /** With deterministic stages, the run that completes after any sequence of pauses, failures and
      kills returns the outputs that a single uninterrupted run returns; and that run completes too
      if its stages finish and its writes suffice. */
  lemma ResumedOutputs(attempts: seq<Attempt>, f: (Stage, Outputs) -> Record, i: nat, alone: Attempt)
    requires i < |attempts| && forall j | 0 <= j < |attempts| :: Computes(attempts[j].runners, f)
    requires Computes(alone.runners, f)
    ensures RunOf(attempts, i).ended.Some? && RunOf([alone], 0).ended.Some?
    ensures AlwaysFinishes(alone.runners) && alone.power >= 27 ==> RunOf([alone], 0).ended.value.Completed?
    ensures RunOf(attempts, i).ended.value.Completed? ==> RunOf(attempts, i).ended.value.outputs == Chain(f, |Stages()|)
    ensures RunOf(attempts, i).ended.value.Completed? && RunOf([alone], 0).ended.value.Completed? ==>
              RunOf(attempts, i).ended.value.outputs == RunOf([alone], 0).ended.value.outputs
  {
    CompletedIsChain(attempts, f, i);
    CompletedIsChain([alone], f, 0);
    if AlwaysFinishes(alone.runners) && alone.power >= 27 {
      hide RunAutoRag, AlwaysFinishes, Computes;
      EnoughWritesComplete(DiskBefore([alone], 0), alone.settings, alone.runners, alone.power);
    }
  }

  lemma CompletedIsChain(attempts: seq<Attempt>, f: (Stage, Outputs) -> Record, i: nat)
    requires i < |attempts| && forall j | 0 <= j < |attempts| :: Computes(attempts[j].runners, f)
    ensures RunOf(attempts, i).ended.Some?
    ensures RunOf(attempts, i).ended.value.Completed? ==> RunOf(attempts, i).ended.value.outputs == Chain(f, |Stages()|)
  {
    DirectoryIsOk(attempts, i);
    DirectoryIsOnChain(attempts, f, i + 1);
    var a := attempts[i];
    RunKeeps(DiskBefore(attempts, i), a.settings, a.runners, a.power);
    assert DiskBefore(attempts, i + 1) == RunOf(attempts, i).disk;
  }
}
