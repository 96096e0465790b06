/** The choice of a backend and source: candidates in priority order, and the first that runs. */
module Resolver {
  import opened Text
  import opened RuntimeFloor

  /** A source with its overrides; a field that is absent falls back to the model's own. */
  datatype SourceRecord = SourceRecord(source: string, minRuntimeVersion: Option<string>, runtimeArch: Option<string>, quant: Option<string>)

  datatype Spec = Spec(backend: string, source: string, minRuntimeVersion: Option<string>, runtimeArch: Option<string>,
                       sources: map<string, seq<SourceRecord>>)

  /** What the host answers about a candidate. */
  datatype Host = Host(bits: (string, SourceRecord) -> Option<real>,
                       runtime: string -> Option<string>,
                       artifact: (string, string) -> Option<Requirement>,
                       present: (string, string) -> bool,
                       fits: (string, SourceRecord) -> bool,
                       verdict: (string, SourceRecord) -> string)

  /** A candidate: the record declared at position `index` for `backend`. */
  datatype Candidate = Candidate(backend: string, index: nat, record: SourceRecord)

  function Priority(): (r: seq<string>)
    ensures |r| == 3
  {
    ["vllm", "ollama", "llamacpp"]
  }

  /** The declared sources; the model's own backend has its own source unless it declares others. */
  function Declared(spec: Spec): map<string, seq<SourceRecord>> {
    if spec.backend in spec.sources then spec.sources
    else spec.sources[spec.backend := [SourceRecord(spec.source, None, None, None)]]
  }

  function RecordsOf(spec: Spec, backend: string): seq<SourceRecord> {
    if backend in Declared(spec) then Declared(spec)[backend] else []
  }

  /** Bits per weight, or -1 where they are unknown. */
  function Quality(host: Host, backend: string, record: SourceRecord): real {
    var bits := host.bits(backend, record);
    if bits.Some? then bits.value else -1.0
  }

  // --- the stable sort, on positions ---------------------------------------------------------

  /** Higher quality first, and the earlier position among equals. */
  predicate RanksBefore(q: seq<real>, i: nat, j: nat)
    requires i < |q| && j < |q|
  {
    q[i] > q[j] || (q[i] == q[j] && i < j)
  }

  predicate AreWithin(order: seq<nat>, n: nat) {
    forall k | 0 <= k < |order| :: order[k] < n
  }

  /** Positions in rank order: each comes before all later ones. */
  ghost predicate IsRanked(q: seq<real>, order: seq<nat>)
    requires AreWithin(order, |q|)
  {
    forall k, l | 0 <= k < l < |order| :: RanksBefore(q, order[k], order[l])
  }

  /** Puts position `i` after every position whose quality is at least as high. */
  function InsertLast(q: seq<real>, order: seq<nat>, i: nat): (r: seq<nat>)
    requires i < |q| && AreWithin(order, |q|)
    ensures AreWithin(r, |q|)
    decreases |order|
  {
    if order == [] || q[order[|order| - 1]] >= q[i] then order + [i]
    else
      var (r, last) := (InsertLast(q, order[..|order| - 1], i), order[|order| - 1]);
      assert last < |q|;
      r + [last]
  }

  /** The positions below `n`, stably sorted by descending quality. */
  function Ranking(q: seq<real>, n: nat): (r: seq<nat>)
    requires n <= |q|
    ensures AreWithin(r, |q|)
  {
    if n == 0 then [] else InsertLast(q, Ranking(q, n - 1), n - 1)
  }

  lemma {:induction false} InsertLastRanks(q: seq<real>, order: seq<nat>, i: nat)
    requires i < |q| && AreWithin(order, i) && IsRanked(q, order)
    ensures IsRanked(q, InsertLast(q, order, i))
    ensures forall x: nat :: x in InsertLast(q, order, i) <==> x == i || x in order
    decreases |order|
  {
    if order != [] && q[order[|order| - 1]] < q[i] {
      var (front, last) := (order[..|order| - 1], order[|order| - 1]);
      InsertLastRanks(q, front, i);
      assert order == front + [last];
      var r := InsertLast(q, front, i);
      forall k | 0 <= k < |r| ensures RanksBefore(q, r[k], last) {
        assert r[k] in r;
        if r[k] in front {
          var l :| 0 <= l < |front| && front[l] == r[k];
          assert RanksBefore(q, order[l], order[|order| - 1]);
        }
      }
    } else if order != [] {
      forall k | 0 <= k < |order| ensures RanksBefore(q, order[k], i) {
        assert k < |order| - 1 ==> RanksBefore(q, order[k], order[|order| - 1]);
      }
    }
  }

  /** The ranking holds every position, best first, ties in declared order. */
  lemma {:induction false} RankingIsStable(q: seq<real>, n: nat)
    requires n <= |q|
    ensures AreWithin(Ranking(q, n), n) && IsRanked(q, Ranking(q, n))
    ensures forall x: nat :: x in Ranking(q, n) <==> x < n
  {
    hide RanksBefore, InsertLast;
    if n > 0 {
      RankingIsStable(q, n - 1);
      InsertLastRanks(q, Ranking(q, n - 1), n - 1);
      forall k | 0 <= k < |Ranking(q, n)| ensures Ranking(q, n)[k] < n {
        assert Ranking(q, n)[k] in Ranking(q, n);
      }
    }
  }

  // --- candidates ----------------------------------------------------------------------------

  function Qualities(host: Host, backend: string, records: seq<SourceRecord>): (q: seq<real>)
    ensures |q| == |records|
  {
    seq(|records|, i requires 0 <= i < |records| => Quality(host, backend, records[i]))
  }

  /** The candidates of one backend, best quality first. */
  function CandidatesOf(host: Host, spec: Spec, backend: string): seq<Candidate> {
    var records := RecordsOf(spec, backend);
    var order := Ranking(Qualities(host, backend, records), |records|);
    seq(|order|, k requires 0 <= k < |order| => Candidate(backend, order[k], records[order[k]]))
  }

  /** The candidates of the first `n` backends by priority. */
  function CandidatesUpTo(host: Host, spec: Spec, n: nat): seq<Candidate>
    requires n <= 3
  {
    if n == 0 then [] else CandidatesUpTo(host, spec, n - 1) + CandidatesOf(host, spec, Priority()[n - 1])
  }

  /** The candidates, backend by backend in priority order. */
  method CandidateSources(host: Host, spec: Spec) returns (out: seq<Candidate>)
    ensures out == CandidatesUpTo(host, spec, 3)
  {
    out := [];
    for i := 0 to 3
      invariant out == CandidatesUpTo(host, spec, i)
    {
      out := out + CandidatesOf(host, spec, Priority()[i]);
    }
  }

  function Rank(backend: string): nat {
    if backend == "vllm" then 0 else if backend == "ollama" then 1 else 2
  }

  predicate IsCandidate(spec: Spec, c: Candidate) {
    c.backend in Priority() && c.index < |RecordsOf(spec, c.backend)| && c.record == RecordsOf(spec, c.backend)[c.index]
  }

  /** A better backend, or on the same one a better quality, or the earlier of equals. */
  predicate IsPreferred(host: Host, a: Candidate, b: Candidate) {
    var (p, q) := (Quality(host, a.backend, a.record), Quality(host, b.backend, b.record));
    Rank(a.backend) < Rank(b.backend) || (a.backend == b.backend && (p > q || (p == q && a.index < b.index)))
  }

  ghost predicate InPreference(host: Host, cs: seq<Candidate>) {
    forall i, j | 0 <= i < j < |cs| :: IsPreferred(host, cs[i], cs[j])
  }

  lemma CandidatesOfOne(host: Host, spec: Spec, backend: string)
    requires backend in Priority()
    ensures InPreference(host, CandidatesOf(host, spec, backend))
    ensures forall c :: c in CandidatesOf(host, spec, backend) <==> IsCandidate(spec, c) && c.backend == backend
  {
    var records := RecordsOf(spec, backend);
    var q := Qualities(host, backend, records);
    var (order, cs) := (Ranking(q, |records|), CandidatesOf(host, spec, backend));
    RankingIsStable(q, |records|);
    forall i, j | 0 <= i < j < |cs| ensures IsPreferred(host, cs[i], cs[j]) {
      assert RanksBefore(q, order[i], order[j]);
    }
    forall c ensures c in cs <==> IsCandidate(spec, c) && c.backend == backend {
      if IsCandidate(spec, c) && c.backend == backend {
        assert c.index in order;
        var k :| 0 <= k < |order| && order[k] == c.index;
        assert cs[k] == c;
      }
    }
  }

  lemma {:induction false} CandidatesUpToRanked(host: Host, spec: Spec, n: nat)
    requires n <= 3
    ensures InPreference(host, CandidatesUpTo(host, spec, n))
    ensures forall c :: c in CandidatesUpTo(host, spec, n) <==> IsCandidate(spec, c) && Rank(c.backend) < n
  {
    hide CandidatesOf, RecordsOf, Quality;
    if n > 0 {
      var (front, back) := (CandidatesUpTo(host, spec, n - 1), CandidatesOf(host, spec, Priority()[n - 1]));
      CandidatesUpToRanked(host, spec, n - 1);
      CandidatesOfOne(host, spec, Priority()[n - 1]);
      forall i, j | 0 <= i < |front| && 0 <= j < |back| ensures IsPreferred(host, front[i], back[j]) {
        assert front[i] in front && back[j] in back;
      }
    }
  }

  /** The candidates are just the declared sources of known backends, in order of preference. */
  lemma CandidatesAreRanked(host: Host, spec: Spec)
    ensures InPreference(host, CandidatesUpTo(host, spec, 3))
    ensures forall c :: c in CandidatesUpTo(host, spec, 3) <==> IsCandidate(spec, c)
  {
    CandidatesUpToRanked(host, spec, 3);
  }

  // --- the choice ----------------------------------------------------------------------------

  /** The pin of a candidate: its own override, else the model's; an empty one is no pin. */
  function Pin(spec: Spec, record: SourceRecord): Requirement {
    var arch := if record.runtimeArch.Some? then record.runtimeArch else spec.runtimeArch;
    var floor := if record.minRuntimeVersion.Some? then record.minRuntimeVersion else spec.minRuntimeVersion;
    Requirement(if arch == Some("") then None else arch, if floor == Some("") then None else floor)
  }

  function FloorSkip(host: Host, spec: Spec, c: Candidate): Option<Skip> {
    SourceFloorSkip(c.backend, c.record.source, Pin(spec, c.record), host.runtime(c.backend), host.artifact(c.backend, c.record.source))
  }

  datatype Row = Row(candidate: Candidate, skip: Option<Skip>, available: bool, runnable: bool, verdict: string)

  function RowOf(host: Host, spec: Spec, c: Candidate): Row {
    var skip := FloorSkip(host, spec, c);
    var available := skip.None? && host.present(c.backend, c.record.source);
    Row(c, skip, available, available && host.fits(c.backend, c.record), host.verdict(c.backend, c.record))
  }

  datatype Resolved = Resolved(chosen: Option<Candidate>, verdict: string, rows: seq<Row>)

  predicate Runs(host: Host, spec: Spec, c: Candidate) {
    RowOf(host, spec, c).runnable
  }

  /** `chosen` is the preferred one of all declared candidates that run, and there is none only
      when none of them runs. */
  ghost predicate IsBest(host: Host, spec: Spec, chosen: Option<Candidate>) {
    match chosen
    case None => forall c | IsCandidate(spec, c) :: !Runs(host, spec, c)
    case Some(best) =>
      && IsCandidate(spec, best) && Runs(host, spec, best)
      && forall c | IsCandidate(spec, c) && Runs(host, spec, c) :: c == best || IsPreferred(host, best, c)
  }

  // --- the choice, from what the host answers ------------------------------------------------

  /** The runtime of a candidate is old: its version is below what the candidate's own record pins
      or, if that pins nothing, the model, or below what the artifact asks; an unreadable pin of
      the two rules that out. */
  predicate IsOutdated(host: Host, spec: Spec, c: Candidate) {
    var pin := if c.record.minRuntimeVersion.Some? then c.record.minRuntimeVersion else spec.minRuntimeVersion;
    var (running, artifact) := (host.runtime(c.backend), host.artifact(c.backend, c.record.source));
    if pin.Some? && pin.value != "" && ParseVersion(pin).None? then false
    else IsBelow(running, pin) || (artifact.Some? && IsBelow(running, artifact.value.minVersion))
  }

  /** The host can serve a candidate. */
  predicate CanServe(host: Host, spec: Spec, c: Candidate) {
    host.present(c.backend, c.record.source) && host.fits(c.backend, c.record) && !IsOutdated(host, spec, c)
  }

  lemma RunsIff(host: Host, spec: Spec, c: Candidate)
    ensures FloorSkip(host, spec, c).Some? <==> IsOutdated(host, spec, c)
    ensures Runs(host, spec, c) <==> CanServe(host, spec, c)
  {
    hide ParseVersion, TupleLess;
    NoneIsNoVersion();
    NoNumberIsNoVersion();
  }

  lemma NoNumberIsNoVersion()
    ensures ParseVersion(Some("")) == None
  {}

  /** More bits per weight, or as many and declared earlier; unknown ones count as -1. */
  predicate HasBetterBits(host: Host, a: Candidate, b: Candidate) {
    match (host.bits(a.backend, a.record), host.bits(b.backend, b.record))
    case (Some(x), Some(y)) => x > y || (x == y && a.index < b.index)
    case (Some(x), None) => x > -1.0 || (x == -1.0 && a.index < b.index)
    case (None, Some(y)) => y < -1.0 || (y == -1.0 && a.index < b.index)
    case (None, None) => a.index < b.index
  }

  /** vLLM before Ollama before llama.cpp, and on one backend the better bits. */
  predicate ComesFirst(host: Host, a: Candidate, b: Candidate) {
    || (a.backend == "vllm" && b.backend != "vllm")
    || (a.backend == "ollama" && b.backend == "llamacpp")
    || (a.backend == b.backend && HasBetterBits(host, a, b))
  }

  /** A source that is declared for a backend, or the model's own if none is declared for its own. */
  predicate IsDeclared(spec: Spec, c: Candidate) {
    && (c.backend == "vllm" || c.backend == "ollama" || c.backend == "llamacpp")
    && if c.backend in spec.sources
       then c.index < |spec.sources[c.backend]| && c.record == spec.sources[c.backend][c.index]
       else c.backend == spec.backend && c.index == 0 && c.record == SourceRecord(spec.source, None, None, None)
  }

  lemma CandidateIff(host: Host, spec: Spec, a: Candidate, b: Candidate)
    ensures IsCandidate(spec, a) <==> IsDeclared(spec, a)
    ensures IsDeclared(spec, a) && IsDeclared(spec, b) ==> (IsPreferred(host, a, b) <==> ComesFirst(host, a, b))
  {}

  /** The choice is a declared source that the host can serve, and comes first of all such. */
  ghost predicate IsChoice(host: Host, spec: Spec, chosen: Option<Candidate>) {
    match chosen
    case None => forall c | IsDeclared(spec, c) :: !CanServe(host, spec, c)
    case Some(best) =>
      && IsDeclared(spec, best) && CanServe(host, spec, best)
      && forall c | IsDeclared(spec, c) && CanServe(host, spec, c) :: c == best || ComesFirst(host, best, c)
  }

  lemma BestIsChoice(host: Host, spec: Spec, chosen: Option<Candidate>)
    ensures IsBest(host, spec, chosen) <==> IsChoice(host, spec, chosen)
  {
    hide Runs, CanServe, IsCandidate, IsDeclared, IsPreferred, ComesFirst;
    forall c ensures (IsCandidate(spec, c) <==> IsDeclared(spec, c)) && (Runs(host, spec, c) <==> CanServe(host, spec, c)) {
      CandidateIff(host, spec, c, c);
      RunsIff(host, spec, c);
    }
    if chosen.Some? {
      var best := chosen.value;
      forall c | IsDeclared(spec, best) && IsDeclared(spec, c)
        ensures IsPreferred(host, best, c) <==> ComesFirst(host, best, c)
      {
        CandidateIff(host, spec, best, c);
      }
    }
  }

  /** The report lists the declared sources, best first, and says of each what the host answers. */
  ghost predicate IsReport(host: Host, spec: Spec, rows: seq<Row>) {
    && (forall i, j | 0 <= i < j < |rows| :: ComesFirst(host, rows[i].candidate, rows[j].candidate))
    && (forall c | IsDeclared(spec, c) :: exists i :: 0 <= i < |rows| && rows[i].candidate == c)
    && (forall i | 0 <= i < |rows| :: IsRowOf(host, spec, rows[i]))
  }

  /** The architecture of a skip: the artifact's, or else the record's, or else the model's; an empty
      one of the artifact counts for nothing, and an empty pin for none. */
  function NamedArch(spec: Spec, record: SourceRecord, own: Option<string>): Option<string> {
    var pinned := if record.runtimeArch.Some? then record.runtimeArch else spec.runtimeArch;
    if own.Some? && own.value != "" then own else if pinned.Some? && pinned.value != "" then pinned else None
  }

  /** A skip names the candidate, the runtime's version, the architecture and a floor that the
      runtime is below. */
  ghost predicate NamesItsCause(host: Host, spec: Spec, c: Candidate, skip: Skip) {
    var own := host.artifact(c.backend, c.record.source);
    && skip.backend == c.backend && skip.source == c.record.source && host.runtime(c.backend) == Some(skip.running)
    && skip.requirement.arch == NamedArch(spec, c.record, if own.None? then None else own.value.arch)
    && IsBelow(Some(skip.running), skip.requirement.minVersion)
  }

  lemma SkipNamesItsCause(host: Host, spec: Spec, c: Candidate)
    ensures FloorSkip(host, spec, c).Some? ==> NamesItsCause(host, spec, c, FloorSkip(host, spec, c).value)
  {
    hide IsBelow;
  }

  ghost predicate IsRowOf(host: Host, spec: Spec, row: Row) {
    var c := row.candidate;
    && IsDeclared(spec, c)
    && (row.skip.Some? <==> IsOutdated(host, spec, c))
    && (row.skip.Some? ==> NamesItsCause(host, spec, c, row.skip.value))
    && (row.available <==> host.present(c.backend, c.record.source) && !IsOutdated(host, spec, c))
    && (row.runnable <==> CanServe(host, spec, c))
    && row.verdict == host.verdict(c.backend, c.record)
  }

  lemma RowsAreReport(host: Host, spec: Spec, rows: seq<Row>)
    requires |rows| == |CandidatesUpTo(host, spec, 3)|
    requires forall i | 0 <= i < |rows| :: rows[i] == RowOf(host, spec, CandidatesUpTo(host, spec, 3)[i])
    ensures IsReport(host, spec, rows)
  {
    var cs := CandidatesUpTo(host, spec, 3);
    CandidatesAreRanked(host, spec);
    hide CandidatesUpTo, IsCandidate, IsDeclared, IsPreferred, ComesFirst, FloorSkip, IsOutdated, CanServe;
    forall i | 0 <= i < |rows| ensures IsRowOf(host, spec, rows[i]) && rows[i].candidate == cs[i] {
      assert cs[i] in cs;
      CandidateIff(host, spec, cs[i], cs[i]);
      RowIsOf(host, spec, cs[i]);
    }
    forall i, j | 0 <= i < j < |rows| ensures ComesFirst(host, rows[i].candidate, rows[j].candidate) {
      CandidateIff(host, spec, cs[i], cs[j]);
      assert IsRowOf(host, spec, rows[i]) && IsRowOf(host, spec, rows[j]);
    }
    forall c | IsDeclared(spec, c) ensures exists i :: 0 <= i < |rows| && rows[i].candidate == c {
      CandidateIff(host, spec, c, c);
      var i :| 0 <= i < |cs| && cs[i] == c;
      assert rows[i].candidate == c;
    }
  }

  lemma RowIsOf(host: Host, spec: Spec, c: Candidate)
    requires IsDeclared(spec, c)
    ensures IsRowOf(host, spec, RowOf(host, spec, c)) && RowOf(host, spec, c).candidate == c
  {
    hide FloorSkip, IsOutdated, NamesItsCause;
    RunsIff(host, spec, c);
    SkipNamesItsCause(host, spec, c);
  }

  /** Resolves one model: the first candidate that runs is chosen, and all are reported. */
  method Resolve(host: Host, spec: Spec) returns (r: Resolved)
    ensures IsBest(host, spec, r.chosen) && IsChoice(host, spec, r.chosen)
    ensures |r.rows| == |CandidatesUpTo(host, spec, 3)|
    ensures forall i | 0 <= i < |r.rows| :: r.rows[i] == RowOf(host, spec, CandidatesUpTo(host, spec, 3)[i])
    ensures IsReport(host, spec, r.rows)
    ensures r.verdict == match r.chosen case None => "no" case Some(c) => if c.backend == "vllm" then "gpu" else host.verdict(c.backend, c.record)
  {
    hide CandidatesUpTo, FloorSkip, IsBest, IsChoice, IsReport;
    var candidates := CandidateSources(host, spec);
    var rows: seq<Row> := [];
    var chosen: Option<Candidate> := None;
    for i := 0 to |candidates|
      invariant |rows| == i && forall k | 0 <= k < i :: rows[k] == RowOf(host, spec, candidates[k])
      invariant chosen.None? ==> forall k | 0 <= k < i :: !Runs(host, spec, candidates[k])
      invariant chosen.Some? ==> exists k | 0 <= k < i :: IsFirstToRun(host, spec, candidates, k) && candidates[k] == chosen.value
    {
      var row := RowOf(host, spec, candidates[i]);
      rows := rows + [row];
      if row.runnable && chosen.None? {
        chosen := Some(candidates[i]);
        assert IsFirstToRun(host, spec, candidates, i);
      }
    }
    FirstToRunIsBest(host, spec, candidates, chosen);
    BestIsChoice(host, spec, chosen);
    RowsAreReport(host, spec, rows);
    var verdict := match chosen
      case None => "no"
      case Some(c) => if c.backend == "vllm" then "gpu" else host.verdict(c.backend, c.record);
    r := Resolved(chosen, verdict, rows);
  }

  ghost predicate IsFirstToRun(host: Host, spec: Spec, cs: seq<Candidate>, k: nat)
    requires k < |cs|
  {
    Runs(host, spec, cs[k]) && forall i | 0 <= i < k :: !Runs(host, spec, cs[i])
  }

  lemma FirstToRunIsBest(host: Host, spec: Spec, cs: seq<Candidate>, chosen: Option<Candidate>)
    requires cs == CandidatesUpTo(host, spec, 3)
    requires match chosen
             case None => forall k | 0 <= k < |cs| :: !Runs(host, spec, cs[k])
             case Some(best) => exists k | 0 <= k < |cs| :: IsFirstToRun(host, spec, cs, k) && cs[k] == best
    ensures IsBest(host, spec, chosen)
  {
    hide Runs, CandidatesUpTo, IsCandidate, IsPreferred;
    CandidatesAreRanked(host, spec);
    forall c | IsCandidate(spec, c) && Runs(host, spec, c)
      ensures chosen.Some? && (c == chosen.value || IsPreferred(host, chosen.value, c))
    {
      var i :| 0 <= i < |cs| && cs[i] == c;
      if chosen.Some? {
        var k :| 0 <= k < |cs| && IsFirstToRun(host, spec, cs, k) && cs[k] == chosen.value;
        assert k < i ==> IsPreferred(host, cs[k], cs[i]);
      }
    }
  }

  /** A candidate whose runtime is below its pin or below what its artifact asks never runs, as
      long as the pin is readable. */
  lemma BelowEitherFloorNeverRuns(host: Host, spec: Spec, c: Candidate)
    requires !IsUnreadable(Pin(spec, c.record).minVersion)
    ensures var (running, own) := (host.runtime(c.backend), host.artifact(c.backend, c.record.source));
            (IsBelow(running, Pin(spec, c.record).minVersion) || (own.Some? && IsBelow(running, own.value.minVersion)))
            ==> !Runs(host, spec, c)
  {
    var own := host.artifact(c.backend, c.record.source);
    if own.Some? { MergeSkipsAsEither(Pin(spec, c.record), own.value, host.runtime(c.backend)); }
  }
}
