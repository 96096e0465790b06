/** One case's calls: bounded retries in rounds, with a bounded number of backend relaunches. */
module Retry {
  import opened Contracts
  import opened Cases

  datatype Policy = Policy(maxCaseRetries: int, retryBackoff: real, maxBackendRelaunches: int, backoffCap: real)

  /** The run's tallies: calls of the runner, retries, relaunches, and every wait in order. */
  datatype Tally = Tally(calls: nat, caseRetries: nat, backendRelaunches: nat, waits: seq<real>)

  /** The terminal states the runner returns, by case and by position among all calls of the run. */
  type Runner = (Item, nat) -> State

  /** A terminal state that reports a transport failure rather than an outcome. */
  predicate IsRetryable(s: State) {
    STATUS in s && (s[STATUS] == Str("timeout") || s[STATUS] == Str("backend_error"))
  }

  /** A journaled case is as much a transport failure as it was when it ended. */
  lemma JournalKeepsFailures(s: State)
    ensures IsRetryable(Trim(s)) <==> IsRetryable(s)
  {
    assert IsJournaled(STATUS);
  }

  /** Call number `at` meets a transport failure. */
  predicate Fails(run: Runner, item: Item, at: nat) {
    IsRetryable(run(item, at))
  }

  function RetriesPerRound(p: Policy): nat {
    if p.maxCaseRetries > 0 then p.maxCaseRetries else 0
  }

  /** The rounds a case may take; without a relaunch hook there is only one. */
  function Rounds(p: Policy, canRelaunch: bool): nat {
    1 + if canRelaunch && p.maxBackendRelaunches > 0 then p.maxBackendRelaunches else 0
  }

  /** The largest number of calls one case may take. */
  function CallBudget(p: Policy, canRelaunch: bool): nat {
    Times(Rounds(p, canRelaunch), RetriesPerRound(p) + 1)
  }

  /** `k * n` by addition. */
  function Times(k: nat, n: nat): nat {
    if k == 0 then 0 else Times(k - 1, n) + n
  }

  /** The call budget is the product of the rounds and the calls of a round. */
  lemma {:induction false} TimesIsProduct(k: nat, n: nat)
    ensures Times(k, n) == k * n
  {
    if k > 0 {
      TimesIsProduct(k - 1, n);
      assert k * n == (k - 1) * n + n;
    }
  }

  /** The uncapped wait: the base doubled `attempt` times. */
  function Delay(p: Policy, attempt: nat): real {
    if attempt == 0 then p.retryBackoff else 2.0 * Delay(p, attempt - 1)
  }

  function Backoff(p: Policy, attempt: nat): real {
    if Delay(p, attempt) <= p.backoffCap then Delay(p, attempt) else p.backoffCap
  }

  lemma {:induction false} DelayGrows(p: Policy, a: nat, b: nat)
    requires p.retryBackoff >= 0.0 && a <= b
    ensures 0.0 <= Delay(p, a) <= Delay(p, b)
  {
    if b > 0 {
      DelayGrows(p, if a < b then a else b - 1, b - 1);
    }
  }

  /** Within a round the waits never shrink and never exceed the cap. */
  lemma BackoffGrowsToTheCap(p: Policy, a: nat, b: nat)
    requires p.retryBackoff >= 0.0 && a <= b
    ensures Backoff(p, a) <= Backoff(p, b) <= p.backoffCap
  {
    DelayGrows(p, a, b);
  }

  /** How many of the next `budget` replies are transport failures before the first real outcome;
      `budget` when all are. */
  function FailuresBefore(run: Runner, item: Item, at: nat, budget: nat): (n: nat)
    ensures n <= budget
    decreases budget
  {
    if budget == 0 || !Fails(run, item, at) then 0 else FailuresBefore(run, item, at + 1, budget - 1) + 1
  }

  lemma {:induction false} FailureAt(run: Runner, item: Item, at: nat, budget: nat, j: nat)
    requires j < budget && j <= FailuresBefore(run, item, at, budget)
    ensures j < FailuresBefore(run, item, at, budget) <==> Fails(run, item, at + j)
    decreases budget
  {
    if j > 0 {
      FailureAt(run, item, at + 1, budget - 1, j - 1);
    }
  }

  /** The calls one case takes: up to its first real outcome, or its whole budget. */
  function CaseCalls(p: Policy, canRelaunch: bool, run: Runner, item: Item, at: nat): (n: nat)
    ensures 1 <= n <= CallBudget(p, canRelaunch)
  {
    var budget := CallBudget(p, canRelaunch);
    var n := FailuresBefore(run, item, at, budget);
    if n < budget then n + 1 else n
  }

  /** No call follows a real outcome, and a transport failure is returned only by the last call of
      the budget. */
  lemma CaseCallsAreNeeded(p: Policy, canRelaunch: bool, run: Runner, item: Item, at: nat, j: nat)
    requires j < CaseCalls(p, canRelaunch, run, item, at)
    ensures !Fails(run, item, at + j) ==> j == CaseCalls(p, canRelaunch, run, item, at) - 1
    ensures j == CaseCalls(p, canRelaunch, run, item, at) - 1 && Fails(run, item, at + j) ==> j == CallBudget(p, canRelaunch) - 1
  {
    FailureAt(run, item, at, CallBudget(p, canRelaunch), j);
  }

  /** The terminal state of a case whose first call is call number `at`. */
  function CaseState(p: Policy, canRelaunch: bool, run: Runner, item: Item, at: nat): State {
    run(item, at + CaseCalls(p, canRelaunch, run, item, at) - 1)
  }

  /** Every round but the last takes all its calls, so the number of calls fixes both tallies. */
  function CaseRelaunches(p: Policy, calls: nat): (n: nat)
    requires calls >= 1
    ensures n <= calls - 1
  {
    if calls <= RetriesPerRound(p) + 1 then 0 else 1 + CaseRelaunches(p, calls - RetriesPerRound(p) - 1)
  }

  function CaseRetries(p: Policy, calls: nat): (n: nat)
    requires calls >= 1
    ensures calls == 1 + n + CaseRelaunches(p, calls)
  {
    calls - 1 - CaseRelaunches(p, calls)
  }

  /** The retries of the last round. */
  function LastAttempt(p: Policy, calls: nat): nat
    requires calls >= 1
  {
    if calls <= RetriesPerRound(p) + 1 then calls - 1 else LastAttempt(p, calls - RetriesPerRound(p) - 1)
  }

  /** The waits of a round that retried `attempts` times: the backoff starts anew in every round. */
  function RoundWaits(p: Policy, attempts: nat): seq<real> {
    if attempts == 0 then [] else RoundWaits(p, attempts - 1) + [Backoff(p, attempts - 1)]
  }

  /** A round: its first call, and a wait and another call for each retry. */
  function AddRound(t: Tally, p: Policy, attempts: nat): Tally {
    Tally(t.calls + attempts + 1, t.caseRetries + attempts, t.backendRelaunches, t.waits + RoundWaits(p, attempts))
  }

  /** `rounds` exhausted rounds, each followed by a relaunch. */
  function AddFullRounds(t: Tally, p: Policy, rounds: nat): Tally {
    if rounds == 0 then t else
    var u := AddRound(AddFullRounds(t, p, rounds - 1), p, RetriesPerRound(p));
    u.(backendRelaunches := u.backendRelaunches + 1)
  }

  /** The tallies after a case of `calls` calls. */
  function AddCase(t: Tally, p: Policy, calls: nat): Tally
    requires calls >= 1
  {
    AddRound(AddFullRounds(t, p, CaseRelaunches(p, calls)), p, LastAttempt(p, calls))
  }

  /** The accounting of a case is exact. */
  lemma AccountingIsExact(t: Tally, p: Policy, calls: nat)
    requires calls >= 1
    ensures var u := AddCase(t, p, calls);
            && u.calls == t.calls + calls
            && u.caseRetries == t.caseRetries + CaseRetries(p, calls)
            && u.backendRelaunches == t.backendRelaunches + CaseRelaunches(p, calls)
            && |u.waits| == |t.waits| + CaseRetries(p, calls)
  {
    FullRoundsCount(t, p, CaseRelaunches(p, calls));
    RoundWaitsCount(p, LastAttempt(p, calls));
    CallsByRounds(p, calls);
  }

  lemma {:induction false} RoundWaitsCount(p: Policy, attempts: nat)
    ensures |RoundWaits(p, attempts)| == attempts
    ensures forall a | 0 <= a < attempts :: RoundWaits(p, attempts)[a] == Backoff(p, a)
  {
    if attempts > 0 { RoundWaitsCount(p, attempts - 1); }
  }

  lemma {:induction false} FullRoundsCount(t: Tally, p: Policy, rounds: nat)
    ensures var u := AddFullRounds(t, p, rounds);
            && u.calls == t.calls + Times(rounds, RetriesPerRound(p) + 1)
            && u.caseRetries + rounds == t.caseRetries + Times(rounds, RetriesPerRound(p) + 1)
            && u.backendRelaunches == t.backendRelaunches + rounds
            && |u.waits| + rounds == |t.waits| + Times(rounds, RetriesPerRound(p) + 1)
  {
    if rounds > 0 {
      FullRoundsCount(t, p, rounds - 1);
      RoundWaitsCount(p, RetriesPerRound(p));
    }
  }

  lemma {:induction false} CallsByRounds(p: Policy, calls: nat)
    requires calls >= 1
    ensures calls == Times(CaseRelaunches(p, calls), RetriesPerRound(p) + 1) + LastAttempt(p, calls) + 1
    ensures LastAttempt(p, calls) <= RetriesPerRound(p)
  {
    if calls > RetriesPerRound(p) + 1 { CallsByRounds(p, calls - RetriesPerRound(p) - 1); }
  }

  lemma {:induction false} TalliesOf(p: Policy, round: nat, attempt: nat)
    requires attempt <= RetriesPerRound(p)
    ensures var calls := Times(round, RetriesPerRound(p) + 1) + attempt + 1;
            && CaseRelaunches(p, calls) == round
            && LastAttempt(p, calls) == attempt
  {
    if round > 0 { TalliesOf(p, round - 1, attempt); }
  }

  // --- the same from the policy's numbers ----------------------------------------------------

  /** Call number `at` reports one of the two transport failures. */
  ghost predicate IsTransportFailure(run: Runner, item: Item, at: nat) {
    var s := run(item, at);
    "status" in s && s["status"] in {Str("timeout"), Str("backend_error")}
  }

  ghost predicate AllFail(run: Runner, item: Item, at: nat, n: nat) {
    forall j | at <= j < at + n :: IsTransportFailure(run, item, j)
  }

  function Positive(n: int): nat {
    if n > 0 then n else 0
  }

  /** `n` calls from call number `at` on: all but the last meet a transport failure, and the last
      does not unless it is the last of the budget. */
  ghost predicate EndsCase(run: Runner, item: Item, at: nat, budget: nat, n: nat) {
    1 <= n <= budget && AllFail(run, item, at, n - 1) && (IsTransportFailure(run, item, at + n - 1) ==> n == budget)
  }

  /** With r retries per round and b relaunches allowed, a case has (r + 1)(b + 1) calls: it takes
      them all if they all meet a transport failure, and otherwise ends at the first that does not. */
  lemma CaseTakesItsCalls(p: Policy, canRelaunch: bool, run: Runner, item: Item, at: nat, n: nat)
    ensures var (r, b) := (Positive(p.maxCaseRetries), if canRelaunch then Positive(p.maxBackendRelaunches) else 0);
            EndsCase(run, item, at, (r + 1) * (b + 1), n) <==> n == CaseCalls(p, canRelaunch, run, item, at)
    ensures n == CaseCalls(p, canRelaunch, run, item, at) ==> CaseState(p, canRelaunch, run, item, at) == run(item, at + n - 1)
  {
    var calls := CaseCalls(p, canRelaunch, run, item, at);
    CallsEndTheCase(p, canRelaunch, run, item, at);
    BudgetByNumbers(p, canRelaunch);
    if EndsCase(run, item, at, CallBudget(p, canRelaunch), n) {
      OneNumberOfCalls(run, item, at, CallBudget(p, canRelaunch), calls, n);
    }
  }

  lemma BudgetByNumbers(p: Policy, canRelaunch: bool)
    ensures var (r, b) := (Positive(p.maxCaseRetries), if canRelaunch then Positive(p.maxBackendRelaunches) else 0);
            CallBudget(p, canRelaunch) == (r + 1) * (b + 1)
  {
    TimesIsProduct(Rounds(p, canRelaunch), RetriesPerRound(p) + 1);
  }

  lemma CallsEndTheCase(p: Policy, canRelaunch: bool, run: Runner, item: Item, at: nat)
    ensures EndsCase(run, item, at, CallBudget(p, canRelaunch), CaseCalls(p, canRelaunch, run, item, at))
  {
    var n := CaseCalls(p, canRelaunch, run, item, at);
    assert forall j: nat :: Fails(run, item, j) <==> IsTransportFailure(run, item, j);
    hide CaseCalls, CallBudget, Fails, IsTransportFailure;
    forall j | at <= j < at + n - 1 ensures IsTransportFailure(run, item, j) {
      CaseCallsAreNeeded(p, canRelaunch, run, item, at, j - at);
    }
    CaseCallsAreNeeded(p, canRelaunch, run, item, at, n - 1);
  }

  lemma OneNumberOfCalls(run: Runner, item: Item, at: nat, budget: nat, m: nat, n: nat)
    requires EndsCase(run, item, at, budget, m) && EndsCase(run, item, at, budget, n)
    ensures m == n
  {
    hide IsTransportFailure;
  }

  function Pow2(n: nat): nat {
    if n == 0 then 1 else 2 * Pow2(n - 1)
  }

  /** The base, doubled `k` times. */
  function Doubled(p: Policy, k: nat): real {
    p.retryBackoff * Pow2(k) as real
  }

  lemma {:induction false} DelayDoubles(p: Policy, attempt: nat)
    ensures Delay(p, attempt) == Doubled(p, attempt)
  {
    if attempt > 0 { DelayDoubles(p, attempt - 1); }
  }

  /** The wait before retry `k` of a round: the base doubled `k` times, up to the cap. */
  function Wait(p: Policy, k: nat): real {
    if Doubled(p, k) <= p.backoffCap then Doubled(p, k) else p.backoffCap
  }

  lemma BackoffIsWait(p: Policy, k: nat)
    ensures Backoff(p, k) == Wait(p, k)
  {
    hide Delay, Doubled;
    DelayDoubles(p, k);
  }

  /** The calls of a case fill its rounds one after the other. */
  lemma {:induction false} RoundsAreFilled(p: Policy, calls: nat)
    requires calls >= 1
    ensures var size := Positive(p.maxCaseRetries) + 1;
            CaseRelaunches(p, calls) == (calls - 1) / size && LastAttempt(p, calls) == (calls - 1) % size
  {
    var size := RetriesPerRound(p) + 1;
    if calls > size {
      RoundsAreFilled(p, calls - size);
      OneMoreQuotient(calls - 1, size);
    }
  }

  lemma OneMoreQuotient(n: nat, size: nat)
    requires 0 < size <= n
    ensures n / size == (n - size) / size + 1 && n % size == (n - size) % size
  {
    var (q, m) := ((n - size) / size, (n - size) % size);
    assert n - size == q * size + m;
    assert n == (q + 1) * size + m;
    QuotientIs(n, size, q + 1, m);
  }

  lemma QuotientIs(n: nat, size: nat, q: nat, m: nat)
    requires size > 0 && n == q * size + m && m < size
    ensures n / size == q && n % size == m
  {
    var x := n / size;
    assert n == x * size + n % size;
    Scaled(x + 1, q, size);
    Scaled(q + 1, x, size);
    assert (x + 1) * size == x * size + size && (q + 1) * size == q * size + size;
  }

  lemma Scaled(a: nat, b: nat, t: nat)
    ensures a <= b ==> a * t <= b * t
  {
    if a <= b { assert (b - a) * t >= 0; }
  }

  /** The waits of `rounds` rounds of `r` retries: retry `i` of all is retry `i % r` of its round. */
  ghost predicate AreWaits(p: Policy, waits: seq<real>, r: nat) {
    forall i | 0 <= i < |waits| :: r > 0 && waits[i] == Wait(p, i % r)
  }

  /** Since `t`, `rounds` full rounds and `attempts` more retries have waited. */
  ghost predicate HasWaited(p: Policy, t: Tally, u: Tally, rounds: nat, attempts: nat) {
    var r := Positive(p.maxCaseRetries);
    |u.waits| == |t.waits| + rounds * r + attempts && t.waits <= u.waits && AreWaits(p, u.waits[|t.waits|..], r)
  }

  lemma {:induction false} FullRoundsWait(t: Tally, p: Policy, rounds: nat)
    ensures HasWaited(p, t, AddFullRounds(t, p, rounds), rounds, 0)
  {
    hide HasWaited, AddRound;
    if rounds > 0 {
      var (r, u) := (Positive(p.maxCaseRetries), AddFullRounds(t, p, rounds - 1));
      FullRoundsWait(t, p, rounds - 1);
      RoundAddsWaits(t, p, u, rounds - 1, r);
      RoundIsFull(p, t, AddRound(u, p, r), AddFullRounds(t, p, rounds), rounds);
    } else {
      NothingWaited(p, t);
    }
  }

  lemma NothingWaited(p: Policy, t: Tally)
    ensures HasWaited(p, t, t, 0, 0)
  {}

  lemma RoundIsFull(p: Policy, t: Tally, u: Tally, v: Tally, rounds: nat)
    requires rounds > 0 && HasWaited(p, t, u, rounds - 1, Positive(p.maxCaseRetries)) && v.waits == u.waits
    ensures HasWaited(p, t, v, rounds, 0)
  {
    var r := Positive(p.maxCaseRetries);
    hide AreWaits;
    assert rounds * r == (rounds - 1) * r + r;
  }

  lemma RoundAddsWaits(t: Tally, p: Policy, u: Tally, rounds: nat, attempts: nat)
    requires HasWaited(p, t, u, rounds, 0) && attempts <= Positive(p.maxCaseRetries)
    ensures HasWaited(p, t, AddRound(u, p, attempts), rounds, attempts)
  {
    hide Wait;
    var (r, v) := (Positive(p.maxCaseRetries), AddRound(u, p, attempts));
    RoundWaitsCount(p, attempts);
    var (all, earlier, n) := (v.waits[|t.waits|..], u.waits[|t.waits|..], rounds * r);
    forall i | 0 <= i < |all| ensures r > 0 && all[i] == Wait(p, i % r) {
      if i < n {
        assert all[i] == earlier[i];
      } else {
        assert all[i] == RoundWaits(p, attempts)[i - n];
        BackoffIsWait(p, i - n);
        QuotientIs(i, r, rounds, i - n);
      }
    }
  }

  /** What a case of `calls` calls adds to the tallies, from the policy's numbers: one relaunch per
      filled round, and before each retry its wait. */
  lemma TalliesByNumbers(t: Tally, p: Policy, calls: nat)
    requires calls >= 1
    ensures var (r, u) := (Positive(p.maxCaseRetries), AddCase(t, p, calls));
            var relaunches := (calls - 1) / (r + 1);
            && u.calls == t.calls + calls
            && u.backendRelaunches == t.backendRelaunches + relaunches
            && u.caseRetries == t.caseRetries + calls - 1 - relaunches
            && |u.waits| == |t.waits| + calls - 1 - relaunches
            && t.waits <= u.waits && AreWaits(p, u.waits[|t.waits|..], r)
  {
    hide AreWaits, AddFullRounds, AddRound;
    AccountingIsExact(t, p, calls);
    RoundsAreFilled(p, calls);
    FullRoundsWait(t, p, CaseRelaunches(p, calls));
    CallsByRounds(p, calls);
    RoundAddsWaits(t, p, AddFullRounds(t, p, CaseRelaunches(p, calls)), CaseRelaunches(p, calls), LastAttempt(p, calls));
  }

  /** The serving side as the runner sees it, and the run's tallies. */
  class Endpoint {
    const run: Runner
    var tally: Tally

    constructor (run: Runner)
      ensures this.run == run && tally == Tally(0, 0, 0, [])
    {
      this.run := run;
      tally := Tally(0, 0, 0, []);
    }

    method Call(item: Item) returns (r: State)
      modifies this
      ensures tally == old(tally).(calls := old(tally.calls) + 1) && r == run(item, old(tally.calls))
    {
      r := run(item, tally.calls);
      tally := tally.(calls := tally.calls + 1);
    }

    /** One round of a case that started at call `start`. */
    method RunRound(item: Item, p: Policy, ghost start: nat, ghost budget: nat) returns (reply: State, attempt: nat)
      requires start <= tally.calls && tally.calls - start + RetriesPerRound(p) + 1 <= budget
      requires tally.calls - start <= FailuresBefore(run, item, start, budget)
      modifies this
      ensures attempt <= RetriesPerRound(p) && tally == AddRound(old(tally), p, attempt)
      ensures reply == run(item, tally.calls - 1) && (IsRetryable(reply) ==> attempt == RetriesPerRound(p))
      ensures var failures := FailuresBefore(run, item, start, budget);
              if IsRetryable(reply) then tally.calls - start <= failures else tally.calls - start - 1 == failures
    {
      reply := Call(item);
      attempt := 0;
      FailureAt(run, item, start, budget, tally.calls - start - 1);
      while IsRetryable(reply) && attempt < p.maxCaseRetries
        invariant attempt <= RetriesPerRound(p) && tally == AddRound(old(tally), p, attempt)
        invariant reply == run(item, tally.calls - 1)
        invariant var failures := FailuresBefore(run, item, start, budget);
                  if IsRetryable(reply) then tally.calls - start <= failures else tally.calls - start - 1 == failures
        decreases RetriesPerRound(p) - attempt
      {
        tally := tally.(waits := tally.waits + [Backoff(p, attempt)], caseRetries := tally.caseRetries + 1);
        attempt := attempt + 1;
        reply := Call(item);
        FailureAt(run, item, start, budget, tally.calls - start - 1);
      }
    }

    /** The retry and relaunch loops: the case takes exactly its calls, returns the state of the
        last one, and adds the tallies that the number of calls determines. */
    method RunCaseWithRetry(item: Item, p: Policy, canRelaunch: bool) returns (state: State)
      modifies this
      ensures state == CaseState(p, canRelaunch, run, item, old(tally.calls))
      ensures tally == AddCase(old(tally), p, CaseCalls(p, canRelaunch, run, item, old(tally.calls)))
    {
      hide CaseState, CaseCalls, AddCase, AddRound, AddFullRounds, FailuresBefore, Times;
      ghost var (rounds, start, budget) := (Rounds(p, canRelaunch), tally.calls, CallBudget(p, canRelaunch));
      var relaunchesUsed := 0;
      NoRoundsYet(tally, p);
      while true
        invariant 0 <= relaunchesUsed < rounds
        invariant tally == AddFullRounds(old(tally), p, relaunchesUsed)
        invariant tally.calls == start + Times(relaunchesUsed, RetriesPerRound(p) + 1)
        invariant tally.calls - start <= FailuresBefore(run, item, start, budget)
        decreases rounds - relaunchesUsed
      {
        RoundsFitTheBudget(rounds, relaunchesUsed, RetriesPerRound(p) + 1);
        RoundCalls(tally, p);
        var reply, attempt := RunRound(item, p, start, budget);
        if !IsRetryable(reply) || !canRelaunch || relaunchesUsed >= p.maxBackendRelaunches {
          CaseEnds(p, canRelaunch, run, item, start, relaunchesUsed, attempt);
          CaseTally(old(tally), p, relaunchesUsed, attempt);
          return reply;
        }
        OneMoreRound(old(tally), p, relaunchesUsed);
        tally := tally.(backendRelaunches := tally.backendRelaunches + 1);
        relaunchesUsed := relaunchesUsed + 1;
      }
    }
  }

  lemma NoRoundsYet(t: Tally, p: Policy)
    ensures AddFullRounds(t, p, 0) == t && Times(0, RetriesPerRound(p) + 1) == 0
  {}

  lemma RoundCalls(t: Tally, p: Policy)
    ensures forall attempts: nat :: AddRound(t, p, attempts).calls == t.calls + attempts + 1
  {}

  lemma OneMoreRound(t: Tally, p: Policy, rounds: nat)
    ensures var u := AddRound(AddFullRounds(t, p, rounds), p, RetriesPerRound(p));
            AddFullRounds(t, p, rounds + 1) == u.(backendRelaunches := u.backendRelaunches + 1)
    ensures Times(rounds + 1, RetriesPerRound(p) + 1) == Times(rounds, RetriesPerRound(p) + 1) + RetriesPerRound(p) + 1
  {}

  lemma CaseTally(t: Tally, p: Policy, round: nat, attempt: nat)
    requires attempt <= RetriesPerRound(p)
    ensures AddCase(t, p, Times(round, RetriesPerRound(p) + 1) + attempt + 1) == AddRound(AddFullRounds(t, p, round), p, attempt)
  {
    hide AddRound, AddFullRounds, Times, CaseRelaunches, LastAttempt, RetriesPerRound;
    TalliesOf(p, round, attempt);
  }

  /** A case that ends in round `round` after `attempt` retries has taken its calls. */
  lemma CaseEnds(p: Policy, canRelaunch: bool, run: Runner, item: Item, at: nat, round: nat, attempt: nat)
    requires attempt <= RetriesPerRound(p)
    requires var (n, failures) := (Times(round, RetriesPerRound(p) + 1) + attempt + 1, FailuresBefore(run, item, at, CallBudget(p, canRelaunch)));
             n - 1 == failures < CallBudget(p, canRelaunch) || n == failures == CallBudget(p, canRelaunch)
    ensures var n := Times(round, RetriesPerRound(p) + 1) + attempt + 1;
            && CaseCalls(p, canRelaunch, run, item, at) == n
            && CaseState(p, canRelaunch, run, item, at) == run(item, at + n - 1)
            && CaseRelaunches(p, n) == round && LastAttempt(p, n) == attempt
  {
    TalliesOf(p, round, attempt);
  }

  lemma {:induction false} RoundsFitTheBudget(rounds: nat, round: nat, size: nat)
    requires round < rounds
    ensures Times(round, size) + size <= Times(rounds, size)
    ensures round == rounds - 1 ==> Times(round, size) + size == Times(rounds, size)
  {
    if round < rounds - 1 {
      RoundsFitTheBudget(rounds - 1, round, size);
    }
  }
}
