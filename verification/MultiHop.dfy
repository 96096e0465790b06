/** The bounded retrieve / decide / answer loop, against any controller and any retriever. */
module MultiHop {
  import opened Text
  import opened Controller

  /** A model call's reply; an empty error is no error. */
  datatype Reply = Reply(text: string, error: string, completionTokens: nat)

  /** The question, and what the retriever and the model answer: `retrieve(query, hop)`, and
      `chat(n)` for the n-th model call of the case. */
  datatype Setting = Setting(question: string, maxHops: int, retrieve: (string, nat) -> seq<Chunk>, chat: nat -> Reply,
                             up: Upper, classify: (string, string) -> string)

  datatype State = State(subquery: string, goesOn: bool, hop: nat, gathered: seq<Chunk>, seen: set<string>,
                         calls: nat, tokens: nat)

  datatype End = End(state: State, answer: string, status: string, error: string)

  function Start(): State {
    State("", false, 0, [], {}, 0, 0)
  }

  function ChatTokens(e: Setting, n: nat): nat {
    e.chat(n).completionTokens
  }

  function Query(e: Setting, s: State): string {
    if s.subquery != "" then s.subquery else e.question
  }

  function Retrieved(e: Setting, s: State): seq<Chunk> {
    e.retrieve(Query(e, s), s.hop)
  }

  function Keys(chunks: seq<Chunk>): set<string> {
    set i | 0 <= i < |chunks| :: ChunkKey(chunks[i])
  }

  /** Of each key the first chunk only, in order. */
  function FirstOfEach(chunks: seq<Chunk>): (r: seq<Chunk>)
    ensures |r| <= |chunks|
  {
    if chunks == [] then []
    else
      var (front, last) := (chunks[..|chunks| - 1], chunks[|chunks| - 1]);
      if ChunkKey(last) in Keys(front) then FirstOfEach(front) else FirstOfEach(front) + [last]
  }

  /** The chunks of `found` whose key is not in `seen`, each key once. */
  function Fresh(seen: set<string>, found: seq<Chunk>): seq<Chunk> {
    if found == [] then []
    else
      var (front, last) := (found[..|found| - 1], found[|found| - 1]);
      if ChunkKey(last) in seen + Keys(front) then Fresh(seen, front) else Fresh(seen, front) + [last]
  }

  function RetrieveNode(e: Setting, s: State): State {
    var found := Retrieved(e, s);
    s.(gathered := s.gathered + Fresh(s.seen, found), seen := s.seen + Keys(found), hop := s.hop + 1)
  }

  /** The controller's decision on its n-th reply; a failed call stops. */
  function DecisionOn(e: Setting, n: nat): Decision {
    if e.chat(n).error != "" then Stop else ParseController(e.up, e.chat(n).text)
  }

  /** A call that fails stops the loop whatever it said, and any other decides by what it said. */
  lemma FailedCallStops(e: Setting, n: nat)
    ensures |e.chat(n).error| > 0 ==> DecisionOn(e, n) == Stop
    ensures |e.chat(n).error| == 0 ==> DecisionOn(e, n) == ParseController(e.up, e.chat(n).text)
  {
    hide ParseController;
  }

  function ControllerNode(e: Setting, s: State): State {
    var decision := DecisionOn(e, s.calls);
    s.(goesOn := decision.Continue?, subquery := if decision.Continue? then decision.subquery else "",
       calls := s.calls + 1, tokens := s.tokens + ChatTokens(e, s.calls))
  }

  predicate RoutesBack(e: Setting, s: State) {
    s.goesOn && s.hop < e.maxHops
  }

  function AnswerNode(e: Setting, s: State): End {
    if s.gathered == [] then End(s, "", "retrieval_miss", "")
    else
      var reply := e.chat(s.calls);
      End(s.(calls := s.calls + 1, tokens := s.tokens + reply.completionTokens),
          reply.text, e.classify(reply.text, reply.error), reply.error)
  }

  function Round(e: Setting, s: State): State {
    ControllerNode(e, RetrieveNode(e, s))
  }

  /** The state after `h` rounds of retrieving and deciding. */
  function After(e: Setting, h: nat): State {
    if h == 0 then Start() else Round(e, After(e, h - 1))
  }

  /** After hop `h` there is another: its reply continues, and the bound allows it. */
  predicate GoesOn(e: Setting, h: nat)
    requires h > 0
  {
    h < e.maxHops && DecisionOn(e, h - 1).Continue?
  }

  /** How many hops there are, once there have been `h`. */
  function HopsFrom(e: Setting, h: nat): (n: nat)
    requires h > 0
    ensures n >= h && !GoesOn(e, n)
    ensures forall i | h <= i < n :: GoesOn(e, i)
    decreases e.maxHops - h
  {
    if GoesOn(e, h) then HopsFrom(e, h + 1) else h
  }

  lemma {:induction false} HopCounts(e: Setting, h: nat)
    ensures After(e, h).hop == h && After(e, h).calls == h && (h > 0 ==> (RoutesBack(e, After(e, h)) <==> GoesOn(e, h)))
  {
    hide DecisionOn, Round;
    if h > 0 {
      HopCounts(e, h - 1);
      RoundCounts(e, After(e, h - 1));
    }
  }

  lemma RoundCounts(e: Setting, s: State)
    ensures var r := Round(e, s);
            && r.hop == s.hop + 1 && r.calls == s.calls + 1 && r.tokens == s.tokens + ChatTokens(e, s.calls)
            && (r.goesOn <==> DecisionOn(e, s.calls).Continue?)
  {
    hide DecisionOn, Fresh, Keys, Retrieved;
  }

  function Hops(e: Setting): (n: nat)
    ensures n > 0
  {
    HopsFrom(e, 1)
  }

  /** Retrieves for the current query, and gathers each new chunk. */
  method Retrieve(e: Setting, s: State) returns (r: State)
    ensures r == RetrieveNode(e, s)
  {
    hide ChunkKey;
    var chunks := Retrieved(e, s);
    var gathered, seen := s.gathered, s.seen;
    for i := 0 to |chunks|
      invariant gathered == s.gathered + Fresh(s.seen, chunks[..i]) && seen == s.seen + Keys(chunks[..i])
    {
      ghost var before := seen;
      assert chunks[..i + 1][..i] == chunks[..i];
      KeysGrow(chunks[..i], chunks[i]);
      assert chunks[..i + 1] == chunks[..i] + [chunks[i]];
      var key := ChunkKey(chunks[i]);
      if key !in seen {
        seen := seen + {key};
        gathered := gathered + [chunks[i]];
      }
      assert seen == before + {key};
    }
    assert chunks[..|chunks|] == chunks;
    r := s.(gathered := gathered, seen := seen, hop := s.hop + 1);
  }

  lemma KeysGrow(chunks: seq<Chunk>, x: Chunk)
    ensures Keys(chunks + [x]) == Keys(chunks) + {ChunkKey(x)}
  {
    hide ChunkKey;
    var more := chunks + [x];
    forall key ensures key in Keys(more) <==> key in Keys(chunks) + {ChunkKey(x)} {
      if key in Keys(chunks) {
        var i :| 0 <= i < |chunks| && ChunkKey(chunks[i]) == key;
        assert ChunkKey(more[i]) == key;
      }
      if key == ChunkKey(x) { assert ChunkKey(more[|chunks|]) == key; }
    }
  }

  /** A case that gathered nothing ends as a miss without another call; any other ends with the reply
      of one more call, as it is classified. */
  ghost predicate EndsWithAnswer(e: Setting, end: End) {
    if end.state.gathered == []
    then end.answer == "" && end.status == "retrieval_miss" && end.error == "" && end.state.calls == Hops(e)
    else
      var reply := e.chat(Hops(e));
      && end.answer == reply.text && end.error == reply.error && end.status == e.classify(reply.text, reply.error)
      && end.state.calls == Hops(e) + 1
  }

  lemma EndIsAnswer(e: Setting)
    ensures EndsWithAnswer(e, AnswerNode(e, After(e, Hops(e))))
  {
    hide After, HopsFrom;
    HopCounts(e, Hops(e));
  }

  /** One case from question to end. */
  method RunCase(e: Setting) returns (end: End)
    ensures end == AnswerNode(e, After(e, Hops(e))) && EndsWithAnswer(e, end)
  {
    hide ParseController, RetrieveNode, ControllerNode, AnswerNode;
    var state := Start();
    ghost var h := 0;
    var again := true;
    while again
      invariant state == After(e, h)
      invariant if again then HopsFrom(e, h + 1) == Hops(e) else h == Hops(e)
      invariant again && h > 0 ==> h < e.maxHops
      decreases again, if h == 0 then 1 else 0, e.maxHops - h
    {
      state := Retrieve(e, state);
      state := ControllerNode(e, state);
      h := h + 1;
      HopCounts(e, h);
      again := RoutesBack(e, state);
    }
    end := AnswerNode(e, state);
    EndIsAnswer(e);
  }

  // --- what the loop keeps -------------------------------------------------------------------

  /** Everything retrieved in the first `h` hops, in order. */
  function AllRetrieved(e: Setting, h: nat): seq<Chunk> {
    if h == 0 then [] else AllRetrieved(e, h - 1) + Retrieved(e, After(e, h - 1))
  }

  function TokenSum(e: Setting, n: nat): nat {
    if n == 0 then 0 else TokenSum(e, n - 1) + ChatTokens(e, n - 1)
  }

  lemma {:induction false} KeysOfConcat(a: seq<Chunk>, b: seq<Chunk>)
    ensures Keys(a + b) == Keys(a) + Keys(b)
  {
    hide ChunkKey;
    if b == [] {
      assert a + b == a;
    } else {
      KeysOfConcat(a, b[..|b| - 1]);
      KeysGrow(a + b[..|b| - 1], b[|b| - 1]);
      KeysGrow(b[..|b| - 1], b[|b| - 1]);
      assert a + b == a + b[..|b| - 1] + [b[|b| - 1]] && b == b[..|b| - 1] + [b[|b| - 1]];
    }
  }

  lemma {:induction false} FirstOfConcat(a: seq<Chunk>, b: seq<Chunk>)
    ensures FirstOfEach(a + b) == FirstOfEach(a) + Fresh(Keys(a), b)
  {
    hide ChunkKey;
    if b == [] {
      assert a + b == a;
    } else {
      var front := b[..|b| - 1];
      FirstOfConcat(a, front);
      KeysOfConcat(a, front);
      assert (a + b)[..|a + b| - 1] == a + front;
    }
  }

  /** What was gathered is the first chunk of each key in `found`. */
  ghost predicate HasGathered(s: State, found: seq<Chunk>) {
    s.gathered == FirstOfEach(found) && s.seen == Keys(found)
  }

  /** Gathering hop by hop gives the first chunk of each key among all that was retrieved. */
  lemma {:induction false} GathersFirstOfEach(e: Setting, h: nat)
    ensures HasGathered(After(e, h), AllRetrieved(e, h))
  {
    hide *;
    if h > 0 {
      OneHopMore(e, h);
      GathersFirstOfEach(e, h - 1);
      RoundKeepsGathered(e, After(e, h - 1), AllRetrieved(e, h - 1));
    } else {
      NothingGathered(e);
    }
  }

  lemma NothingGathered(e: Setting)
    ensures HasGathered(After(e, 0), AllRetrieved(e, 0))
  {}

  lemma OneHopMore(e: Setting, h: nat)
    requires h > 0
    ensures After(e, h) == Round(e, After(e, h - 1))
    ensures AllRetrieved(e, h) == AllRetrieved(e, h - 1) + Retrieved(e, After(e, h - 1))
  {
    hide Round, Retrieved;
  }

  lemma RoundKeepsGathered(e: Setting, s: State, found: seq<Chunk>)
    requires HasGathered(s, found)
    ensures HasGathered(Round(e, s), found + Retrieved(e, s))
  {
    hide Round, Retrieved, Keys, Fresh, FirstOfEach;
    RoundGathers(e, s);
    FirstOfConcat(found, Retrieved(e, s));
    KeysOfConcat(found, Retrieved(e, s));
  }

  lemma RoundGathers(e: Setting, s: State)
    ensures Round(e, s).gathered == s.gathered + Fresh(s.seen, Retrieved(e, s))
    ensures Round(e, s).seen == s.seen + Keys(Retrieved(e, s))
  {
    hide DecisionOn, Retrieved, Keys, Fresh;
  }

  ghost predicate DistinctKeys(chunks: seq<Chunk>) {
    forall i, j | 0 <= i < j < |chunks| :: ChunkKey(chunks[i]) != ChunkKey(chunks[j])
  }

  /** Chunk `i` is the first of its key. */
  ghost predicate IsFirst(chunks: seq<Chunk>, i: nat)
    requires i < |chunks|
  {
    forall j | 0 <= j < i :: ChunkKey(chunks[j]) != ChunkKey(chunks[i])
  }

  /** `FirstOfEach` keeps every key once, and of each key nothing but the first chunk. */
  lemma {:induction false} FirstOfEachIsExact(chunks: seq<Chunk>)
    ensures DistinctKeys(FirstOfEach(chunks)) && Keys(FirstOfEach(chunks)) == Keys(chunks)
    ensures forall x :: x in FirstOfEach(chunks) <==> HoldsFirst(chunks, x)
  {
    hide ChunkKey;
    if chunks != [] {
      var (front, last) := (chunks[..|chunks| - 1], chunks[|chunks| - 1]);
      hide Keys, DistinctKeys, HoldsFirst;
      FirstOfEachIsExact(front);
      assert chunks == front + [last];
      KeysGrow(front, last);
      KeysGrow(FirstOfEach(front), last);
      if ChunkKey(last) !in Keys(front) { DistinctOneMore(FirstOfEach(front), last); }
      forall x ensures x in FirstOfEach(chunks) <==> HoldsFirst(chunks, x) { FirstsGrow(front, last, x); }
    }
  }

  /** Some chunk equal to `x` is the first of its key. */
  ghost predicate HoldsFirst(chunks: seq<Chunk>, x: Chunk) {
    exists i :: 0 <= i < |chunks| && chunks[i] == x && IsFirst(chunks, i)
  }

  lemma FirstsGrow(front: seq<Chunk>, last: Chunk, x: Chunk)
    ensures HoldsFirst(front + [last], x) <==> HoldsFirst(front, x) || (x == last && ChunkKey(last) !in Keys(front))
  {
    hide ChunkKey;
    var (n, chunks) := (|front|, front + [last]);
    assert forall i | 0 <= i < n :: chunks[i] == front[i];
    if ChunkKey(last) in Keys(front) {
      var j :| 0 <= j < n && ChunkKey(front[j]) == ChunkKey(last);
      assert chunks[j] == front[j] && !IsFirst(chunks, n);
    } else {
      forall j | 0 <= j < n ensures ChunkKey(chunks[j]) != ChunkKey(last) {
        assert ChunkKey(front[j]) in Keys(front);
      }
    }
    assert forall i | 0 <= i < n :: chunks[i] == front[i] && (IsFirst(chunks, i) <==> IsFirst(front, i));
    if HoldsFirst(front, x) {
      var i :| 0 <= i < n && front[i] == x && IsFirst(front, i);
      assert chunks[i] == x && IsFirst(chunks, i);
    }
    if x == last && IsFirst(chunks, n) { assert chunks[n] == x; }
  }

  lemma DistinctOneMore(chunks: seq<Chunk>, x: Chunk)
    requires DistinctKeys(chunks) && ChunkKey(x) !in Keys(chunks)
    ensures DistinctKeys(chunks + [x])
  {}

  lemma {:induction false} CallsAndTokens(e: Setting, h: nat)
    ensures After(e, h).calls == h && After(e, h).tokens == TokenSum(e, h)
  {
    hide Round;
    if h > 0 {
      CallsAndTokens(e, h - 1);
      RoundCounts(e, After(e, h - 1));
    }
  }

  lemma DecisionAfter(e: Setting, h: nat)
    requires h > 0 && DecisionOn(e, h - 1).Continue?
    ensures Query(e, After(e, h)) == DecisionOn(e, h - 1).subquery
  {
    hide ParseReply, Fresh, Keys, Retrieved;
    HopCounts(e, h - 1);
    ContinueNamesAQuery(e.up, NextMarker(), e.chat(h - 1).text);
  }

  /** The hops are bounded, and end at the first reply that does not continue or at the bound. */
  lemma HopsAreBounded(e: Setting)
    ensures 1 <= Hops(e) <= if e.maxHops < 1 then 1 else e.maxHops
    ensures forall h | 1 <= h < Hops(e) :: GoesOn(e, h)
    ensures Hops(e) >= e.maxHops || DecisionOn(e, Hops(e) - 1) == Stop
  {
    hide DecisionOn;
    assert !GoesOn(e, Hops(e));
    assert Hops(e) > 1 ==> GoesOn(e, Hops(e) - 1);
  }

  /** The first hop asks the question, and each further one the sub-query just named. */
  lemma EachHopAsksTheNamedQuery(e: Setting, h: nat)
    requires h < Hops(e)
    ensures h == 0 ==> Query(e, After(e, h)) == e.question
    ensures h > 0 ==> DecisionOn(e, h - 1) == Continue(Query(e, After(e, h)))
  {
    hide DecisionOn, After;
    if h > 0 {
      assert GoesOn(e, h);
      DecisionAfter(e, h);
    } else {
      NothingAsked(e);
    }
  }

  lemma NothingAsked(e: Setting)
    ensures Query(e, After(e, 0)) == e.question
  {}

  /** At the end: one call per hop and one for an answer if anything was gathered, and the tokens
      of just those calls. */
  lemma CallsAreAccounted(e: Setting)
    ensures var end := AnswerNode(e, After(e, Hops(e))).state;
            && end.hop == Hops(e)
            && end.calls == Hops(e) + (if end.gathered != [] then 1 else 0)
            && end.tokens == TokenSum(e, end.calls)
  {
    hide After, HopsFrom;
    CallsAndTokens(e, Hops(e));
    HopCounts(e, Hops(e));
  }

  /** What was gathered only ever grows at its end. */
  lemma {:induction false} GatheredOnlyGrows(e: Setting, h: nat, k: nat)
    requires h <= k
    ensures After(e, h).gathered <= After(e, k).gathered
    decreases k
  {
    hide Fresh, ControllerNode;
    if h < k {
      GatheredOnlyGrows(e, h, k - 1);
      OneHopAppends(e, k);
    }
  }

  lemma OneHopAppends(e: Setting, h: nat)
    requires h > 0
    ensures After(e, h).gathered == After(e, h - 1).gathered + Fresh(After(e, h - 1).seen, Retrieved(e, After(e, h - 1)))
  {
    hide DecisionOn, Fresh;
  }
}
