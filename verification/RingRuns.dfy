/**
 Whole runs of a ring with its backend: submissions, kernel completions, and
 every way of asking for results, in any interleaving.

 The backend side of the state says which operations the kernel is running
 and which results wait in the completion queue.  A backend answer may be an
 error, or any duplicate-free part of that queue in any order.
 */
module RingRuns {
  import opened Wrappers
  import opened Completions
  import opened OperationTracking
  import opened Wakers
  import opened RingCompletion

  datatype System = System(
    core: RingCore,
    running: set<nat>,                  // given to the kernel, no result yet
    queue: map<nat, IoResult>,          // results the backend has not reported yet
    kernelResults: map<nat, IoResult>,  // every result the kernel ever produced
    delivered: seq<Completion>,         // everything handed to callers, in order
    issued: nat                         // number of ids issued
  )

  const START := System(RingCore(map[], IdOf(0), map[], map[], []), {}, map[], map[], [], 0)

  datatype Step =
    | SubmitStep(opType: OperationType, fd: int, outcome: SubmitOutcome)
    | KernelStep(id: nat, result: IoResult)
    | ByIdStep(id: nat, answer: BackendAnswer)
    | FuturePollStep(id: nat, waker: Waker, answer: BackendAnswer)
    | FutureDropStep(id: nat)
    | TryCompleteStep(drained: seq<Completion>, answer: BackendAnswer)
    | WaitStep(drained: seq<Completion>, answer: BackendAnswer)

  // ----- What the backend may do -----------------------------------------

  ghost predicate Enabled(s: System, step: Step) {
    match step
    case SubmitStep(_, _, _) => s.issued < U64_RANGE
    case KernelStep(id, _) => id in s.running
    case ByIdStep(_, answer) => FromQueue(s.queue, answer)
    case FuturePollStep(_, _, answer) => FromQueue(s.queue, answer)
    case FutureDropStep(_) => true
    case TryCompleteStep(drained, answer) => IsDrainOf(drained, s.core.cache) && FromQueue(s.queue, answer)
    case WaitStep(drained, answer) => IsDrainOf(drained, s.core.cache) && FromQueue(s.queue, answer)
  }

  // ----- One step ---------------------------------------------------------

  function Pairs(results: seq<CompletionResult>): (cs: seq<Completion>)
    ensures |cs| == |results|
    ensures forall i | 0 <= i < |results| :: cs[i] == Completion(results[i].id, results[i].result)
  {
    seq(|results|, i requires 0 <= i < |results| => Completion(results[i].id, results[i].result))
  }

  /** Completions a call takes from the backend. */
  ghost function Taken(asked: bool, answer: BackendAnswer): set<nat> {
    if asked && answer.Ok? then CompletionIds(answer.value) else {}
  }

  ghost function AfterById(s: System, id: nat, answer: BackendAnswer): System {
    var (core, r) := AfterTryCompleteById(s.core, id, answer);
    s.(core := core,
       queue := s.queue - Taken(id !in s.core.cache, answer),
       delivered := s.delivered + if r.Ok? && r.value.Some? then [Completion(id, r.value.value)] else [])
  }

  /** `asked`: this call goes on to the backend. */
  ghost function AfterProcess(s: System, wait: bool, drained: seq<Completion>, answer: BackendAnswer): System {
    var (core, r) := if wait then AfterWait(s.core, drained, answer)
                     else AfterProcessQueue(s.core, false, drained, answer);
    var asked := if wait then s.core.tracked != map[] else s.core.cache == map[];
    s.(core := core,
       queue := s.queue - Taken(asked, answer),
       delivered := s.delivered + if r.Ok? then Pairs(r.value) else [])
  }

  /** The one way a result is lost: a blocking wait whose backend call fails after the cache was drained. */
  ghost predicate LosesCache(s: System, wait: bool, answer: BackendAnswer) {
    wait && s.core.cache != map[] && answer.Err?
  }

  predicate ReachesKernel(outcome: SubmitOutcome) {
    outcome.Accepted? || (outcome.Refused? && outcome.queued)
  }

  ghost function After(s: System, step: Step): System {
    match step
    case SubmitStep(opType, fd, outcome) =>
      var (core, r) := AfterSubmit(s.core, opType, fd, outcome);
      s.(core := core,
         running := s.running + (if ReachesKernel(outcome) then {s.core.nextId} else {}),
         issued := s.issued + if outcome.Invalid? then 0 else 1)
    case KernelStep(id, result) =>
      s.(running := s.running - {id}, queue := s.queue[id := result], kernelResults := s.kernelResults[id := result])
    case ByIdStep(id, answer) =>
      AfterById(s, id, answer)
    case FuturePollStep(id, waker, answer) =>
      AfterById(s, id, answer).(core := AfterFuturePoll(s.core, id, waker, answer).0)
    case FutureDropStep(id) =>
      s.(core := s.core.(wakers := s.core.wakers - {id}))
    case TryCompleteStep(drained, answer) =>
      AfterProcess(s, false, drained, answer)
    case WaitStep(drained, answer) =>
      AfterProcess(s, true, drained, answer)
  }

  ghost predicate IsRun(s: System, steps: seq<Step>)
    decreases |steps|
  {
    steps == [] || (Enabled(s, steps[0]) && IsRun(After(s, steps[0]), steps[1..]))
  }

  ghost function AfterAll(s: System, steps: seq<Step>): System
    decreases |steps|
  {
    if steps == [] then s else AfterAll(After(s, steps[0]), steps[1..])
  }

  // ----- The invariant ----------------------------------------------------

  ghost predicate Agrees(m: map<nat, IoResult>, kernelResults: map<nat, IoResult>) {
    forall id | id in m :: id in kernelResults && kernelResults[id] == m[id]
  }

  ghost predicate WasIssued(id: nat, issued: nat) {
    exists k: nat :: k < issued && k < U64_RANGE && id == IdOf(k)
  }

  /** Kernel, queue and cache share no id, and hold only tracked ones. */
  ghost predicate OnePlaceEach(s: System) {
    && s.running + s.queue.Keys + s.core.cache.Keys <= s.core.tracked.Keys
    && s.running !! s.queue.Keys && s.running !! s.core.cache.Keys && s.queue.Keys !! s.core.cache.Keys
  }

  /** Every result, wherever it is, is the one the kernel produced for its id. */
  ghost predicate ResultsAreTheKernels(s: System) {
    && s.running !! s.kernelResults.Keys
    && Agrees(s.queue, s.kernelResults)
    && Agrees(s.core.cache, s.kernelResults)
    && forall c | c in s.delivered :: c.id in s.kernelResults && s.kernelResults[c.id] == c.result
  }

  /** Nothing is delivered twice, and what is delivered is no longer tracked. */
  ghost predicate DeliveredOnce(s: System) {
    && DistinctCompletions(s.delivered)
    && CompletionIds(s.delivered) !! s.core.tracked.Keys
  }

  ghost predicate IdsWereIssued(s: System) {
    && s.issued <= U64_RANGE && s.core.nextId == IdOf(s.issued)
    && forall id | id in s.core.tracked.Keys + s.kernelResults.Keys :: WasIssued(id, s.issued)
  }

  /** No waker is left behind for a result that is already in the cache. */
  ghost predicate NoLostWakeup(s: System) {
    s.core.wakers.Keys !! s.core.cache.Keys
  }

  ghost predicate Inv(s: System) {
    && OnePlaceEach(s)
    && ResultsAreTheKernels(s)
    && DeliveredOnce(s)
    && IdsWereIssued(s)
    && NoLostWakeup(s)
  }

  /**
   Completed and not yet delivered, seen as one flat set; under the invariant
   the result of each member is `kernelResults` at its id, wherever it is kept.
   */
  ghost function Undelivered(s: System): set<nat> {
    s.core.cache.Keys + s.queue.Keys
  }

  // ----- Meaning of the two loops over completions -----------------------

  /** What a caller asking for `target` did to the ring after it looked at the completions with these ids. */
  ghost predicate Absorbed(c: RingCore, after: RingCore, target: nat, ids: set<nat>) {
    && after.tracked == (if target in ids then c.tracked - {target} else c.tracked)
    && after.cache.Keys == c.cache.Keys + (ids - {target})
    && after.wakers == c.wakers - ids
    && after.nextId == c.nextId
  }

  lemma AbsorbOneMore(c: RingCore, before: RingCore, target: nat, found: Option<IoResult>, ids: set<nat>, last: Completion)
    requires Absorbed(c, before, target, ids) && last.id !in ids && last.id in c.tracked
    ensures var (after, now) := AbsorbOne(before, target, found, last);
      Absorbed(c, after, target, ids + {last.id}) && now == if last.id == target then Some(last.result) else found
  {
  }

  /** A caller asking for `target` takes its result and caches all the others: which ids go where. */
  lemma {:induction false} AbsorbMeaning(c: RingCore, target: nat, cs: seq<Completion>)
    requires DistinctCompletions(cs)
    requires CompletionIds(cs) <= c.tracked.Keys
    ensures var (after, found) := Absorb(c, target, cs);
      (found.Some? <==> target in CompletionIds(cs)) && Absorbed(c, after, target, CompletionIds(cs))
  {
    if cs == [] {
      assert c.wakers - {} == c.wakers;
    } else {
      var init, last := cs[..|cs| - 1], cs[|cs| - 1];
      DistinctPrefix(cs);
      AbsorbMeaning(c, target, init);
      var (before, found) := Absorb(c, target, init);
      AbsorbOneMore(c, before, target, found, CompletionIds(init), last);
    }
  }

  /** ... and with which results. */
  lemma {:induction false} AbsorbKeepsResults(c: RingCore, target: nat, cs: seq<Completion>, results: map<nat, IoResult>)
    requires forall x | x in cs :: x.id in results && results[x.id] == x.result
    requires Agrees(c.cache, results)
    ensures var (after, found) := Absorb(c, target, cs);
      && Agrees(after.cache, results)
      && (found.Some? ==> target in results && results[target] == found.value)
  {
    if cs != [] {
      AbsorbKeepsResults(c, target, cs[..|cs| - 1], results);
      assert cs[|cs| - 1] in cs;
    }
  }

  /** A list of distinct tracked completions is handed over completely, in order, with no error. */
  lemma {:induction false} HandOverMeaning(c: RingCore, cs: seq<Completion>)
    requires DistinctCompletions(cs) && CompletionIds(cs) <= c.tracked.Keys
    ensures var (after, r) := HandOver(c, cs);
      && r.Ok? && Pairs(r.value) == cs
      && (forall i | 0 <= i < |cs| :: c.tracked[cs[i].id].opType == r.value[i].opType
                                   && c.tracked[cs[i].id].fd == r.value[i].fd
                                   && c.tracked[cs[i].id].buffer == r.value[i].buffer)
      && after.tracked == c.tracked - CompletionIds(cs)
      && after.cache == c.cache
      && after.wakers == c.wakers - CompletionIds(cs)
      && after.nextId == c.nextId
  {
    if cs != [] {
      var init := cs[..|cs| - 1];
      DistinctPrefix(cs);
      HandOverMeaning(c, init);
      assert forall i | 0 <= i < |init| :: cs[i] == init[i];
      assert cs[|cs| - 1].id in CompletionIds(cs);
    }
  }

  /** A hand-over stops with an error at the first id that is not tracked; what came before is gone from the tracker. */
  lemma UnknownOperationStops(c: RingCore, cs: seq<Completion>, i: nat)
    requires i < |cs| && cs[i].id !in c.tracked
    requires DistinctCompletions(cs[..i]) && CompletionIds(cs[..i]) <= c.tracked.Keys
    ensures HandOver(c, cs) == (HandOver(c, cs[..i]).0, Err(UnknownOperation(cs[i].id)))
    ensures HandOver(c, cs).0.tracked == c.tracked - CompletionIds(cs[..i])
  {
    HandOverMeaning(c, cs[..i]);
    assert cs[..i + 1][..i] == cs[..i];
    HandOverStaysFailed(c, cs, i + 1);
  }

  /** A completion of an operation that is not tracked changes nothing, wherever it is reported. */
  lemma {:induction false} StrangersAreIgnored(c: RingCore, target: nat, a: seq<Completion>, stranger: Completion, b: seq<Completion>)
    requires stranger.id !in c.tracked
    ensures Absorb(c, target, a + [stranger] + b) == Absorb(c, target, a + b)
    decreases |b|
  {
    var with, without := a + [stranger] + b, a + b;
    if b == [] {
      assert with[..|with| - 1] == a && without == a;
      AbsorbTracksNothingNew(c, target, a);
    } else {
      var init := b[..|b| - 1];
      assert with[..|with| - 1] == a + [stranger] + init && without[..|without| - 1] == a + init;
      StrangersAreIgnored(c, target, a, stranger, init);
    }
  }

  lemma {:induction false} AbsorbTracksNothingNew(c: RingCore, target: nat, cs: seq<Completion>)
    ensures Absorb(c, target, cs).0.tracked.Keys <= c.tracked.Keys
  {
    if cs != [] {
      AbsorbTracksNothingNew(c, target, cs[..|cs| - 1]);
    }
  }

  // ----- Preservation -----------------------------------------------------

  lemma SubmitKeepsInv(s: System, opType: OperationType, fd: int, outcome: SubmitOutcome)
    requires Inv(s) && s.issued < U64_RANGE
    ensures Inv(After(s, SubmitStep(opType, fd, outcome)))
  {
    FreshId(s);
    var t := After(s, SubmitStep(opType, fd, outcome));
    assert t.core.tracked.Keys ==
      if outcome.Accepted? || outcome.Refused? then s.core.tracked.Keys + {s.core.nextId} else s.core.tracked.Keys;
    assert OnePlaceEach(t);
    IssuedIdsStayIssued(s, t);
    assert DeliveredOnce(t);
  }

  lemma IssuedIdsStayIssued(s: System, t: System)
    requires IdsWereIssued(s) && t.issued <= U64_RANGE
    requires t.issued == s.issued || t.issued == s.issued + 1
    requires t.core.nextId == IdOf(t.issued) && t.kernelResults == s.kernelResults
    requires t.core.tracked.Keys <= s.core.tracked.Keys + if t.issued > s.issued then {s.core.nextId} else {}
    ensures IdsWereIssued(t)
  {
    forall x | x in t.core.tracked.Keys + t.kernelResults.Keys
      ensures WasIssued(x, t.issued)
    {
      if x in s.core.tracked.Keys + s.kernelResults.Keys {
        var k: nat :| k < s.issued && k < U64_RANGE && x == IdOf(k);
      } else {
        assert x == IdOf(s.issued) && s.issued < t.issued;
      }
    }
  }

  /** Ids are not reused before 2^64 of them were issued. */
  lemma FreshId(s: System)
    requires Inv(s) && s.issued < U64_RANGE
    ensures s.core.nextId !in s.core.tracked && s.core.nextId !in s.kernelResults
    ensures s.core.nextId !in CompletionIds(s.delivered)
  {
    if WasIssued(s.core.nextId, s.issued) {
      var k: nat :| k < s.issued && k < U64_RANGE && s.core.nextId == IdOf(k);
      IdsAreDistinct(k, s.issued);
      assert false;
    }
    forall c | c in s.delivered
      ensures c.id != s.core.nextId
    {
      assert WasIssued(c.id, s.issued);
    }
  }

  lemma DeliverOne(delivered: seq<Completion>, c: Completion)
    requires DistinctCompletions(delivered) && c.id !in CompletionIds(delivered)
    ensures DistinctCompletions(delivered + [c])
    ensures CompletionIds(delivered + [c]) == CompletionIds(delivered) + {c.id}
  {
  }

  lemma DeliverMany(delivered: seq<Completion>, cs: seq<Completion>)
    requires DistinctCompletions(delivered) && DistinctCompletions(cs)
    requires CompletionIds(delivered) !! CompletionIds(cs)
    ensures DistinctCompletions(delivered + cs)
    ensures CompletionIds(delivered + cs) == CompletionIds(delivered) + CompletionIds(cs)
  {
    var all := delivered + cs;
    forall i, j | 0 <= i < j < |all|
      ensures all[i].id != all[j].id
    {
      if i < |delivered| <= j {
        assert delivered[i].id in CompletionIds(delivered);
        assert cs[j - |delivered|].id in CompletionIds(cs);
      }
    }
  }

  ghost function OneOrNothing(s: System, id: nat, got: bool): seq<Completion>
    requires got ==> id in s.kernelResults
  {
    if got then [Completion(id, s.kernelResults[id])] else []
  }

  lemma IdsOfOneOrNothing(s: System, id: nat, got: bool)
    requires got ==> id in s.kernelResults
    ensures CompletionIds(OneOrNothing(s, id, got)) == if got then {id} else {}
  {
  }

  /** The whole effect of asking for one id, with no loop in sight. */
  ghost predicate ByIdEffect(s: System, t: System, id: nat, answer: BackendAnswer) {
    var taken := Taken(id !in s.core.cache, answer);
    var got := id in s.core.cache || id in taken;
    && taken <= s.queue.Keys
    && (got ==> id in s.kernelResults)
    && t == s.(core := t.core,
               queue := s.queue - taken,
               delivered := s.delivered + OneOrNothing(s, id, got))
    && t.core.tracked == (if got then s.core.tracked - {id} else s.core.tracked)
    && t.core.cache.Keys == s.core.cache.Keys + taken - {id}
    && Agrees(t.core.cache, s.kernelResults)
    && t.core.wakers == s.core.wakers - taken - (if got then {id} else {})
    && t.core.nextId == s.core.nextId
  }

  lemma ByIdMeaning(s: System, id: nat, answer: BackendAnswer)
    requires Inv(s) && FromQueue(s.queue, answer)
    ensures ByIdEffect(s, AfterById(s, id, answer), id, answer)
  {
    if id !in s.core.cache && answer.Ok? {
      AbsorbedFromQueue(s, id, answer.value);
    }
  }

  lemma AbsorbedFromQueue(s: System, id: nat, cs: seq<Completion>)
    requires Inv(s) && FromQueue(s.queue, Ok(cs)) && id !in s.core.cache
    ensures CompletionIds(cs) <= s.queue.Keys
    ensures var (after, found) := Absorb(s.core, id, cs); var ids := CompletionIds(cs);
      && (found.Some? <==> id in ids)
      && (found.Some? ==> id in s.kernelResults && found.value == s.kernelResults[id])
      && after.tracked == (if id in ids then s.core.tracked - {id} else s.core.tracked)
      && after.cache.Keys == s.core.cache.Keys + ids - {id}
      && Agrees(after.cache, s.kernelResults)
      && after.wakers == s.core.wakers - ids
      && after.nextId == s.core.nextId
  {
    MembersHaveIds(cs);
    assert CompletionIds(cs) <= s.queue.Keys;
    AbsorbMeaning(s.core, id, cs);
    AbsorbKeepsResults(s.core, id, cs, s.kernelResults);
  }

  lemma ByIdKeepsInv(s: System, t: System, id: nat, answer: BackendAnswer)
    requires Inv(s) && ByIdEffect(s, t, id, answer)
    ensures Inv(t) && id !in t.core.cache
  {
    assert OnePlaceEach(t);
    IssuedIdsStayIssued(s, t);
    if t.delivered != s.delivered {
      DeliverOne(s.delivered, Completion(id, s.kernelResults[id]));
    }
    assert DeliveredOnce(t);
    assert ResultsAreTheKernels(t);
  }

  /** The future's own registration concerns only the id it asked for. */
  lemma WakersOfAskedIdKeepInv(s: System, t: System, id: nat)
    requires Inv(s) && id !in s.core.cache
    requires t == s.(core := s.core.(wakers := t.core.wakers)) && t.core.wakers.Keys <= s.core.wakers.Keys + {id}
    ensures Inv(t)
  {
  }

  ghost predicate AsksBackend(s: System, wait: bool) {
    if wait then s.core.tracked != map[] else s.core.cache == map[]
  }

  /** What a draining call hands over when it does not fail. */
  ghost function HandedOver(s: System, wait: bool, drained: seq<Completion>, answer: BackendAnswer): seq<Completion> {
    drained + if AsksBackend(s, wait) && answer.Ok? then answer.value else []
  }

  /** The whole effect of a draining call, with no loop in sight. */
  ghost predicate ProcessEffect(s: System, t: System, wait: bool, drained: seq<Completion>, answer: BackendAnswer) {
    var taken := Taken(AsksBackend(s, wait), answer);
    var failed := AsksBackend(s, wait) && answer.Err?;
    var cs := HandedOver(s, wait, drained, answer);
    && t.core.cache == map[] && t.core.nextId == s.core.nextId
    && taken <= s.queue.Keys
    && DistinctCompletions(cs)
    && CompletionIds(cs) == s.core.cache.Keys + taken
    && (forall c | c in cs :: c.id in s.kernelResults && s.kernelResults[c.id] == c.result)
    && t.core.tracked == (if failed then s.core.tracked else s.core.tracked - CompletionIds(cs))
    && t.core.wakers == (if failed then s.core.wakers else s.core.wakers - CompletionIds(cs))
    && t == s.(core := t.core,
               queue := s.queue - taken,
               delivered := if failed then s.delivered else s.delivered + cs)
  }

  lemma ProcessMeaning(s: System, wait: bool, drained: seq<Completion>, answer: BackendAnswer)
    requires Inv(s) && FromQueue(s.queue, answer) && IsDrainOf(drained, s.core.cache)
    ensures ProcessEffect(s, AfterProcess(s, wait, drained, answer), wait, drained, answer)
  {
    MembersHaveIds(drained);
    var cs := HandedOver(s, wait, drained, answer);
    if wait && s.core.tracked == map[] {
      NoDrain(drained);
      assert cs == [] && drained == [];
    } else {
      var asked := AsksBackend(s, wait);
      assert s.core.cache == map[] <==> s.core.cache.Keys == {};
      if asked && answer.Ok? {
        MembersHaveIds(answer.value);
        DeliverMany(drained, answer.value);
      } else {
        assert cs == drained;
      }
      if !(asked && answer.Err?) {
        HandOverMeaning(s.core.(cache := map[]), cs);
      }
    }
  }

  lemma NoDrain(drained: seq<Completion>)
    ensures drained != [] ==> CompletionIds(drained) != {}
  {
    if drained != [] {
      assert drained[0].id in CompletionIds(drained);
    }
  }

  /** Emptying the cache and part of the queue into the callers' hands keeps the invariant. */
  lemma DeliveryKeepsInv(s: System, t: System, cs: seq<Completion>, taken: set<nat>)
    requires Inv(s) && DistinctCompletions(cs) && taken <= s.queue.Keys
    requires CompletionIds(cs) == s.core.cache.Keys + taken
    requires forall c | c in cs :: c.id in s.kernelResults && s.kernelResults[c.id] == c.result
    requires t == s.(core := t.core, queue := s.queue - taken, delivered := s.delivered + cs)
    requires t.core.cache == map[] && t.core.nextId == s.core.nextId
    requires t.core.tracked == s.core.tracked - CompletionIds(cs)
    ensures Inv(t)
  {
    assert t.core.tracked.Keys == s.core.tracked.Keys - CompletionIds(cs);
    assert t.queue.Keys == s.queue.Keys - taken && t.core.cache.Keys == {};
    DeliverMany(s.delivered, cs);
    IssuedIdsStayIssued(s, t);
    assert ResultsAreTheKernels(t);
  }

  /** A wait that fails at the backend forgets what was cached. */
  lemma LossKeepsInv(s: System, t: System)
    requires Inv(s)
    requires t == s.(core := t.core)
    requires t.core.cache == map[] && t.core.tracked == s.core.tracked && t.core.nextId == s.core.nextId
    ensures Inv(t)
  {
  }

  lemma ProcessKeepsInv(s: System, t: System, wait: bool, drained: seq<Completion>, answer: BackendAnswer)
    requires Inv(s) && ProcessEffect(s, t, wait, drained, answer)
    ensures Inv(t)
  {
    if AsksBackend(s, wait) && answer.Err? {
      assert t.queue == s.queue;
      LossKeepsInv(s, t);
    } else {
      DeliveryKeepsInv(s, t, HandedOver(s, wait, drained, answer), Taken(AsksBackend(s, wait), answer));
    }
  }

  lemma StepPreservesInv(s: System, step: Step)
    requires Inv(s) && Enabled(s, step)
    ensures Inv(After(s, step))
  {
    match step
    case SubmitStep(opType, fd, outcome) => SubmitKeepsInv(s, opType, fd, outcome);
    case KernelStep(id, result) =>
    case ByIdStep(id, answer) =>
      ByIdMeaning(s, id, answer);
      ByIdKeepsInv(s, After(s, step), id, answer);
    case FuturePollStep(id, waker, answer) =>
      var t := AfterById(s, id, answer);
      ByIdMeaning(s, id, answer);
      ByIdKeepsInv(s, t, id, answer);
      WakersOfAskedIdKeepInv(t, After(s, step), id);
    case FutureDropStep(id) =>
    case TryCompleteStep(drained, answer) => 
      ProcessMeaning(s, false, drained, answer);
      ProcessKeepsInv(s, After(s, step), false, drained, answer);
    case WaitStep(drained, answer) => 
      ProcessMeaning(s, true, drained, answer);
      ProcessKeepsInv(s, After(s, step), true, drained, answer);
  }

  // ----- Runs -------------------------------------------------------------

  lemma StartIsSound()
    ensures Inv(START)
  {
  }

  /** The invariant holds in every state every run passes through. */
  lemma {:induction false} RunsKeepInv(s: System, steps: seq<Step>)
    requires Inv(s) && IsRun(s, steps)
    ensures Inv(AfterAll(s, steps))
    decreases |steps|
  {
    if steps != [] {
      StepPreservesInv(s, steps[0]);
      RunsKeepInv(After(s, steps[0]), steps[1..]);
    }
  }

  lemma {:induction false} RunSplits(s: System, a: seq<Step>, b: seq<Step>)
    ensures IsRun(s, a + b) <==> IsRun(s, a) && IsRun(AfterAll(s, a), b)
    ensures AfterAll(s, a + b) == AfterAll(AfterAll(s, a), b)
    decreases |a|
  {
    if a == [] {
      assert a + b == b;
    } else {
      assert (a + b)[1..] == a[1..] + b;
      RunSplits(After(s, a[0]), a[1..], b);
    }
  }

  lemma RunExtends(s: System, steps: seq<Step>, step: Step)
    requires IsRun(s, steps) && Enabled(AfterAll(s, steps), step)
    ensures IsRun(s, steps + [step])
    ensures AfterAll(s, steps + [step]) == After(AfterAll(s, steps), step)
  {
    RunSplits(s, steps, [step]);
    assert [step][1..] == [];
  }

  /** Two submitted reads, both completed by the kernel. */
  ghost function TwoCompletedReads(): System {
    System(RingCore(map[1 := OperationHandle(1, Read, 3, None), 2 := OperationHandle(2, Read, 3, None)],
                    3, map[], map[], []),
           {}, map[1 := Ok(10), 2 := Ok(20)], map[1 := Ok(10), 2 := Ok(20)], [], 2)
  }

  lemma TwoCompletedReadsIsReachable(steps: seq<Step>)
    requires steps == [SubmitStep(Read, 3, Accepted), SubmitStep(Read, 3, Accepted),
                       KernelStep(1, Ok(10)), KernelStep(2, Ok(20))]
    ensures IsRun(START, steps) && AfterAll(START, steps) == TwoCompletedReads()
  {
    var s1 := After(START, steps[0]);
    var s2 := After(s1, steps[1]);
    var s3 := After(s2, steps[2]);
    assert s2.running == {1, 2} && s2.core.nextId == 3;
    RunExtends(START, [], steps[0]);
    RunExtends(START, [steps[0]], steps[1]);
    RunExtends(START, [steps[0]] + [steps[1]], steps[2]);
    RunExtends(START, [steps[0]] + [steps[1]] + [steps[2]], steps[3]);
    assert After(s3, steps[3]) == TwoCompletedReads();
    assert steps == [steps[0]] + [steps[1]] + [steps[2]] + [steps[3]];
  }

  /** After one of them was asked for by id, the other's result sits in the cache. */
  ghost function OneReadCached(): System {
    System(RingCore(map[2 := OperationHandle(2, Read, 3, None)], 3, map[2 := Ok(20)], map[], []),
           {}, map[], map[1 := Ok(10), 2 := Ok(20)], [Completion(1, Ok(10))], 2)
  }

  lemma AskingForOneCachesTheOther()
    ensures var cs := [Completion(1, Ok(10)), Completion(2, Ok(20))];
      && Enabled(TwoCompletedReads(), ByIdStep(1, Ok(cs)))
      && After(TwoCompletedReads(), ByIdStep(1, Ok(cs))) == OneReadCached()
  {
    var s := TwoCompletedReads();
    var cs: seq<Completion> := [Completion(1, Ok(10)), Completion(2, Ok(20))];
    assert cs[..1] == [cs[0]] && [cs[0]][..0] == [];
    assert CompletionIds(cs) == {1, 2} by {
      assert cs[0] in cs && cs[1] in cs;
    }
    var one := AbsorbOne(s.core, 1, None, cs[0]);
    assert Absorb(s.core, 1, [cs[0]]) == one;
    assert Absorb(s.core, 1, cs) == AbsorbOne(one.0, 1, one.1, cs[1]);
    assert s.queue - {1, 2} == map[];
  }

  lemma WaitingLosesTheOther(step: Step)
    requires step == WaitStep([Completion(2, Ok(20))], Err("No operations in flight to wait for"))
    ensures Enabled(OneReadCached(), step)
    ensures var s := After(OneReadCached(), step);
      s.delivered == [Completion(1, Ok(10))] && Stranded(s) == {2} && Missing(s) == {2}
  {
    assert Completion(2, Ok(20)) in [Completion(2, Ok(20))];
    assert OneReadCached().core.cache.Keys == {2} && OneReadCached().queue.Keys == {};
    assert After(OneReadCached(), step).queue.Keys == {};
  }

  lemma OneReadCachedIsReachable(steps: seq<Step>)
    requires steps == [SubmitStep(Read, 3, Accepted), SubmitStep(Read, 3, Accepted),
                       KernelStep(1, Ok(10)), KernelStep(2, Ok(20)),
                       ByIdStep(1, Ok([Completion(1, Ok(10)), Completion(2, Ok(20))]))]
    ensures IsRun(START, steps) && AfterAll(START, steps) == OneReadCached()
  {
    TwoCompletedReadsIsReachable(steps[..4]);
    AskingForOneCachesTheOther();
    RunExtends(START, steps[..4], steps[4]);
    assert steps == steps[..4] + [steps[4]];
  }

  /** A blocking wait can lose a result: nothing is left in flight at the backend, so its answer is an error. */
  lemma WaitMayLoseACachedResult(steps: seq<Step>)
    requires steps == [SubmitStep(Read, 3, Accepted), SubmitStep(Read, 3, Accepted),
                       KernelStep(1, Ok(10)), KernelStep(2, Ok(20)),
                       ByIdStep(1, Ok([Completion(1, Ok(10)), Completion(2, Ok(20))])),
                       WaitStep([Completion(2, Ok(20))], Err("No operations in flight to wait for"))]
    ensures IsRun(START, steps)
    ensures AfterAll(START, steps).delivered == [Completion(1, Ok(10))]
    ensures Stranded(AfterAll(START, steps)) == {2} && Missing(AfterAll(START, steps)) == {2}
  {
    OneReadCachedIsReachable(steps[..5]);
    WaitingLosesTheOther(steps[5]);
    RunExtends(START, steps[..5], steps[5]);
    assert steps == steps[..5] + [steps[5]];
  }

  // ----- Refinement of one flat set of results ---------------------------

  /** `out` is a part of the flat set with the kernel's results, and exactly that part is gone afterwards. */
  ghost predicate FlatStep(s: System, t: System, out: seq<Completion>) {
    && DistinctCompletions(out)
    && CompletionIds(out) <= Undelivered(s)
    && (forall c | c in out :: c.id in s.kernelResults && s.kernelResults[c.id] == c.result)
    && Undelivered(t) == Undelivered(s) - CompletionIds(out)
  }

  /**
   Seen through `Undelivered`, the cache and the queue are one set of
   results: the kernel adds to it, a call takes out exactly what it hands
   over, and nothing else changes it but the losing wait.
   */
  lemma StepRefinesFlatSet(s: System, step: Step)
    requires Inv(s) && Enabled(s, step)
    ensures var t := After(s, step);
      && s.delivered <= t.delivered
      && var out := t.delivered[|s.delivered|..];
      if step.KernelStep? then
        out == [] && Undelivered(t) == Undelivered(s) + {step.id}
      else if step.WaitStep? && LosesCache(s, true, step.answer) then
        out == [] && Undelivered(t) == s.queue.Keys
      else
        FlatStep(s, t, out)
  {
    var t := After(s, step);
    match step
    case SubmitStep(opType, fd, outcome) =>
      UnchangedFlatSet(s, t);
    case KernelStep(id, result) =>
    case ByIdStep(id, answer) =>
      ByIdMeaning(s, id, answer);
      ByIdRefinesFlatSet(s, t, id, answer);
    case FuturePollStep(id, waker, answer) =>
      var u := AfterById(s, id, answer);
      ByIdMeaning(s, id, answer);
      ByIdRefinesFlatSet(s, u, id, answer);
      assert Undelivered(t) == Undelivered(u);
    case FutureDropStep(id) =>
      UnchangedFlatSet(s, t);
    case TryCompleteStep(drained, answer) =>
      ProcessMeaning(s, false, drained, answer);
      ProcessRefinesFlatSet(s, t, false, drained, answer);
    case WaitStep(drained, answer) =>
      ProcessMeaning(s, true, drained, answer);
      ProcessRefinesFlatSet(s, t, true, drained, answer);
  }

  lemma UnchangedFlatSet(s: System, t: System)
    requires t.core.cache == s.core.cache && t.queue == s.queue && t.delivered == s.delivered
    ensures FlatStep(s, t, t.delivered[|s.delivered|..])
  {
  }

  lemma ByIdRefinesFlatSet(s: System, t: System, id: nat, answer: BackendAnswer)
    requires Inv(s) && ByIdEffect(s, t, id, answer)
    ensures s.delivered <= t.delivered
    ensures FlatStep(s, t, t.delivered[|s.delivered|..])
  {
    var got := id in s.core.cache || id in Taken(id !in s.core.cache, answer);
    IdsOfOneOrNothing(s, id, got);
    SuffixOfConcat(s.delivered, OneOrNothing(s, id, got));
    assert Undelivered(t) == Undelivered(s) - if got then {id} else {};
  }

  lemma SuffixOfConcat(a: seq<Completion>, b: seq<Completion>)
    ensures a <= a + b && (a + b)[|a|..] == b
  {
  }

  lemma ProcessRefinesFlatSet(s: System, t: System, wait: bool, drained: seq<Completion>, answer: BackendAnswer)
    requires Inv(s) && ProcessEffect(s, t, wait, drained, answer)
    ensures s.delivered <= t.delivered
    ensures if LosesCache(s, wait, answer) then Undelivered(t) == s.queue.Keys && t.delivered == s.delivered
            else FlatStep(s, t, t.delivered[|s.delivered|..])
  {
    NothingTrackedNothingCached(s);
    if AsksBackend(s, wait) && answer.Err? {
      FailureRefinesFlatSet(s, t);
    } else {
      DeliveryRefinesFlatSet(s, t, HandedOver(s, wait, drained, answer), Taken(AsksBackend(s, wait), answer));
    }
  }

  lemma FailureRefinesFlatSet(s: System, t: System)
    requires t.core.cache == map[] && t.queue == s.queue - {} && t.delivered == s.delivered
    ensures Undelivered(t) == s.queue.Keys
    ensures s.core.cache == map[] ==> FlatStep(s, t, t.delivered[|s.delivered|..])
  {
  }

  lemma DeliveryRefinesFlatSet(s: System, t: System, cs: seq<Completion>, taken: set<nat>)
    requires Inv(s) && DistinctCompletions(cs) && taken <= s.queue.Keys
    requires CompletionIds(cs) == s.core.cache.Keys + taken
    requires forall c | c in cs :: c.id in s.kernelResults && s.kernelResults[c.id] == c.result
    requires t.core.cache == map[] && t.queue == s.queue - taken && t.delivered == s.delivered + cs
    ensures s.delivered <= t.delivered
    ensures FlatStep(s, t, t.delivered[|s.delivered|..])
  {
  }

  lemma NothingTrackedNothingCached(s: System)
    requires Inv(s)
    ensures s.core.tracked == map[] ==> s.core.cache == map[]
  {
  }

  /**
   Asking for an id answers exactly when its result is in the flat set, as
   long as the backend reports all it has.
   */
  lemma AskingByIdFindsEveryResult(s: System, id: nat, answer: BackendAnswer)
    requires Inv(s) && FromQueue(s.queue, answer)
    requires answer.Ok? && CompletionIds(answer.value) == s.queue.Keys
    ensures AfterTryCompleteById(s.core, id, answer).1
         == Ok(if id in Undelivered(s) then Some(s.kernelResults[id]) else None)
  {
    if id !in s.core.cache {
      AbsorbedFromQueue(s, id, answer.value);
    }
  }

  /** The backend's answer reports this id. */
  ghost predicate Reports(answer: BackendAnswer, id: nat) {
    answer.Ok? && id in CompletionIds(answer.value)
  }

  /**
   The exact answer for one id: the kernel's result exactly when that is
   cached or reported now, the backend's error if there is one, and nothing
   otherwise.
   */
  lemma AskingByIdAnswers(s: System, id: nat, answer: BackendAnswer)
    requires Inv(s) && FromQueue(s.queue, answer)
    ensures var r := AfterTryCompleteById(s.core, id, answer).1;
      if id in s.core.cache || Reports(answer, id) then id in s.kernelResults && r == Ok(Some(s.kernelResults[id]))
      else if answer.Err? then r == Err(BackendError(answer.error))
      else r == Ok(None)
  {
    if id !in s.core.cache && answer.Ok? {
      AbsorbedFromQueue(s, id, answer.value);
    } else if Reports(answer, id) {
      MembersHaveIds(answer.value);
    }
  }

  /**
   The exact answer of an operation's future: it is pending exactly when the
   backend answered without its operation, and then this waker is registered.
   */
  lemma FuturePollAnswers(steps: seq<Step>, id: nat, waker: Waker, answer: BackendAnswer)
    requires IsRun(START, steps) && FromQueue(AfterAll(START, steps).queue, answer)
    ensures var s := AfterAll(START, steps);
      var (after, r) := AfterFuturePoll(s.core, id, waker, answer);
      if id in s.core.cache || Reports(answer, id) then
        && id in KernelResults(steps) && r == Ready(Ok(KernelResults(steps)[id])) && id !in after.wakers
        && After(s, FuturePollStep(id, waker, answer)).delivered == s.delivered + [Completion(id, KernelResults(steps)[id])]
      else if answer.Err? then
        r == Ready(Err(BackendError(answer.error))) && id !in after.wakers
      else
        r == Pending && id in after.wakers && after.wakers[id] == waker
  {
    StartIsSound();
    RunsKeepInv(START, steps);
    ResultsComeFromTheKernel(START, steps);
    AskingByIdAnswers(AfterAll(START, steps), id, answer);
  }

  /** What the kernel produced in a run, read off its steps alone. */
  function KernelResults(steps: seq<Step>): map<nat, IoResult>
    decreases |steps|
  {
    if steps == [] then map[]
    else ResultOf(steps[0]) + KernelResults(steps[1..])
  }

  lemma SumIsAssociative(a: map<nat, IoResult>, b: map<nat, IoResult>, c: map<nat, IoResult>)
    ensures (a + b) + c == a + (b + c)
  {
  }

  lemma {:induction false} ResultsComeFromTheKernel(s: System, steps: seq<Step>)
    ensures AfterAll(s, steps).kernelResults == s.kernelResults + KernelResults(steps)
    decreases |steps|
  {
    if steps != [] {
      KernelResultsOnlyGrow(s, steps[0]);
      ResultsComeFromTheKernel(After(s, steps[0]), steps[1..]);
      SumIsAssociative(s.kernelResults, ResultOf(steps[0]), KernelResults(steps[1..]));
    }
  }

  /** What a draining call answers. */
  ghost function DrainAnswer(s: System, wait: bool, drained: seq<Completion>, answer: BackendAnswer)
    : Result<seq<CompletionResult>, RingError>
  {
    if wait then AfterWait(s.core, drained, answer).1 else AfterProcessQueue(s.core, false, drained, answer).1
  }

  /** What an entry says besides the result is what its operation was submitted with. */
  ghost predicate Describes(c: RingCore, r: CompletionResult) {
    && r.id in c.tracked && r.opType == c.tracked[r.id].opType
    && r.fd == c.tracked[r.id].fd && r.buffer == c.tracked[r.id].buffer
  }

  lemma DrainHandsOver(s: System, wait: bool, drained: seq<Completion>, answer: BackendAnswer)
    requires Inv(s) && FromQueue(s.queue, answer) && IsDrainOf(drained, s.core.cache)
    requires !(wait && s.core.tracked == map[]) && !(AsksBackend(s, wait) && answer.Err?)
    ensures DrainAnswer(s, wait, drained, answer)
         == HandOver(s.core.(cache := map[]), HandedOver(s, wait, drained, answer)).1
  {
    assert drained + [] == drained;
  }

  /**
   The exact answer of a draining call: an error when it waits with nothing
   tracked or when the backend it asks fails, and otherwise all it took out,
   each with the type, descriptor and buffer of its operation.
   */
  lemma DrainAnswers(s: System, wait: bool, drained: seq<Completion>, answer: BackendAnswer)
    requires Inv(s) && FromQueue(s.queue, answer) && IsDrainOf(drained, s.core.cache)
    ensures var r := DrainAnswer(s, wait, drained, answer);
      if wait && s.core.tracked == map[] then r == Err(NothingInFlight)
      else if (wait || s.core.cache == map[]) && answer.Err? then r == Err(BackendError(answer.error))
      else
        && r.Ok? && Pairs(r.value) == drained + (if wait || s.core.cache == map[] then answer.value else [])
        && forall i | 0 <= i < |r.value| :: Describes(s.core, r.value[i])
  {
    if !(wait && s.core.tracked == map[]) && !(AsksBackend(s, wait) && answer.Err?) {
      ProcessMeaning(s, wait, drained, answer);
      DrainHandsOver(s, wait, drained, answer);
      var cs := HandedOver(s, wait, drained, answer);
      HandOverMeaning(s.core.(cache := map[]), cs);
      NothingTrackedNothingCached(s);
      MembersHaveIds(cs);
    }
  }

  /** With a well-behaved backend no call ever meets an id it does not know. */
  lemma NoUnknownOperations(s: System, wait: bool, drained: seq<Completion>, answer: BackendAnswer)
    requires Inv(s) && FromQueue(s.queue, answer) && IsDrainOf(drained, s.core.cache)
    ensures var r := (if wait then AfterWait(s.core, drained, answer)
                      else AfterProcessQueue(s.core, false, drained, answer)).1;
      r.Err? ==> !r.error.UnknownOperation?
  {
    DrainAnswers(s, wait, drained, answer);
  }

  // ----- Nothing lost, nothing delivered twice ---------------------------

  /** Tracked operations without a result anywhere, which the kernel does not run either. */
  ghost function Stranded(s: System): set<nat> {
    s.core.tracked.Keys - s.running - Undelivered(s)
  }

  /** Operations whose result the kernel produced but nobody got or can still get. */
  ghost function Missing(s: System): set<nat> {
    s.kernelResults.Keys - CompletionIds(s.delivered) - Undelivered(s)
  }

  /** What a step adds to the stranded operations, by the branch it takes. */
  ghost function StrandedBy(s: System, step: Step): set<nat> {
    match step
    case SubmitStep(_, _, outcome) => if outcome.Refused? && !outcome.queued then {s.core.nextId} else {}
    case WaitStep(_, answer) => LostBy(s, step)
    case _ => {}
  }

  /** The results a step loses: those cached when a blocking wait fails. */
  ghost function LostBy(s: System, step: Step): set<nat> {
    if step.WaitStep? && LosesCache(s, true, step.answer) then s.core.cache.Keys else {}
  }

  lemma ByIdStrandsNothing(s: System, t: System, id: nat, answer: BackendAnswer)
    requires Inv(s) && ByIdEffect(s, t, id, answer)
    ensures Stranded(t) == Stranded(s)
  {
    assert Undelivered(t) == Undelivered(s) - if t.core.tracked == s.core.tracked then {} else {id};
  }

  lemma ProcessStrands(s: System, t: System, wait: bool, drained: seq<Completion>, answer: BackendAnswer)
    requires Inv(s) && ProcessEffect(s, t, wait, drained, answer)
    ensures Stranded(t) == Stranded(s) + if LosesCache(s, wait, answer) then s.core.cache.Keys else {}
  {
    NothingTrackedNothingCached(s);
    var ids := CompletionIds(HandedOver(s, wait, drained, answer));
    if AsksBackend(s, wait) && answer.Err? {
      assert t.queue == s.queue;
    } else {
      assert Undelivered(t) == Undelivered(s) - ids && ids <= Undelivered(s);
      assert t.core.tracked.Keys == s.core.tracked.Keys - ids;
    }
  }

  lemma SubmitStrands(s: System, opType: OperationType, fd: int, outcome: SubmitOutcome)
    requires Inv(s) && s.issued < U64_RANGE
    ensures var step := SubmitStep(opType, fd, outcome); Stranded(After(s, step)) == Stranded(s) + StrandedBy(s, step)
  {
    FreshId(s);
    var t := After(s, SubmitStep(opType, fd, outcome));
    assert t.core.tracked.Keys ==
      if outcome.Accepted? || outcome.Refused? then s.core.tracked.Keys + {s.core.nextId} else s.core.tracked.Keys;
  }

  /** A step strands exactly what it refuses without queueing or loses; it never picks a stranded operation up again. */
  lemma StepStrands(s: System, step: Step)
    requires Inv(s) && Enabled(s, step)
    ensures Stranded(After(s, step)) == Stranded(s) + StrandedBy(s, step)
  {
    var t := After(s, step);
    match step
    case SubmitStep(opType, fd, outcome) => SubmitStrands(s, opType, fd, outcome);
    case KernelStep(id, result) =>
    case ByIdStep(id, answer) =>
      ByIdMeaning(s, id, answer);
      ByIdStrandsNothing(s, t, id, answer);
    case FuturePollStep(id, waker, answer) =>
      var u := AfterById(s, id, answer);
      ByIdMeaning(s, id, answer);
      ByIdStrandsNothing(s, u, id, answer);
      assert Stranded(t) == Stranded(u);
    case FutureDropStep(id) =>
    case TryCompleteStep(drained, answer) =>
      ProcessMeaning(s, false, drained, answer);
      ProcessStrands(s, t, false, drained, answer);
    case WaitStep(drained, answer) =>
      ProcessMeaning(s, true, drained, answer);
      ProcessStrands(s, t, true, drained, answer);
  }

  function ResultOf(step: Step): map<nat, IoResult> {
    if step.KernelStep? then map[step.id := step.result] else map[]
  }

  lemma KernelResultsOnlyGrow(s: System, step: Step)
    ensures After(s, step).kernelResults == s.kernelResults + ResultOf(step)
  {
  }

  /** A step loses exactly the results a failing blocking wait found in the cache. */
  lemma StepLoses(s: System, step: Step)
    requires Inv(s) && Enabled(s, step)
    ensures Missing(After(s, step)) == Missing(s) + LostBy(s, step)
  {
    var t := After(s, step);
    StepRefinesFlatSet(s, step);
    KernelResultsOnlyGrow(s, step);
    var out := t.delivered[|s.delivered|..];
    assert t.delivered == s.delivered + out;
    IdsOfConcat(s.delivered, out);
    if step.KernelStep? {
      assert step.id !in Missing(s);
    } else if step.WaitStep? && LosesCache(s, true, step.answer) {
      LosingMisses(s, t);
    } else {
      assert LostBy(s, step) == {};
    }
  }

  lemma LosingMisses(s: System, t: System)
    requires Inv(s) && t.kernelResults == s.kernelResults && t.delivered == s.delivered && Undelivered(t) == s.queue.Keys
    ensures Missing(t) == Missing(s) + s.core.cache.Keys
  {
    assert s.core.cache.Keys <= s.kernelResults.Keys && s.core.cache.Keys !! CompletionIds(s.delivered);
  }

  lemma IdsOfConcat(a: seq<Completion>, b: seq<Completion>)
    ensures CompletionIds(a + b) == CompletionIds(a) + CompletionIds(b)
  {
  }

  ghost function StrandedIn(s: System, steps: seq<Step>): set<nat>
    decreases |steps|
  {
    if steps == [] then {} else StrandedBy(s, steps[0]) + StrandedIn(After(s, steps[0]), steps[1..])
  }

  ghost function LostIn(s: System, steps: seq<Step>): set<nat>
    decreases |steps|
  {
    if steps == [] then {} else LostBy(s, steps[0]) + LostIn(After(s, steps[0]), steps[1..])
  }

  lemma {:induction false} RunStrandsAndLoses(s: System, steps: seq<Step>)
    requires Inv(s) && IsRun(s, steps)
    ensures Stranded(AfterAll(s, steps)) == Stranded(s) + StrandedIn(s, steps)
    ensures Missing(AfterAll(s, steps)) == Missing(s) + LostIn(s, steps)
    decreases |steps|
  {
    if steps != [] {
      StepPreservesInv(s, steps[0]);
      StepStrands(s, steps[0]);
      StepLoses(s, steps[0]);
      RunStrandsAndLoses(After(s, steps[0]), steps[1..]);
    }
  }

  /**
   Exactly-once delivery.  Nothing is handed out twice, what is handed out is
   the kernel's own result, and every result the kernel produced was handed
   out, can still be handed out, or was lost by a failing wait of this run.
   */
  lemma DeliveryIsExactlyOnce(steps: seq<Step>)
    requires IsRun(START, steps)
    ensures var s := AfterAll(START, steps);
      && s.kernelResults == KernelResults(steps)
      && (forall i, j | 0 <= i < j < |s.delivered| :: s.delivered[i].id != s.delivered[j].id)
      && (forall c | c in s.delivered :: c.id in s.kernelResults && s.kernelResults[c.id] == c.result)
      && s.kernelResults.Keys == CompletionIds(s.delivered) + Undelivered(s) + LostIn(START, steps)
      && CompletionIds(s.delivered) !! Undelivered(s)
      && LostIn(START, steps) !! CompletionIds(s.delivered) + Undelivered(s)
  {
    StartIsSound();
    RunsKeepInv(START, steps);
    RunStrandsAndLoses(START, steps);
    var s := AfterAll(START, steps);
    ResultsComeFromTheKernel(START, steps);
    assert Missing(s) == LostIn(START, steps);
    assert CompletionIds(s.delivered) <= s.kernelResults.Keys && Undelivered(s) <= s.kernelResults.Keys;
  }

  /** No blocking wait fails while results are cached. */
  ghost predicate NeverLoses(s: System, steps: seq<Step>)
    decreases |steps|
  {
    steps == [] || (!(steps[0].WaitStep? && LosesCache(s, true, steps[0].answer)) && NeverLoses(After(s, steps[0]), steps[1..]))
  }

  lemma {:induction false} LosesNothingIff(s: System, steps: seq<Step>)
    ensures LostIn(s, steps) == {} <==> NeverLoses(s, steps)
    decreases |steps|
  {
    if steps != [] {
      LosesNothingIff(After(s, steps[0]), steps[1..]);
      assert s.core.cache != map[] <==> s.core.cache.Keys != {};
    }
  }

  /** Every completed result was delivered or can still be delivered exactly when no blocking wait failed over a nonempty cache. */
  lemma EveryResultIsDeliverableIff(steps: seq<Step>)
    requires IsRun(START, steps)
    ensures var s := AfterAll(START, steps);
      s.kernelResults.Keys == CompletionIds(s.delivered) + Undelivered(s) <==> NeverLoses(START, steps)
  {
    DeliveryIsExactlyOnce(steps);
    LosesNothingIff(START, steps);
  }

  /** The steps after which some tracked operation can never be delivered. */
  ghost predicate Strands(s: System, step: Step) {
    match step
    case SubmitStep(_, _, outcome) => outcome.Refused? && !outcome.queued
    case WaitStep(_, answer) => LosesCache(s, true, answer)
    case _ => false
  }

  ghost predicate NeverStrands(s: System, steps: seq<Step>)
    decreases |steps|
  {
    steps == [] || (!Strands(s, steps[0]) && NeverStrands(After(s, steps[0]), steps[1..]))
  }

  lemma {:induction false} StrandsNothingIff(s: System, steps: seq<Step>)
    ensures StrandedIn(s, steps) == {} <==> NeverStrands(s, steps)
    decreases |steps|
  {
    if steps != [] {
      StrandsNothingIff(After(s, steps[0]), steps[1..]);
      assert s.core.cache != map[] <==> s.core.cache.Keys != {};
    }
  }

  /**
   After a run every tracked operation is with the kernel, in the queue or in
   the cache exactly when the run has no submission refused before it was
   queued and no blocking wait that fails while results are cached.
   */
  lemma NothingStrandedIff(steps: seq<Step>)
    requires IsRun(START, steps)
    ensures var s := AfterAll(START, steps);
      s.core.tracked.Keys == s.running + Undelivered(s) <==> NeverStrands(START, steps)
  {
    StartIsSound();
    RunsKeepInv(START, steps);
    RunStrandsAndLoses(START, steps);
    StrandsNothingIff(START, steps);
    assert Stranded(START) == {};
  }

  // ----- Wake-ups ---------------------------------------------------------

  ghost predicate WokenSince(before: RingCore, after: RingCore, id: nat) {
    id in before.wakers ==> WokenBetween(before.woken, after.woken, Wakeup(id, before.wakers[id]))
  }

  /** Waking `last` keeps earlier wake-ups and records one for `last` itself. */
  lemma WakeRecords(c: RingCore, before: RingCore, last: nat, id: nat)
    requires c.woken <= before.woken
    requires WokenSince(c, before, id) || (id == last && (id in c.wakers ==> id in before.wakers && before.wakers[id] == c.wakers[id]))
    ensures c.woken <= Wake(before, last).woken
    ensures WokenSince(c, Wake(before, last), id)
  {
    var after := Wake(before, last);
    if id in c.wakers {
      if WokenSince(c, before, id) {
        var k :| |c.woken| <= k < |before.woken| && before.woken[k] == Wakeup(id, c.wakers[id]);
        assert after.woken[k] == Wakeup(id, c.wakers[id]);
      } else {
        assert after.woken[|before.woken|] == Wakeup(id, c.wakers[id]);
      }
    }
  }

  lemma {:induction false} AbsorbWakes(c: RingCore, target: nat, cs: seq<Completion>, id: nat)
    requires DistinctCompletions(cs) && CompletionIds(cs) <= c.tracked.Keys
    ensures c.woken <= Absorb(c, target, cs).0.woken
    ensures id in CompletionIds(cs) ==> WokenSince(c, Absorb(c, target, cs).0, id)
  {
    if cs != [] {
      var init, last := cs[..|cs| - 1], cs[|cs| - 1];
      DistinctPrefix(cs);
      AbsorbMeaning(c, target, init);
      AbsorbWakes(c, target, init, id);
      var before := Absorb(c, target, init).0;
      assert last.id in CompletionIds(cs) && last.id in before.tracked;
      if id in CompletionIds(cs) {
        WakeRecords(c, before, last.id, id);
        assert Absorb(c, target, cs).0.woken == Wake(before, last.id).woken;
      }
    }
  }

  lemma {:induction false} HandOverWakes(c: RingCore, cs: seq<Completion>, id: nat)
    requires DistinctCompletions(cs) && CompletionIds(cs) <= c.tracked.Keys
    ensures c.woken <= HandOver(c, cs).0.woken
    ensures id in CompletionIds(cs) ==> WokenSince(c, HandOver(c, cs).0, id)
  {
    if cs != [] {
      var init, last := cs[..|cs| - 1], cs[|cs| - 1];
      DistinctPrefix(cs);
      HandOverMeaning(c, init);
      HandOverWakes(c, init, id);
      var before := HandOver(c, init).0;
      assert last.id in CompletionIds(cs) && last.id in before.tracked;
      if id in CompletionIds(cs) {
        WakeRecords(c, before, last.id, id);
        assert HandOver(c, cs).0.woken == Wake(before, last.id).woken;
      }
    }
  }

  /** A step that takes an id's completion out of the backend wakes whoever waits for it and forgets the waker. */
  lemma TakenOperationsAreWoken(s: System, step: Step, id: nat)
    requires Inv(s) && Enabled(s, step)
    requires id in s.queue && id !in After(s, step).queue && id in s.core.wakers
    ensures WokenSince(s.core, After(s, step).core, id)
    ensures id !in After(s, step).core.wakers
  {
    match step {
      case ByIdStep(target, answer) =>
        TakenByIdIsWoken(s, target, answer, id);
      case FuturePollStep(target, waker, answer) =>
        TakenByIdIsWoken(s, target, answer, id);
      case TryCompleteStep(drained, answer) =>
        TakenByProcessIsWoken(s, false, drained, answer, id);
      case WaitStep(drained, answer) =>
        TakenByProcessIsWoken(s, true, drained, answer, id);
      case _ =>
    }
  }

  lemma TakenByIdIsWoken(s: System, target: nat, answer: BackendAnswer, id: nat)
    requires Inv(s) && FromQueue(s.queue, answer)
    requires id in s.queue && id !in AfterById(s, target, answer).queue
    ensures WokenSince(s.core, AfterById(s, target, answer).core, id)
    ensures id !in AfterById(s, target, answer).core.wakers
    ensures id == target ==> AfterTryCompleteById(s.core, target, answer).1.Ok?
    ensures id == target ==> AfterTryCompleteById(s.core, target, answer).1.value.Some?
  {
    ByIdMeaning(s, target, answer);
    MembersHaveIds(answer.value);
    AbsorbMeaning(s.core, target, answer.value);
    AbsorbWakes(s.core, target, answer.value, id);
  }

  lemma TakenByProcessIsWoken(s: System, wait: bool, drained: seq<Completion>, answer: BackendAnswer, id: nat)
    requires Inv(s) && FromQueue(s.queue, answer) && IsDrainOf(drained, s.core.cache)
    requires id in s.queue && id !in AfterProcess(s, wait, drained, answer).queue
    ensures WokenSince(s.core, AfterProcess(s, wait, drained, answer).core, id)
    ensures id !in AfterProcess(s, wait, drained, answer).core.wakers
  {
    ProcessMeaning(s, wait, drained, answer);
    HandOverWakes(s.core.(cache := map[]), drained + answer.value, id);
  }

  /** A waker stays registered as it was, or its task was woken. */
  ghost predicate KeptOrWoken(before: RingCore, after: RingCore, id: nat) {
    id in before.wakers ==>
      (id in after.wakers && after.wakers[id] == before.wakers[id]) || WokenSince(before, after, id)
  }

  lemma ByIdKeepsOrWakes(s: System, target: nat, answer: BackendAnswer, id: nat)
    requires Inv(s) && FromQueue(s.queue, answer)
    ensures var t := AfterById(s, target, answer); s.core.woken <= t.core.woken && KeptOrWoken(s.core, t.core, id)
  {
    ByIdMeaning(s, target, answer);
    if target !in s.core.cache && answer.Ok? {
      MembersHaveIds(answer.value);
      AbsorbWakes(s.core, target, answer.value, id);
    }
  }

  lemma ProcessKeepsOrWakes(s: System, wait: bool, drained: seq<Completion>, answer: BackendAnswer, id: nat)
    requires Inv(s) && FromQueue(s.queue, answer) && IsDrainOf(drained, s.core.cache)
    ensures var t := AfterProcess(s, wait, drained, answer); s.core.woken <= t.core.woken && KeptOrWoken(s.core, t.core, id)
  {
    ProcessMeaning(s, wait, drained, answer);
    if !(wait && s.core.tracked == map[]) && !(AsksBackend(s, wait) && answer.Err?) {
      var cs := HandedOver(s, wait, drained, answer);
      HandOverWakes(s.core.(cache := map[]), cs, id);
      assert cs == drained + if wait || s.core.cache == map[] then answer.value else [];
      assert drained + [] == drained;
    }
  }

  /** The future of this id is polled or dropped. */
  predicate Touches(step: Step, id: nat) {
    (step.FuturePollStep? || step.FutureDropStep?) && step.id == id
  }

  lemma StepKeepsOrWakes(s: System, step: Step, id: nat)
    requires Inv(s) && Enabled(s, step)
    ensures s.core.woken <= After(s, step).core.woken
    ensures !Touches(step, id) ==> KeptOrWoken(s.core, After(s, step).core, id)
  {
    match step
    case ByIdStep(target, answer) => ByIdKeepsOrWakes(s, target, answer, id);
    case FuturePollStep(target, waker, answer) => ByIdKeepsOrWakes(s, target, answer, id);
    case TryCompleteStep(drained, answer) => ProcessKeepsOrWakes(s, false, drained, answer, id);
    case WaitStep(drained, answer) => ProcessKeepsOrWakes(s, true, drained, answer, id);
    case _ =>
  }

  lemma {:induction false} RunKeepsOrWakes(s: System, steps: seq<Step>, id: nat)
    requires Inv(s) && IsRun(s, steps) && id in s.core.wakers
    requires forall step | step in steps :: !Touches(step, id)
    ensures KeptOrWoken(s.core, AfterAll(s, steps).core, id)
    decreases |steps|
  {
    if steps != [] {
      var t, u, w := After(s, steps[0]), AfterAll(s, steps), Wakeup(id, s.core.wakers[id]);
      StepPreservesInv(s, steps[0]);
      StepKeepsOrWakes(s, steps[0], id);
      RunWokenGrows(t, steps[1..]);
      if WokenBetween(s.core.woken, t.core.woken, w) {
        WokenEarlier(s.core.woken, t.core.woken, u.core.woken, w);
      } else {
        RunKeepsOrWakes(t, steps[1..], id);
        if WokenBetween(t.core.woken, u.core.woken, w) {
          WokenEarlier(s.core.woken, t.core.woken, u.core.woken, w);
        }
      }
    }
  }

  lemma {:induction false} RunWokenGrows(s: System, steps: seq<Step>)
    requires Inv(s) && IsRun(s, steps)
    ensures s.core.woken <= AfterAll(s, steps).core.woken
    decreases |steps|
  {
    if steps != [] {
      StepPreservesInv(s, steps[0]);
      StepKeepsOrWakes(s, steps[0], 0);
      RunWokenGrows(After(s, steps[0]), steps[1..]);
    }
  }

  /**
   No lost wake-up.  After a poll that was left pending, and until the future
   is polled again or dropped, its waker stays registered or was called; it
   was called if by then the result left the backend.
   */
  lemma PendingFutureIsWoken(earlier: seq<Step>, id: nat, waker: Waker, answer: BackendAnswer, later: seq<Step>)
    requires IsRun(START, earlier)
    requires var s := AfterAll(START, earlier);
      var poll := FuturePollStep(id, waker, answer);
      && Enabled(s, poll) && AfterFuturePoll(s.core, id, waker, answer).1.Pending?
      && IsRun(After(s, poll), later) && forall step | step in later :: !Touches(step, id)
    ensures var t := After(AfterAll(START, earlier), FuturePollStep(id, waker, answer));
      var u := AfterAll(t, later);
      var woken := WokenBetween(t.core.woken, u.core.woken, Wakeup(id, waker));
      && ((id in u.core.wakers && u.core.wakers[id] == waker) || woken)
      && (id in t.running + t.queue.Keys && id !in u.running + u.queue.Keys ==> woken)
  {
    StartIsSound();
    RunsKeepInv(START, earlier);
    var s := AfterAll(START, earlier);
    var t := After(s, FuturePollStep(id, waker, answer));
    StepPreservesInv(s, FuturePollStep(id, waker, answer));
    assert id in t.core.wakers && t.core.wakers[id] == waker;
    RunKeepsOrWakes(t, later, id);
    LeavingTheBackendWakes(t, later, id);
  }

  /** Once an id has left kernel and queue, nobody is registered for it any more, until its future is polled again. */
  lemma {:induction false} LeavingTheBackendWakes(s: System, steps: seq<Step>, id: nat)
    requires Inv(s) && IsRun(s, steps) && id in s.core.wakers
    requires forall step | step in steps :: !Touches(step, id)
    ensures var t := AfterAll(s, steps);
      id in s.running + s.queue.Keys && id !in t.running + t.queue.Keys ==>
        WokenBetween(s.core.woken, t.core.woken, Wakeup(id, s.core.wakers[id]))
    decreases |steps|
  {
    if steps != [] && id in s.running + s.queue.Keys {
      var t := After(s, steps[0]);
      var u := AfterAll(t, steps[1..]);
      StepPreservesInv(s, steps[0]);
      StepKeepsOrWakes(s, steps[0], id);
      RunWokenGrows(t, steps[1..]);
      if WokenBetween(s.core.woken, t.core.woken, Wakeup(id, s.core.wakers[id])) {
        WokenEarlier(s.core.woken, t.core.woken, u.core.woken, Wakeup(id, s.core.wakers[id]));
      } else {
        if id !in t.running + t.queue.Keys {
          BackendIsLeftThroughTheQueue(s, steps[0], id);
          TakenOperationsAreWoken(s, steps[0], id);
        }
        LeavingTheBackendWakes(t, steps[1..], id);
        if id !in u.running + u.queue.Keys {
          WokenEarlier(s.core.woken, t.core.woken, u.core.woken, Wakeup(id, s.core.wakers[id]));
        }
      }
    }
  }

  lemma BackendIsLeftThroughTheQueue(s: System, step: Step, id: nat)
    requires Inv(s) && Enabled(s, step)
    requires id in s.running + s.queue.Keys && id !in After(s, step).running + After(s, step).queue.Keys
    ensures id in s.queue
  {
  }
}
