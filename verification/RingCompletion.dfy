/**
 Completion handling of the ring: a side cache lets a caller ask for one
 operation without losing the completions of the others.

 The backend is not modelled here; what it answers to a poll is a parameter.
 */
module RingCompletion {
  import opened Wrappers
  import opened Completions
  import opened OperationTracking
  import opened Wakers

  datatype RingError =
    | InvalidOperation(message: string)
    | NothingInFlight
    | UnknownOperation(id: nat)
    | BackendError(message: string)

  /** What `try_complete` and `wait_for_completion` hand to their caller. */
  datatype CompletionResult =
    CompletionResult(id: nat, opType: OperationType, fd: int, result: IoResult, buffer: Option<nat>)

  type BackendAnswer = Result<seq<Completion>, string>

  datatype RingCore = RingCore(
    tracked: map<nat, OperationHandle>,
    nextId: nat,
    cache: map<nat, IoResult>,
    wakers: map<nat, Waker>,
    woken: seq<Wakeup>
  )

  // ----- Effects of the calls --------------------------------------------

  function Wake(c: RingCore, id: nat): RingCore {
    c.(wakers := c.wakers - {id},
       woken := c.woken + if id in c.wakers then [Wakeup(id, c.wakers[id])] else [])
  }

  function Untrack(c: RingCore, id: nat): RingCore {
    c.(tracked := c.tracked - {id})
  }

  /** One backend completion seen by a caller that waits for `target`. */
  function AbsorbOne(c: RingCore, target: nat, found: Option<IoResult>, completion: Completion)
    : (RingCore, Option<IoResult>)
  {
    if completion.id !in c.tracked then (c, found)
    else if completion.id == target then (Wake(Untrack(c, target), target), Some(completion.result))
    else (Wake(c.(cache := c.cache[completion.id := completion.result]), completion.id), found)
  }

  function Absorb(c: RingCore, target: nat, cs: seq<Completion>): (RingCore, Option<IoResult>) {
    if cs == [] then (c, None)
    else
      var (before, found) := Absorb(c, target, cs[..|cs| - 1]);
      AbsorbOne(before, target, found, cs[|cs| - 1])
  }

  function AfterTryCompleteById(c: RingCore, id: nat, answer: BackendAnswer)
    : (RingCore, Result<Option<IoResult>, RingError>)
  {
    if id in c.cache then
      (Wake(Untrack(c.(cache := c.cache - {id}), id), id), Ok(Some(c.cache[id])))
    else match answer
      case Err(message) => (c, Err(BackendError(message)))
      case Ok(cs) =>
        var (after, found) := Absorb(c, id, cs);
        (after, Ok(found))
  }

  /** Hand-over of a list of completions; stops at the first id that is not tracked. */
  function HandOver(c: RingCore, cs: seq<Completion>): (RingCore, Result<seq<CompletionResult>, RingError>) {
    if cs == [] then (c, Ok([]))
    else
      var (before, done) := HandOver(c, cs[..|cs| - 1]);
      var Completion(id, result) := cs[|cs| - 1];
      if done.Err? then (before, done)
      else if id !in before.tracked then (before, Err(UnknownOperation(id)))
      else
        var h := before.tracked[id];
        (Wake(Untrack(before, id), id), Ok(done.value + [CompletionResult(id, h.opType, h.fd, result, h.buffer)]))
  }

  /** `drained` lists the cache, in the arbitrary order a hash map is drained in. */
  ghost predicate IsDrainOf(drained: seq<Completion>, cache: map<nat, IoResult>) {
    && DistinctCompletions(drained)
    && CompletionIds(drained) == cache.Keys
    && forall c | c in drained :: cache[c.id] == c.result
  }

  ghost function AfterProcessQueue(c: RingCore, wait: bool, drained: seq<Completion>, answer: BackendAnswer)
    : (RingCore, Result<seq<CompletionResult>, RingError>)
  {
    var emptied := c.(cache := map[]);
    if wait || c.cache == map[] then
      if answer.Err? then (emptied, Err(BackendError(answer.error)))
      else HandOver(emptied, drained + answer.value)
    else HandOver(emptied, drained)
  }

  ghost function AfterWait(c: RingCore, drained: seq<Completion>, answer: BackendAnswer)
    : (RingCore, Result<seq<CompletionResult>, RingError>)
  {
    if c.tracked == map[] then (c, Err(NothingInFlight))
    else AfterProcessQueue(c, true, drained, answer)
  }

  /**
   What the layers below say to a submission.  The backend may refuse it with
   its entry already `queued`, and the kernel then runs it all the same.
   */
  datatype SubmitOutcome =
    | Invalid(message: string)
    | NotSubmitted(message: string)
    | Refused(message: string, queued: bool)
    | Accepted

  function AfterSubmit(c: RingCore, opType: OperationType, fd: int, outcome: SubmitOutcome)
    : (RingCore, Result<nat, RingError>)
  {
    var id := c.nextId;
    var registered := c.(nextId := (id + 1) % U64_RANGE,
                         tracked := c.tracked[id := OperationHandle(id, opType, fd, None)]);
    match outcome
    case Invalid(message) => (c, Err(InvalidOperation(message)))
    case NotSubmitted(message) => (Untrack(registered, id), Err(InvalidOperation(message)))
    case Refused(message, _) => (registered, Err(BackendError(message)))
    case Accepted => (registered, Ok(id))
  }

  function AfterFuturePoll(c: RingCore, id: nat, waker: Waker, answer: BackendAnswer)
    : (RingCore, Poll<Result<IoResult, RingError>>)
  {
    var (after, r) := AfterTryCompleteById(c, id, answer);
    match r
    case Ok(Some(result)) => (after.(wakers := after.wakers - {id}), Ready(Ok(result)))
    case Ok(None) => (after.(wakers := after.wakers[id := waker]), Pending)
    case Err(e) => (after.(wakers := after.wakers - {id}), Ready(Err(e)))
  }

  // ----- The ring ---------------------------------------------------------

  class Ring {
    const operations: OperationTracker
    const wakerRegistry: WakerRegistry
    var completionCache: map<nat, IoResult>

    ghost function View(): RingCore
      reads this, operations, wakerRegistry
    {
      RingCore(operations.inFlight, operations.nextId, completionCache, wakerRegistry.wakers, wakerRegistry.woken)
    }

    constructor ()
      ensures fresh(operations) && fresh(wakerRegistry)
      ensures View() == RingCore(map[], IdOf(0), map[], map[], [])
    {
      operations := new OperationTracker();
      wakerRegistry := new WakerRegistry();
      completionCache := map[];
    }

    method Submit(opType: OperationType, fd: int, outcome: SubmitOutcome) returns (r: Result<nat, RingError>)
      modifies operations
      ensures (View(), r) == AfterSubmit(old(View()), opType, fd, outcome)
      ensures match outcome
        case Invalid(message) => r == Err(InvalidOperation(message)) && operations.inFlight == old(operations.inFlight)
        case NotSubmitted(message) => r == Err(InvalidOperation(message)) && operations.inFlight == old(operations.inFlight) - {old(operations.nextId)}
        case Refused(message, _) => r == Err(BackendError(message)) && old(operations.nextId) in operations.inFlight
        case Accepted =>
          && r == Ok(old(operations.nextId)) && r.value in operations.inFlight
          && operations.inFlight[r.value] == OperationHandle(r.value, opType, fd, None)
    {
      if outcome.Invalid? {
        return Err(InvalidOperation(outcome.message));
      }
      var id := operations.RegisterOperation(opType, fd, None);
      if outcome.NotSubmitted? {
        var _ := operations.CompleteOperation(id);
        return Err(InvalidOperation(outcome.message));
      }
      if outcome.Refused? {
        return Err(BackendError(outcome.message));
      }
      r := Ok(id);
    }

    method TryCompleteById(id: nat, answer: BackendAnswer) returns (r: Result<Option<IoResult>, RingError>)
      modifies this`completionCache, operations, wakerRegistry
      ensures (View(), r) == AfterTryCompleteById(old(View()), id, answer)
    {
      if id in completionCache {
        var result := completionCache[id];
        completionCache := completionCache - {id};
        var _ := operations.CompleteOperation(id);
        var _ := wakerRegistry.WakeOperation(id);
        return Ok(Some(result));
      }
      if answer.Err? {
        return Err(BackendError(answer.error));
      }
      var completions := answer.value;
      var target: Option<IoResult> := None;
      for k := 0 to |completions|
        invariant (View(), target) == Absorb(old(View()), id, completions[..k])
      {
        var completion := completions[k];
        assert completions[..k + 1][..k] == completions[..k];
        if operations.IsOperationTracked(completion.id) {
          if completion.id == id {
            var _ := operations.CompleteOperation(completion.id);
            var _ := wakerRegistry.WakeOperation(completion.id);
            target := Some(completion.result);
          } else {
            completionCache := completionCache[completion.id := completion.result];
            var _ := wakerRegistry.WakeOperation(completion.id);
          }
        }
      }
      assert completions[..|completions|] == completions;
      r := Ok(target);
    }

    method TryComplete(answer: BackendAnswer)
      returns (r: Result<seq<CompletionResult>, RingError>, ghost drained: seq<Completion>)
      modifies this`completionCache, operations, wakerRegistry
      ensures IsDrainOf(drained, old(completionCache))
      ensures (View(), r) == AfterProcessQueue(old(View()), false, drained, answer)
    {
      r, drained := ProcessCompletionQueue(false, answer);
    }

    method WaitForCompletion(answer: BackendAnswer)
      returns (r: Result<seq<CompletionResult>, RingError>, ghost drained: seq<Completion>)
      modifies this`completionCache, operations, wakerRegistry
      ensures old(operations.inFlight) != map[] ==> IsDrainOf(drained, old(completionCache))
      ensures (View(), r) == AfterWait(old(View()), drained, answer)
    {
      if !operations.HasOperations() {
        return Err(NothingInFlight), [];
      }
      r, drained := ProcessCompletionQueue(true, answer);
    }

    method ProcessCompletionQueue(wait: bool, answer: BackendAnswer)
      returns (r: Result<seq<CompletionResult>, RingError>, ghost drained: seq<Completion>)
      modifies this`completionCache, operations, wakerRegistry
      ensures IsDrainOf(drained, old(completionCache))
      ensures (View(), r) == AfterProcessQueue(old(View()), wait, drained, answer)
    {
      var cached := DrainCache();
      drained := cached;
      assert cached == [] <==> old(completionCache) == map[] by {
        if cached != [] {
          assert cached[0] in cached;
        }
      }
      var fromBackend: seq<Completion> := [];
      if wait || cached == [] {
        if answer.Err? {
          return Err(BackendError(answer.error)), drained;
        }
        fromBackend := answer.value;
      }
      assert cached + [] == cached;
      r := ProcessCompletedOperations(cached + fromBackend);
    }

    method DrainCache() returns (drained: seq<Completion>)
      modifies this`completionCache
      ensures completionCache == map[] && IsDrainOf(drained, old(completionCache))
    {
      drained := [];
      while completionCache != map[]
        invariant DistinctCompletions(drained)
        invariant CompletionIds(drained) !! completionCache.Keys
        invariant CompletionIds(drained) + completionCache.Keys == old(completionCache).Keys
        invariant forall c | c in drained :: c.result == old(completionCache)[c.id]
        invariant forall id | id in completionCache :: completionCache[id] == old(completionCache)[id]
        decreases completionCache.Keys
      {
        var id :| id in completionCache;
        var entry := Completion(id, completionCache[id]);
        assert CompletionIds(drained + [entry]) == CompletionIds(drained) + {id};
        forall i | 0 <= i < |drained|
          ensures drained[i].id != id
        {
          assert drained[i] in drained;
        }
        drained := drained + [entry];
        completionCache := completionCache - {id};
      }
    }

    method ProcessCompletedOperations(completed: seq<Completion>) returns (r: Result<seq<CompletionResult>, RingError>)
      modifies operations, wakerRegistry
      ensures (View(), r) == HandOver(old(View()), completed)
    {
      var completions: seq<CompletionResult> := [];
      for k := 0 to |completed|
        invariant (View(), Ok(completions)) == HandOver(old(View()), completed[..k])
      {
        var Completion(id, result) := completed[k];
        assert completed[..k + 1][..k] == completed[..k];
        var handle := operations.CompleteOperation(id);
        if handle.Some? {
          var _ := wakerRegistry.WakeOperation(id);
          completions := completions +
            [CompletionResult(id, handle.value.opType, handle.value.fd, result, handle.value.buffer)];
        } else {
          assert View().tracked == HandOver(old(View()), completed[..k]).0.tracked;
          HandOverStaysFailed(old(View()), completed, k + 1);
          return Err(UnknownOperation(id));
        }
      }
      assert completed[..|completed|] == completed;
      r := Ok(completions);
    }
  }

  lemma {:induction false} HandOverStaysFailed(c: RingCore, cs: seq<Completion>, k: nat)
    requires k <= |cs| && HandOver(c, cs[..k]).1.Err?
    ensures HandOver(c, cs) == HandOver(c, cs[..k])
    decreases |cs|
  {
    if k == |cs| {
      assert cs[..k] == cs;
    } else {
      assert cs[..|cs| - 1][..k] == cs[..k];
      HandOverStaysFailed(c, cs[..|cs| - 1], k);
    }
  }

  // ----- The future of a single operation --------------------------------

  class OperationFuture {
    /** The submitted operation's id; None after completion. */
    var operation: Option<nat>
    const ring: Ring

    constructor (id: nat, ring: Ring)
      ensures operation == Some(id) && this.ring == ring
    {
      operation := Some(id);
      this.ring := ring;
    }

    /** Panics when polled after completion, hence the precondition. */
    method Poll(waker: Waker, answer: BackendAnswer) returns (r: Poll<Result<IoResult, RingError>>)
      requires operation.Some?
      modifies this`operation, ring`completionCache, ring.operations, ring.wakerRegistry
      ensures (ring.View(), r) == AfterFuturePoll(old(ring.View()), old(operation.value), waker, answer)
      ensures operation == if r.Ready? && r.value.Ok? then None else old(operation)
      ensures r.Pending? ==>
        && old(operation.value) in ring.wakerRegistry.wakers
        && ring.wakerRegistry.wakers[old(operation.value)] == waker
    {
      var id := operation.value;
      var completion := ring.TryCompleteById(id, answer);
      match completion {
        case Ok(Some(result)) =>
          operation := None;
          var _ := ring.wakerRegistry.RemoveWaker(id);
          r := Ready(Ok(result));
        case Ok(None) =>
          ring.wakerRegistry.RegisterWaker(id, waker);
          r := Pending;
        case Err(e) =>
          var _ := ring.wakerRegistry.RemoveWaker(id);
          r := Ready(Err(e));
      }
    }

    method Drop()
      modifies ring.wakerRegistry`wakers
      ensures ring.wakerRegistry.wakers
           == old(ring.wakerRegistry.wakers) - if operation.Some? then {operation.value} else {}
    {
      if operation.Some? {
        var _ := ring.wakerRegistry.RemoveWaker(operation.value);
      }
    }
  }
}
