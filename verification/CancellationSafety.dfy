/**
 Operations that own their buffer, and the tracker that takes the buffer over
 when such an operation is dropped before the kernel is done with it.
 */
module CancellationSafety {
  import opened Wrappers
  import opened Completions
  import opened OperationTracking
  import opened Wakers
  import opened BufferOwnership

  datatype SafetyError =
    | BufferAlreadyTaken
    | FailedDuringSubmission
    | CompletionFailed(message: string)
    | CheckFailed(message: string)
    | PolledAfterCompletion

  // ----- The orphan tracker ----------------------------------------------

  class OrphanTracker {
    var orphanedOperations: map<nat, OwnedBuffer>
    var nextSubmissionId: nat

    /** The storage each orphan keeps alive, whichever handle it is held by. */
    ghost function Cells(): map<nat, BufferCell>
      reads this
    {
      map id | id in orphanedOperations :: orphanedOperations[id].inner
    }

    constructor ()
      ensures orphanedOperations == map[] && nextSubmissionId == IdOf(0)
    {
      orphanedOperations := map[];
      nextSubmissionId := 1;
    }

    method NextSubmissionId() returns (id: nat)
      modifies this`nextSubmissionId
      ensures id == old(nextSubmissionId) && nextSubmissionId == (id + 1) % U64_RANGE
    {
      id := nextSubmissionId;
      nextSubmissionId := (nextSubmissionId + 1) % U64_RANGE;
    }

    method RegisterOrphan(id: nat, buffer: OwnedBuffer)
      modifies this`orphanedOperations
      ensures orphanedOperations == old(orphanedOperations)[id := buffer]
      ensures Cells() == old(Cells())[id := buffer.inner]
    {
      orphanedOperations := orphanedOperations[id := buffer];
    }

    method HandleCompletion(id: nat, result: IoResult) returns (orphan: Option<(OwnedBuffer, IoResult)>)
      modifies this`orphanedOperations
      ensures orphan == if id in old(orphanedOperations) then Some((old(orphanedOperations)[id], result)) else None
      ensures orphanedOperations == old(orphanedOperations) - {id}
      ensures Cells() == old(Cells()) - {id}
    {
      if id in orphanedOperations {
        orphan := Some((orphanedOperations[id], result));
        orphanedOperations := orphanedOperations - {id};
      } else {
        orphan := None;
      }
    }

    method CleanupAllOrphans() returns (count: nat)
      modifies this`orphanedOperations
      ensures orphanedOperations == map[] && count == |old(orphanedOperations)|
    {
      count := |orphanedOperations|;
      orphanedOperations := map[];
    }
  }

  // ----- The operation object --------------------------------------------

  /** An operation object, for any representation `H` of what keeps a buffer alive. */
  datatype OpState<H> = OpState(buffer: Option<H>, completed: bool)

  /** The orphan map after an operation object was dropped. */
  function AfterDrop<H>(orphans: map<nat, H>, id: nat, op: OpState<H>, reachable: bool): map<nat, H> {
    if !op.completed && op.buffer.Some? && reachable then orphans[id := op.buffer.value] else orphans
  }

  class SafeOperation {
    const submissionId: nat
    var buffer: Option<OwnedBuffer>
    const orphanTracker: OrphanTracker
    var completed: bool

    ghost function View(): OpState<BufferCell>
      reads this
    {
      OpState(if buffer.Some? then Some(buffer.value.inner) else None, completed)
    }

    constructor (buffer: OwnedBuffer, submissionId: nat, orphanTracker: OrphanTracker)
      ensures this.buffer == Some(buffer) && !completed
      ensures this.submissionId == submissionId && this.orphanTracker == orphanTracker
    {
      this.buffer := Some(buffer);
      this.submissionId := submissionId;
      this.orphanTracker := orphanTracker;
      this.completed := false;
    }

    /** Marked completed at once, so that its first poll fails and nothing is orphaned. */
    constructor Failed(buffer: OwnedBuffer, submissionId: nat, orphanTracker: OrphanTracker)
      ensures this.buffer == Some(buffer) && completed
      ensures this.submissionId == submissionId && this.orphanTracker == orphanTracker
    {
      this.buffer := Some(buffer);
      this.submissionId := submissionId;
      this.orphanTracker := orphanTracker;
      this.completed := true;
    }

    /** Consumes the operation; it is dropped afterwards with nothing left to orphan. */
    method Complete() returns (r: Result<OwnedBuffer, SafetyError>)
      modifies this
      ensures completed && buffer == None
      ensures r == if old(buffer).Some? then Ok(old(buffer).value) else Err(BufferAlreadyTaken)
    {
      completed := true;
      r := if buffer.Some? then Ok(buffer.value) else Err(BufferAlreadyTaken);
      buffer := None;
    }

    /** Hands the buffer to the kernel under this operation's id; length zero when there is none. */
    method BufferInfo() returns (r: Outcome<Result<nat, OwnershipError>>)
      modifies if buffer.Some? then {buffer.value.inner} else {}
      ensures buffer.None? ==> r == Returned(Ok(0))
      ensures buffer.Some? ==>
        (buffer.value.inner.View(), r) == GiveCell(old(buffer.value.inner.View()), submissionId)
    {
      if buffer.Some? {
        r := buffer.value.GiveToKernel(submissionId);
      } else {
        r := Returned(Ok(0));
      }
    }

    /**
     Runs when the operation is dropped.  `reachable` says whether the weak
     reference to the tracker could be upgraded and its mutex locked.
     */
    method Drop(reachable: bool)
      modifies orphanTracker`orphanedOperations
      ensures orphanTracker.Cells() == AfterDrop(old(orphanTracker.Cells()), submissionId, View(), reachable)
    {
      if !completed && buffer.Some? {
        if reachable {
          var handle := buffer.value.CloneHandle();
          orphanTracker.RegisterOrphan(submissionId, handle);
        }
      }
    }
  }

  // ----- Looking for one operation's completion --------------------------

  /** The part of the ring this search touches. */
  datatype CheckState<H> = CheckState(
    orphans: map<nat, H>,
    cache: map<nat, IoResult>,
    wakers: map<nat, Waker>,
    woken: seq<Wakeup>
  )

  function CheckOne<H>(s: CheckState<H>, target: nat, found: Option<IoResult>, c: Completion)
    : (CheckState<H>, Option<IoResult>)
  {
    var unorphaned := s.(orphans := s.orphans - {c.id});
    if c.id == target then
      (unorphaned, if c.id in s.orphans then found else Some(c.result))
    else if c.id in s.orphans then
      (unorphaned.(cache := s.cache - {c.id}), found)
    else
      (s.(cache := s.cache[c.id := c.result],
          wakers := s.wakers - {c.id},
          woken := s.woken + if c.id in s.wakers then [Wakeup(c.id, s.wakers[c.id])] else []), found)
  }

  function CheckMany<H>(s: CheckState<H>, target: nat, cs: seq<Completion>): (CheckState<H>, Option<IoResult>) {
    if cs == [] then (s, None)
    else
      var (before, found) := CheckMany(s, target, cs[..|cs| - 1]);
      CheckOne(before, target, found, cs[|cs| - 1])
  }

  function AfterCheck<H>(s: CheckState<H>, target: nat, answer: Result<seq<Completion>, string>)
    : (CheckState<H>, Result<Option<IoResult>, string>)
  {
    if target in s.cache then (s.(cache := s.cache - {target}), Ok(Some(s.cache[target])))
    else match answer
      case Err(message) => (s, Err(message))
      case Ok(cs) =>
        var (after, found) := CheckMany(s, target, cs);
        (after, Ok(found))
  }

  /** The ring as a completion checker for operations that own their buffer. */
  class CompletionChecker {
    var completionCache: map<nat, IoResult>
    const orphanTracker: OrphanTracker
    const wakerRegistry: WakerRegistry

    ghost function View(): CheckState<BufferCell>
      reads this, orphanTracker, wakerRegistry
    {
      CheckState(orphanTracker.Cells(), completionCache, wakerRegistry.wakers, wakerRegistry.woken)
    }

    constructor (orphanTracker: OrphanTracker, wakerRegistry: WakerRegistry)
      ensures this.orphanTracker == orphanTracker && this.wakerRegistry == wakerRegistry && completionCache == map[]
    {
      this.completionCache := map[];
      this.orphanTracker := orphanTracker;
      this.wakerRegistry := wakerRegistry;
    }

    method TryCompleteSafeOperation(id: nat, answer: Result<seq<Completion>, string>)
      returns (r: Result<Option<IoResult>, string>)
      modifies this, orphanTracker`orphanedOperations, wakerRegistry
      ensures (View(), r) == AfterCheck(old(View()), id, answer)
    {
      if id in completionCache {
        var result := completionCache[id];
        completionCache := completionCache - {id};
        return Ok(Some(result));
      }
      if answer.Err? {
        return Err(answer.error);
      }
      var completions := answer.value;
      var target: Option<IoResult> := None;
      for k := 0 to |completions|
        invariant (View(), target) == CheckMany(old(View()), id, completions[..k])
      {
        var c := completions[k];
        ghost var before := View();
        assert completions[..k + 1][..k] == completions[..k];
        if c.id == id {
          var orphan := orphanTracker.HandleCompletion(c.id, c.result);
          if orphan.None? {
            target := Some(c.result);
          }
        } else {
          completionCache := completionCache[c.id := c.result];
          var orphan := orphanTracker.HandleCompletion(c.id, c.result);
          if orphan.Some? {
            completionCache := completionCache - {c.id};
            assert completionCache == before.cache - {c.id};
          } else {
            assert orphanTracker.Cells() == before.orphans;
            var _ := wakerRegistry.WakeOperation(c.id);
          }
        }
      }
      assert completions[..|completions|] == completions;
      r := Ok(target);
    }
  }

  // ----- The future -------------------------------------------------------

  /** `i32 as usize`: a negative count would wrap around. */
  function AsUsize(bytes: int): int {
    bytes % U64_RANGE
  }

  datatype FutureState<H> = FutureState(operation: Option<OpState<H>>, orphans: map<nat, H>, wakers: map<nat, Waker>)

  /** A failed operation is never looked up. */
  predicate IsFailed<H>(op: OpState<H>) {
    op.completed && op.buffer.Some?
  }

  /**
   One poll of the future of operation `id`; `check` is what the completion
   checker answered.  On a checker error the operation goes out of scope, so
   its drop runs and its buffer moves to the orphan map.
   */
  function AfterFuturePoll<H>(s: FutureState<H>, id: nat, check: Result<Option<IoResult>, string>, waker: Waker, reachable: bool)
    : (FutureState<H>, Poll<Result<(int, H), SafetyError>>)
  {
    if s.operation.None? then (s, Ready(Err(PolledAfterCompletion)))
    else
      var op, gone := s.operation.value, s.(operation := None);
      if IsFailed(op) then (gone, Ready(Err(FailedDuringSubmission)))
      else match check
        case Ok(Some(result)) =>
          if op.buffer.None? then (gone, Ready(Err(BufferAlreadyTaken)))
          else
            (gone.(wakers := s.wakers - {id}),
             Ready(match result
                   case Ok(bytes) => Ok((AsUsize(bytes), op.buffer.value))
                   case Err(message) => Err(CompletionFailed(message))))
        case Ok(None) =>
          (s.(wakers := s.wakers[id := waker]), Pending)
        case Err(message) =>
          (gone.(orphans := AfterDrop(s.orphans, id, op, reachable), wakers := s.wakers - {id}),
           Ready(Err(CheckFailed(message))))
  }

  /** An answer, with the storage in place of the handle. */
  ghost function OnCell(r: Poll<Result<(int, OwnedBuffer), SafetyError>>): Poll<Result<(int, BufferCell), SafetyError>> {
    match r
    case Pending => Pending
    case Ready(Err(e)) => Ready(Err(e))
    case Ready(Ok((bytes, buffer))) => Ready(Ok((bytes, buffer.inner)))
  }

  class SafeOperationFuture {
    var operation: Option<SafeOperation>
    const wakerRegistry: WakerRegistry

    ghost function View(tracker: OrphanTracker): FutureState<BufferCell>
      reads this, tracker, wakerRegistry, if operation.Some? then {operation.value} else {}
    {
      FutureState(if operation.Some? then Some(operation.value.View()) else None, tracker.Cells(), wakerRegistry.wakers)
    }

    constructor (operation: SafeOperation, wakerRegistry: WakerRegistry)
      ensures this.operation == Some(operation) && this.wakerRegistry == wakerRegistry
    {
      this.operation := Some(operation);
      this.wakerRegistry := wakerRegistry;
    }

    /** `reachable` is passed on to the drop of the operation. */
    method Poll(check: Result<Option<IoResult>, string>, waker: Waker, reachable: bool)
      returns (r: Poll<Result<(int, OwnedBuffer), SafetyError>>)
      modifies this`operation, wakerRegistry`wakers
      modifies if operation.Some? then {operation.value, operation.value.orphanTracker} else {}
      ensures old(operation).None? ==>
        r == Ready(Err(PolledAfterCompletion)) && operation == None && wakerRegistry.wakers == old(wakerRegistry.wakers)
      ensures old(operation).Some? ==> var op := old(operation.value);
        (View(op.orphanTracker), OnCell(r))
        == AfterFuturePoll(old(View(operation.value.orphanTracker)), op.submissionId, check, waker, reachable)
      ensures r.Pending? ==>
        && operation == old(operation) && operation.Some?
        && operation.value.submissionId in wakerRegistry.wakers
        && wakerRegistry.wakers[operation.value.submissionId] == waker
      ensures old(operation).Some? && r.Ready? && r.value.Ok? ==> Some(r.value.value.1) == old(operation.value.buffer)
    {
      if operation.None? {
        return Ready(Err(PolledAfterCompletion));
      }
      var op := operation.value;
      operation := None;
      if op.completed && op.buffer.Some? {
        op.buffer := None;
        return Ready(Err(FailedDuringSubmission));
      }
      match check {
        case Ok(Some(result)) =>
          op.completed := true;
          if op.buffer.None? {
            return Ready(Err(BufferAlreadyTaken));
          }
          var buffer := op.buffer.value;
          op.buffer := None;
          var _ := wakerRegistry.RemoveWaker(op.submissionId);
          match result {
            case Ok(bytes) =>
              r := Ready(Ok((AsUsize(bytes), buffer)));
            case Err(message) =>
              r := Ready(Err(CompletionFailed(message)));
          }
        case Ok(None) =>
          operation := Some(op);
          wakerRegistry.RegisterWaker(op.submissionId, waker);
          r := Pending;
        case Err(message) =>
          var _ := wakerRegistry.RemoveWaker(op.submissionId);
          op.Drop(reachable);
          r := Ready(Err(CheckFailed(message)));
      }
    }
  }
}
