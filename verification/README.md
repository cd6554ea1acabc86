# Verified model of a safe io_uring ring

This project models the parts of an io_uring wrapper that decide who owns what
and who learns what: batches of dependent operations, the futures that wait
for them, the ring's completion cache, buffers shared with the kernel,
cancellation, lock-free counters, registration tables, buffer pools and a
stream adapter. The kernel is an environment whose answers are parameters;
everything else follows the Rust code branch by branch.

Run `dafny verify dfyconfig.toml` to check it.

## How it is organised

Objects the source updates in place are classes. Their methods are proved
against plain functions on a view of the fields (`AfterPoll`, `Absorb`,
`HandOver`, `AfterCheck`, `Insert`, ...). The laws are then proved about those
functions: first what one call means, with no loop in sight, then what every
run of calls keeps. Threads and tasks are interleavings of atomic steps, one
step for each critical section or atomic instruction. Hash maps are walked in
an arbitrary order, so every result below holds for all of them.

| modules | what they hold |
|---|---|
| `Wrappers`, `Completions`, `Wakers`, `OperationTracking` | outcomes, completion lists, waker registry, id allocation |
| `DependencyGraph`, `DependencyValidation`, `Batches` | paths and cycles, the three graph searches, a batch as built by its callers |
| `BatchResults`, `BatchFutures`, `BatchFutureRuns`, `BatchSubmission` | result summary, the batch future, runs of polls, submission and its end-to-end law |
| `RingCompletion`, `RingRuns` | the completion cache and its clients, runs of a ring with its backend |
| `BufferOwnership`, `CancellationSafety`, `CancellationRuns` | the three-state buffer, operations that own their buffer, runs with cancellation |
| `PerfCounters` | compare-exchange loops under any interleaving |
| `ReadAdapter`, `Registries`, `BufferPools`, `CpuLists` | stream adapter, slot tables, buffer pool, CPU list parser |

## Where a promise does not hold, and exactly when it does

Some properties the code is meant to have are false in some runs. The code is
modelled as it is; each such property has its exact condition.

* A blocking wait empties the cache before it asks the backend, so an error
  there loses the cached results, and only that does:
  `RingRuns.EveryResultIsDeliverableIff`, with the run
  `RingRuns.WaitMayLoseACachedResult`. A submission the backend refuses before
  it queued the entry stays tracked too; `RingRuns.NothingStrandedIff` shows
  that these are the only two ways to track an operation no layer will answer.
* An answer given under fail-fast does not mark the future completed, so a
  later poll may answer with a ring error instead
  (`BatchFutureRuns.ReadyIsLatchedUnlessFailFastFired`).
* A buffer is let go while the kernel uses it exactly by the steps listed in
  `CancellationRuns.Breaks`: releasing a pending operation, dropping one whose
  tracker is gone or locked by a panicked thread, dropping or polling one that
  was refused after its entry was queued, or emptying the orphan map while an
  orphan is in flight (`CancellationRuns.RunIsSafeIff`). The public
  `Ring::process_completions` (src/ring/core/utility.rs:91-109) is what takes
  the last of these steps: dropping a pending future and then calling it is
  the run `CancellationRuns.CleanupFreesABufferInUse`.
* An orphan is never handed back exactly when its operation was dropped after
  its completion had been cached for it, or when it belongs to an accept the
  backend refused before queueing it, which is dropped at once
  (`CancellationRuns.OrphansAreReclaimableIff`, with the runs
  `CancellationRuns.StuckOrphanIsReachable` and
  `CancellationRuns.RefusedAcceptIsStuck`).
* A read that completes while the caller offers no room makes the adapter hand
  out cached bytes again (`ReadAdapter.FaithfulIffNeverDamages`).
* A read that fails keeps the adapter's buffer, so every later poll that needs
  it fails too (`ReadAdapter.UsableIffNoReadFailed`).
* In-use marks are a set and not a count, so the first of two operations on
  one slot to finish unprotects the other (`Registries.ProtectedIffMarksNotShared`).
* The recorded memory peak is what allocations produced; a deallocation of
  more than is allocated wraps around and is not seen
  (`PerfCounters.PeakIsTheMostEverInUse`, `PerfCounters.PeakIsExactWhenQuiet`,
  with the run `PerfCounters.UnderflowIsNotInThePeak`).

Where the source's comments disagree with its code, the model follows the code:

* `Batch::add_dependency` is documented as delaying dependents until their
  dependencies complete; every operation is submitted at once in index order,
  and dependents are cancelled only under fail-fast.
* `try_complete_by_id` is documented to fail for an unknown id; it answers
  that nothing was found.
* `SafeOperation::failed` is documented to give the buffer back through the
  future; the poll drops it and answers with an error.
* Detaching a pooled buffer is documented as removing it from pool management;
  the pool goes on counting it as in use, so it is never full again.
* Unregistering consumes the handle also when it is refused.

## Model

| member | source | states |
|---|---|---|
| DependencyValidation.WouldCreateCycle | src/ring/batch/validation.rs:152-178 | the stack search answers exactly whether the dependent can be reached from the new dependency, on any map, cyclic or not, and terminates |
| DependencyValidation.HasCycleFrom | src/ring/batch/validation.rs:77-100 | one depth-first visit: true only if there is a cycle; otherwise the node and all it depends on are finished, lie on no cycle, and the recursion stack is as before |
| DependencyValidation.HasCircularDependencies | src/ring/batch/validation.rs:75-113 | true exactly when some nonempty path leads from a node back to itself, for every key order |
| DependencyValidation.VisitNode | src/ring/batch/validation.rs:274-306 | one visit of the sort: extends a duplicate-free, dependencies-first list by nodes reachable from this one, or a cycle is reachable from it |
| DependencyValidation.DependencyOrder | src/ring/batch/validation.rs:226-249 | succeeds exactly when no index below the count reaches a cycle; then lists exactly those indices and what they depend on, once each, every dependency strictly earlier |
| DependencyValidation.OrderedSetReachesNoCycle | src/ring/batch/validation.rs:226-249 | a node of a dependencies-first list reaches no cycle: why an order is a certificate |
| DependencyValidation.InRangeCycleIsReachable | src/ring/batch/validation.rs:226-249 | with all indices in range, the sort fails exactly when the map has a cycle, so both whole-map checks agree |
| DependencyValidation.InRangeListsExactlyIndices | src/ring/batch/validation.rs:226-249 | with all indices in range, the nodes to list are exactly the indices |
| DependencyValidation.ExactListIsPermutation | src/ring/batch/validation.rs:226-249 | a duplicate-free list of exactly the indices is a permutation of them |
| DependencyGraph.PathThroughNewEdge | src/ring/batch/core.rs:236-245 | a path that may use a new edge avoids it or splits at it |
| DependencyGraph.NewEdgeKeepsAcyclicity | src/ring/batch/core.rs:236-245 | an edge added to an acyclic graph closes a cycle exactly when its head already reached its tail |
| Batches.Batch.constructor | src/ring/batch/core.rs:56-82 | a new batch is empty and satisfies the invariant |
| Batches.Batch.AddOperation | src/ring/batch/core.rs:116-133 | refuses exactly a full batch, then an invalid operation; otherwise appends the operation behind all others and answers the index it is at; keeps the invariant |
| Batches.Batch.AddDependency | src/ring/batch/core.rs:211-247 | the errors in the source's order, a cycle refused exactly when the graph with the new edge has one; the edges are afterwards the old ones and an accepted one; keeps the batch acyclic and in range |
| Batches.Batch.Clear | src/ring/batch/core.rs:273-276 | back to the empty batch |
| Batches.Batch.HasCircularDependencies | src/ring/batch/core.rs:268-270 | never true of a batch built through this interface |
| Batches.Batch.DependencyOrder | src/ring/batch/core.rs:282-284 | never fails on such a batch; answers a permutation of the indices with dependencies first |
| Batches.ReachableBatchesAreSound | src/ring/batch/core.rs:116-276 | every batch reachable by any calls is acyclic and in range |
| Batches.IndicesKeepNaming | src/ring/batch/core.rs:116-276 | until the batch is cleared every operation stays at its index |
| Batches.AnsweredIndexNamesItsOperation | src/ring/batch/core.rs:116-276 | an index handed out names the operation it was given for over every run without a clear |
| Batches.EdgeAcceptedIffStillAcyclic | src/ring/batch/core.rs:211-247 | an in-range edge between distinct operations is accepted exactly when the larger graph has no cycle |
| Batches.AcceptedIffAcyclic | src/ring/batch/core.rs:211-247 | a whole list of edges is accepted exactly when the final graph has no cycle |
| Batches.AcceptanceIgnoresOrder | src/ring/batch/core.rs:211-247 | whether a list of dependencies is accepted does not depend on their order |
| BatchResults.SummaryIsTruthful | src/ring/batch/result.rs:85-119 | both counts are the number of indices of their kind; "all succeeded" holds exactly when every entry is a success, "any failed" exactly when some entry is an error |
| BatchResults.CountsPartition | src/ring/batch/result.rs:85-100 | successes, errors and cancellations add up to the number of entries |
| BatchFutures.StandaloneBatchFuture.constructor | src/future/standalone_batch_future.rs:41-67 | for any ids and dependencies: all slots empty, and the table leads each id to the slot it belongs to |
| BatchFutures.StandaloneBatchFuture.PollWithRing | src/future/standalone_batch_future.rs:115-146 | one poll equals: record this poll's reports; under fail-fast with a new error cancel the rest; ready when all is filled. The dependency walk leaves no trace |
| BatchFutures.StandaloneBatchFuture.PollCompletions | src/future/standalone_batch_future.rs:149-233 | the same for the inner poll, and it asks to be polled again exactly when it is pending and filled a slot |
| BatchFutures.StandaloneBatchFuture.RecordCompletions | src/future/standalone_batch_future.rs:162-189 | each empty slot takes the first report of its id, filled slots and foreign ids change nothing; the flags and the list say exactly which slots were filled |
| BatchFutures.StandaloneBatchFuture.CancelDependentOperations | src/future/standalone_batch_future.rs:256-282 | cancels exactly the empty slots that transitively depend on the failed one, never the failed one itself, also on cyclic maps |
| BatchFutures.StandaloneBatchFuture.FindDependents | src/future/standalone_batch_future.rs:256-273 | the worklist finds exactly the other operations from which the failed one is reachable, and terminates |
| BatchFutures.StandaloneBatchFuture.CancelAllRemainingOperations | src/future/standalone_batch_future.rs:285-291 | cancels exactly the empty slots |
| BatchFutures.StandaloneBatchFuture.Drop | src/future/standalone_batch_future.rs:311-321 | cancels the empty slots and removes exactly the wakers of the batch's ids |
| BatchFutures.RecordOneMore | src/future/standalone_batch_future.rs:162-189 | recording one more completion fills its owner's slot if that is still empty, and nothing else |
| BatchFutureRuns.SlotsAreWriteOnce | src/future/standalone_batch_future.rs:149-233 | over any run of polls a filled slot keeps its value |
| BatchFutureRuns.ReadyMeansFilled | src/future/standalone_batch_future.rs:149-233 | a successful answer means every slot is filled and lists exactly the slots |
| BatchFutureRuns.AnswersAgree | src/future/standalone_batch_future.rs:115-146 | any two successful answers of one run are the same |
| BatchFutureRuns.SlotsAreFirstReports | src/future/standalone_batch_future.rs:149-233 | without fail-fast the slots depend on the completions alone, however they were split across polls |
| BatchFutureRuns.BatchDeliversReportedResults | src/future/standalone_batch_future.rs:115-233 | without fail-fast a poll is ready exactly when every operation has been reported and passes a ring error on; entry i is the byte count or the error first reported for operation i, and none is cancelled |
| BatchFutureRuns.BatchDeliversBackendResults | src/future/standalone_batch_future.rs:115-233 | entry i is the backend's own byte count or error for operation i, for every arrival order, and none is cancelled |
| BatchFutureRuns.LookupIsLinearSearch | src/future/standalone_batch_future.rs:41-67 | on distinct ids the table lookup finds what a linear search finds |
| BatchFutureRuns.NoErrorNoDifference | src/future/standalone_batch_future.rs:191-212 | until an operation of the batch fails, fail-fast makes no difference |
| BatchFutureRuns.FailFastAnswersAtFirstError | src/future/standalone_batch_future.rs:191-212 | the first poll that learns of a failure answers with the byte count or error of all that was reported so far and cancels exactly the rest |
| BatchFutureRuns.ReadyIsLatchedUnlessFailFastFired | src/future/standalone_batch_future.rs:191-221 | a ready answer survives a later ring error exactly when it was not given by the fail-fast path |
| BatchFutureRuns.FailFastAnswerMayBeFollowedByError | src/future/standalone_batch_future.rs:191-212 | a concrete run in which a ready answer is followed by an error |
| BatchSubmission.SubmitBatchStandalone | src/ring/core/batch_operations.rs:214-272 | empty and oversized batches are refused with the ring unchanged; otherwise the ring is as after submitting each operation in index order, and the future carries the ids, the batch's dependencies and the configuration |
| BatchSubmission.SubmitAll | src/ring/core/batch_operations.rs:252-264 | the loop submits in index order, stops at the first operation turned away, and copies the dependency map exactly |
| BatchSubmission.AcceptedRowIsSubmitted | src/ring/core/batch_operations.rs:252-264 | when all are accepted, each operation is tracked with its own type and descriptor under consecutive ids, and nothing else became tracked |
| BatchSubmission.RefusalStopsSubmission | src/ring/core/batch_operations.rs:252-264 | the first operation turned away decides the error; those before it stay submitted |
| BatchSubmission.ConsecutiveIdsAreDistinct | src/operation/tracker.rs:61-81 | the ids of one batch are distinct even across the 64-bit wrap-around |
| BatchSubmission.RowStepsAreASubmission | src/ring/core/batch_operations.rs:252-264 | the submit steps of a run do to the ring what the submission loop does, and deliver nothing |
| BatchSubmission.BatchAnswersWithKernelResults | src/future/standalone_batch_future.rs:115-233 | end to end: for a batch submitted at any point of a run and given all deliveries after it, the poll is ready exactly when every id its submission handed out was delivered, and answers with the byte count or error the kernel's own steps produced for each; none is cancelled |
| OperationTracking.OperationTracker.constructor | src/operation/tracker.rs:48-53 | nothing in flight, ids start at 1 |
| OperationTracking.OperationTracker.RegisterOperation | src/operation/tracker.rs:61-81 | answers the next id, tracks the operation under it, and the counter wraps at 64 bits |
| OperationTracking.OperationTracker.CompleteOperation | src/operation/tracker.rs:84-86 | answers the tracked handle, if any, and stops tracking exactly that id |
| OperationTracking.IdsAreDistinct | src/operation/tracker.rs:61-81 | fewer than 2^64 registrations never reuse an id |
| OperationTracking.IdsWrapAround | src/operation/tracker.rs:61-81 | the 2^64-th registration after one reuses its id |
| Wakers.WakerRegistry.RegisterWaker | src/future/waker.rs:32-35 | the id's waker is replaced |
| Wakers.WakerRegistry.WakeOperation | src/future/waker.rs:40-47 | wakes and removes the id's waker if there is one |
| Wakers.WakerRegistry.RemoveWaker | src/future/waker.rs:52-55 | removes without waking |
| RingCompletion.Ring.Submit | src/ring/core/mod.rs:390-424 | the answer, and the operation tracked under it with its type and descriptor, for each outcome; a refusal by the backend leaves the operation tracked |
| RingCompletion.Ring.TryCompleteById | src/ring/completion/mod.rs:126-188 | a cached result is taken, untracked and woken without asking the backend; otherwise the loop over the backend's answer equals the recursive specification |
| RingCompletion.Ring.TryComplete | src/ring/completion/mod.rs:58-60 | as the drain below, without waiting |
| RingCompletion.Ring.WaitForCompletion | src/ring/completion/mod.rs:95-105 | an error with nothing changed when nothing is tracked; otherwise the drain below, waiting |
| RingCompletion.Ring.ProcessCompletionQueue | src/ring/completion/mod.rs:208-237 | empties the cache, asks the backend if it waits or found the cache empty, and hands both over |
| RingCompletion.Ring.DrainCache | src/ring/completion/mod.rs:210-217 | lists every cached result once, in some order, and empties the cache |
| RingCompletion.Ring.ProcessCompletedOperations | src/ring/completion/mod.rs:261-297 | untracks and wakes each id in order, and stops with an error at the first id not tracked |
| RingCompletion.OperationFuture.Poll | src/future/operation_future.rs:63-110 | asks for its id; ready drops the waker and, on success, the operation; pending registers the waker |
| RingCompletion.OperationFuture.Drop | src/future/operation_future.rs:113-121 | removes its waker if it is still waiting |
| RingRuns.AbsorbMeaning | src/ring/completion/mod.rs:149-185 | of a list of distinct tracked completions, the asked one is taken and untracked, all others are cached, all are woken |
| RingRuns.AbsorbKeepsResults | src/ring/completion/mod.rs:149-185 | and each keeps the result it came with |
| RingRuns.HandOverMeaning | src/ring/completion/mod.rs:261-297 | such a list is handed over completely, in order, with the type and descriptor of each operation, and no error |
| RingRuns.UnknownOperationStops | src/ring/completion/mod.rs:261-297 | at the first id that is not tracked the hand-over ends with an error, and what came before is untracked already |
| RingRuns.StrangersAreIgnored | src/ring/completion/mod.rs:164-185 | a reported completion of an operation that is not tracked changes nothing, wherever in the list it is |
| RingRuns.ByIdMeaning | src/ring/completion/mod.rs:126-188 | the whole effect of asking for one id on cache, queue, tracker, wakers and what was delivered |
| RingRuns.ProcessMeaning | src/ring/completion/mod.rs:208-237 | the whole effect of a draining call, including the failing wait |
| RingRuns.FreshId | src/operation/tracker.rs:61-81 | the next id is not tracked, has no result and was not delivered, before 2^64 ids were issued |
| RingRuns.StepPreservesInv | src/ring/completion/mod.rs:126-297 | every step keeps: each tracked id in exactly one place, results the kernel's own, nothing delivered twice, no waker left for a cached result |
| RingRuns.RunsKeepInv | src/ring/completion/mod.rs:126-297 | so does every run of submissions, kernel completions, polls, drops and drains |
| RingRuns.DeliveryIsExactlyOnce | src/ring/completion/mod.rs:126-297 | over every run, nothing is delivered twice, what is delivered is the kernel's result, and every result the kernel produced is delivered, still deliverable or lost by a failing wait of the run, exactly one of them |
| RingRuns.StepLoses | src/ring/completion/mod.rs:208-237 | a step makes a completed result undeliverable exactly when it is a blocking wait that fails over a nonempty cache, and then exactly the cached ones |
| RingRuns.EveryResultIsDeliverableIff | src/ring/completion/mod.rs:208-237 | after a run every completed result was delivered or can still be delivered exactly when no blocking wait failed over a nonempty cache |
| RingRuns.StepStrands | src/ring/completion/mod.rs:126-297 | a step adds to the tracked operations that neither kernel, queue nor cache knows exactly the one it refuses unqueued or those a failing wait loses, and takes none away |
| RingRuns.NothingStrandedIff | src/ring/completion/mod.rs:95-105 | after a run the tracked operations are exactly those in the kernel, the queue and the cache, exactly when no submission was refused unqueued and no blocking wait failed over a nonempty cache |
| RingRuns.WaitMayLoseACachedResult | src/ring/completion/mod.rs:208-237 | a concrete run from the start in which a completed result is never delivered |
| RingRuns.StepRefinesFlatSet | src/ring/completion/mod.rs:126-237 | cache and queue refine one flat set of results: a call takes out exactly what it hands over, and only the losing wait changes it otherwise |
| RingRuns.AskingByIdFindsEveryResult | src/ring/completion/mod.rs:126-188 | asking for an id answers exactly when its result is in the flat set, if the backend reports all it has |
| RingRuns.AskingByIdAnswers | src/ring/completion/mod.rs:126-188 | the exact answer for one id: the kernel's result exactly when it is cached or reported now, the backend's error if it has one, otherwise nothing |
| RingRuns.FuturePollAnswers | src/future/operation_future.rs:63-110 | in every reachable state a future's poll answers the result the kernel's step produced exactly when it is cached or reported, passes the backend's error on, and is pending otherwise, with exactly this waker registered |
| RingRuns.DrainAnswers | src/ring/completion/mod.rs:95-105 | the exact answer of a draining call: nothing in flight, the backend's error, or all it took out with the type, descriptor and buffer of each operation |
| RingRuns.NoUnknownOperations | src/ring/completion/mod.rs:261-297 | with a backend that reports only its own queue, draining never meets an unknown id |
| RingRuns.TakenOperationsAreWoken | src/ring/completion/mod.rs:149-185 | a step that takes an id's completion out of the backend wakes its waker and forgets it |
| RingRuns.StepKeepsOrWakes | src/ring/completion/mod.rs:126-297 | a step other than a poll or drop of its future leaves a waker registered or calls it |
| RingRuns.PendingFutureIsWoken | src/future/operation_future.rs:63-110 | over every run after a pending poll, until that future is polled again or dropped, its waker is still registered or was called, and was called once the result has left the backend |
| BufferOwnership.OwnedBuffer.constructor | src/ownership.rs:92-99 | a zeroed buffer of this size, owned by the user |
| BufferOwnership.OwnedBuffer.FromSlice | src/ownership.rs:117-125 | a buffer with these bytes, owned by the user |
| BufferOwnership.OwnedBuffer.CloneHandle | src/ownership.rs:275-281 | another handle to the same storage |
| BufferOwnership.OwnedBuffer.TryAccess | src/ownership.rs:163-178 | moves user bytes into a guard and leaves the buffer in transition; nothing otherwise |
| BufferOwnership.OwnedBuffer.GiveToKernel | src/ownership.rs:196-218 | hands a user buffer to the kernel under this id; otherwise says who has it |
| BufferOwnership.OwnedBuffer.ReturnFromKernel | src/ownership.rs:233-250 | back to the user from this id; panics and poisons the lock otherwise |
| BufferOwnership.BufferAccessGuard.Drop | src/ownership.rs:347-354 | writes its bytes back whatever the state is |
| BufferOwnership.StepKeepsSingleOwner | src/ownership.rs:163-250 | one step by any handle keeps: storage in one place, in transition exactly while a guard exists, same size, last contents |
| BufferOwnership.RunsKeepSingleOwner | src/ownership.rs:163-250 | so does any interleaving, while the lock is not poisoned |
| BufferOwnership.NeverTwoOwners | src/ownership.rs:163-250 | even after a panic the storage never exists twice |
| BufferOwnership.PoisonedIffMisreturned | src/ownership.rs:233-250 | the lock gets poisoned exactly by returning a buffer the kernel does not own under that id |
| BufferOwnership.GuardDropOverwritesNothing | src/ownership.rs:347-354 | in every reachable state a guard's unconditional write only replaces the transition state |
| BufferOwnership.AccessReadsLastWrite | src/ownership.rs:163-218 | in every reachable state: an access reads what the last write step of the run left and giving the buffer away answers its original size, exactly when no guard is out and the kernel does not have it; otherwise both say why not |
| BufferOwnership.KernelKeepsItUntilReturned | src/ownership.rs:196-250 | a buffer given to the kernel stays with it under that id whatever else is tried; returning it under the same id gives the user what the kernel wrote, under any other id it panics |
| BufferOwnership.PoisonedPanics | src/ownership.rs:163-250 | once poisoned, every use panics and changes nothing |
| CancellationSafety.OrphanTracker.NextSubmissionId | src/safety.rs:424-428 | hands out the counter and wraps it at 64 bits |
| CancellationSafety.OrphanTracker.RegisterOrphan | src/safety.rs:439-441 | the buffer is kept under this id |
| CancellationSafety.OrphanTracker.HandleCompletion | src/safety.rs:457-465 | takes the orphan out and hands it back with the result; nothing for an id that is not orphaned |
| CancellationSafety.OrphanTracker.CleanupAllOrphans | src/safety.rs:487-491 | drops all orphans and says how many |
| CancellationSafety.SafeOperation.constructor | src/safety.rs:101-112 | a pending operation holding this buffer |
| CancellationSafety.SafeOperation.Failed | src/safety.rs:128-139 | an operation already marked completed |
| CancellationSafety.SafeOperation.Complete | src/safety.rs:159-165 | gives the buffer back once, an error afterwards; nothing is left to orphan |
| CancellationSafety.SafeOperation.BufferInfo | src/safety.rs:194-201 | hands the buffer to the kernel under the operation's own id |
| CancellationSafety.SafeOperation.Drop | src/safety.rs:203-216 | a pending operation with a buffer moves it to the orphan map under its id if the tracker can be reached; otherwise nothing changes |
| CancellationSafety.CompletionChecker.TryCompleteSafeOperation | src/ring/core/mod.rs:481-557 | the loop over the backend's answer equals the recursive specification: orphans are reclaimed, others cached and woken |
| CancellationSafety.SafeOperationFuture.Poll | src/safety.rs:232-298 | the answer, all orphans and all wakers after a poll of a failed, completed, pending or erring operation; an error drops the operation and so orphans its buffer |
| CancellationRuns.CheckMeaning | src/ring/core/mod.rs:481-557 | of a list of distinct completions, orphans leave the map, the asked one is found, all others are cached |
| CancellationRuns.CheckKeepsResults | src/ring/core/mod.rs:481-557 | and each keeps the result it came with |
| CancellationRuns.PollSearch | src/ring/core/mod.rs:481-557 | the whole effect of a poll's search on orphans, cache and queue, and its answer: the kernel's result exactly when that was cached or just reported |
| CancellationRuns.StepIsSafeIff | src/safety.rs:203-298 | a step keeps every buffer in kernel use held by exactly one of its operation and the orphan map, exactly when it is not one of the listed breaking steps |
| CancellationRuns.RunIsSafeIff | src/safety.rs:203-465 | a run is safe throughout exactly when it takes none of those steps |
| CancellationRuns.CleanupFreesABufferInUse | src/ring/core/utility.rs:91-109 | a concrete run from the start after which a buffer in kernel use is held by nobody |
| CancellationRuns.PollAnswersTheKernelsResult | src/safety.rs:232-298 | in every safe run a poll completes exactly when the operation's result was cached or is reported, with the byte count or error the kernel's step produced (a negative count wraps at 64 bits) and the buffer its submission step was made with; failed operations and backend errors have their own answers |
| CancellationRuns.CheckWakes | src/ring/core/mod.rs:481-557 | the search wakes whoever waits for a completion it caches |
| CancellationRuns.PendingPollRegisters | src/safety.rs:262-269 | a poll left pending has registered its waker |
| CancellationRuns.ReadyPollUnregisters | src/safety.rs:245-290 | a poll that answered consumes its operation and leaves no waker for it |
| CancellationRuns.PendingFutureIsWoken | src/safety.rs:262-290 | over every safe run after a pending poll, until that future is polled again, its waker is still registered or was called, and was called once its result is cached |
| CancellationRuns.YieldedAtMostOnce | src/safety.rs:457-465 | an orphan handed back is never orphaned or handed back again |
| CancellationRuns.ReportedOrphansAreYielded | src/ring/core/mod.rs:481-557 | a poll that meets an orphan's completion hands the orphan back and caches nothing for it |
| CancellationRuns.DropLeavesStuckOrphanIff | src/safety.rs:203-216 | dropping a pending operation leaves an orphan nobody will reclaim exactly when its completion is in the cache |
| CancellationRuns.StepLeavesNoneStuckIff | src/safety.rs:203-216 | a step keeps every orphan reclaimable exactly when it is neither such a drop nor an accept refused unqueued |
| CancellationRuns.OrphansAreReclaimableIff | src/safety.rs:439-465 | in a safe run every orphan is reclaimable at every moment exactly when neither step is taken |
| CancellationRuns.NoneStuckInTheEndIff | src/safety.rs:439-465 | without a cleanup, the same at the end of the run |
| CancellationRuns.RefusedAcceptIsStuck | src/ring/core/safe_operations.rs:299-335 | a single refused accept leaves such an orphan |
| CancellationRuns.StuckOrphansStay | src/safety.rs:439-465 | such an orphan stays over every run without a cleanup |
| CancellationRuns.StuckOrphanIsReachable | src/ring/core/mod.rs:481-557 | a concrete run from the start that leaves one |
| PerfCounters.AdvanceKeepsMin | src/perf.rs:38-50 | every atomic step keeps the minimum a recorded value not above any call past its loop, spurious failures included |
| PerfCounters.AdvanceKeepsMax | src/perf.rs:52-64 | the same for the maximum |
| PerfCounters.RecordRunsKeepInv | src/perf.rs:32-65 | every interleaving of any number of calls keeps the counter's invariant |
| PerfCounters.CounterIsExactWhenQuiet | src/perf.rs:32-65 | whenever no call is in flight, count, total, minimum and maximum are those of the durations the callers of the run passed |
| PerfCounters.LoneRecordFinishes | src/perf.rs:32-65 | from every state any call that runs undisturbed finishes in at most six steps |
| PerfCounters.MemoryRunsKeepInv | src/perf.rs:183-206 | every interleaving of allocations and deallocations keeps the tracker's invariant |
| PerfCounters.PeakIsExactWhenQuiet | src/perf.rs:183-206 | whenever no call is in flight, the peak is the highest value any allocation produced, bytes in use and both call counts are those of what the callers asked for; the peak is the most ever in use exactly when no underflow left more |
| PerfCounters.LoneMemoryCallFinishes | src/perf.rs:183-206 | from every state any call that runs undisturbed finishes in at most four steps |
| PerfCounters.PeakIsTheMostEverInUse | src/perf.rs:183-206 | when no deallocation takes away more than is in use, the quiet peak is the most that was ever in use |
| PerfCounters.UnderflowIsNotInThePeak | src/perf.rs:203-206 | a concrete run in which the most ever in use exceeds the peak |
| ReadAdapter.AsyncReadAdapter.constructor | src/compat.rs:97-106 | an empty cache, the buffer at hand, no read in flight |
| ReadAdapter.AsyncReadAdapter.CopyOut | src/compat.rs:151-170 | fills the caller and caches the rest of a completed read; nothing moves when the buffer cannot be accessed |
| ReadAdapter.AsyncReadAdapter.PollRead | src/compat.rs:120-197 | one poll: new adapter state, bytes put in the caller's buffer, and the answer, for every state of cache and read |
| ReadAdapter.PollPreservesStreamIff | src/compat.rs:120-197 | bytes delivered plus unread cache equal the old cache plus what was read, exactly when the poll is not a damaging one |
| ReadAdapter.StreamIsPreserved | src/compat.rs:120-197 | over any run without damaging polls: no loss, duplication or reordering |
| ReadAdapter.FaithfulIffNeverDamages | src/compat.rs:120-197 | the stream is preserved at every poll of a run exactly when no poll of it is a damaging one |
| ReadAdapter.RoomyCallersSeeTheStream | src/compat.rs:120-197 | for callers that always offer room, with accessible buffers, bytes delivered plus unread cache are all bytes read since the start |
| ReadAdapter.EmptyReadMeansEndOfFile | src/compat.rs:120-197 | to such callers an empty successful read means exactly end of file |
| ReadAdapter.PollAnswers | src/compat.rs:120-197 | the exact answer of a poll: cached bytes first, then what the read says, and an error once the buffer is gone |
| ReadAdapter.PollFillsTheCaller | src/compat.rs:120-197 | a successful poll fills the caller or leaves nothing cached |
| ReadAdapter.UsableIffNoReadFailed | src/compat.rs:120-197 | the adapter stays usable over a run exactly when no read of it failed |
| ReadAdapter.RewindReplaysBytes | src/compat.rs:162-170 | a concrete poll without room after which cached bytes come again |
| ReadAdapter.ZeroRoomPollReplaysBytes | src/compat.rs:162-170 | a concrete run from the start in which one byte is delivered twice |
| Registries.Registry.RegisterFd | src/registry/mod.rs:181-209 | refuses a negative descriptor; otherwise first-fit insertion |
| Registries.Registry.RegisterBuffer | src/registry/mod.rs:242-272 | refuses an empty buffer; otherwise first-fit insertion |
| Registries.Registry.UnregisterFd | src/registry/mod.rs:292-320 | the errors in the source's order; otherwise empties exactly this slot |
| Registries.Registry.UnregisterBuffer | src/registry/mod.rs:345-377 | the same, and gives the buffer back |
| Registries.Registry.MarkFdInUse | src/registry/mod.rs:393-402 | marks an occupied slot, whatever descriptor the handle was made for |
| Registries.Registry.MarkFdNotInUse | src/registry/mod.rs:413-415 | removes the mark |
| Registries.Registry.MarkBufferInUse | src/registry/mod.rs:431-443 | marks an occupied slot |
| Registries.Registry.MarkBufferNotInUse | src/registry/mod.rs:454-456 | removes the mark |
| Registries.InsertMeaning | src/registry/mod.rs:188-208 | an insertion fills one empty slot and leaves the others alone; the table grows only when every slot is taken |
| Registries.RegisteredSlotIsFree | src/registry/mod.rs:188-208 | a registration never takes the slot of a live handle or one in use |
| Registries.RunsKeepInv | src/registry/mod.rs:181-456 | over any run live handles name distinct slots that hold what was registered through them, and only occupied slots are in use |
| Registries.TableLengthIsHighWater | src/registry/mod.rs:188-208 | the table is exactly as long as the most items ever registered at once |
| Registries.UnregisterReturnsWhatWasRegistered | src/registry/mod.rs:345-377 | a live handle leads to what was registered through it; unregistering empties its slot exactly when it is not in use; every other live handle names another slot and is undisturbed |
| Registries.LiveFdHandleIsHonoured | src/registry/mod.rs:292-310 | a live descriptor handle always passes the checks |
| Registries.LiveBufferHandleIsHonoured | src/registry/mod.rs:345-366 | a live buffer handle always passes the checks |
| Registries.StepKeepsProtectionIff | src/registry/mod.rs:393-415 | a step keeps all slots in use marked exactly when it does not end one of several operations on a slot |
| Registries.ProtectedIffMarksNotShared | src/registry/mod.rs:393-456 | so does a run |
| Registries.ProtectedSlotIsNotUnregistered | src/registry/mod.rs:292-320 | while marked, a slot survives an attempt to unregister it |
| Registries.SharedMarkLosesProtection | src/registry/mod.rs:393-415 | a concrete run that unregisters a descriptor under an operation |
| BufferPools.BufferPool.New | src/pool/buffer_pool.rs:60-81 | panics exactly on a zero capacity or size; otherwise a queue of that many buffers of that size |
| BufferPools.BufferPool.WithFactory | src/pool/buffer_pool.rs:96-130 | panics exactly on a zero capacity or on unequal sizes; otherwise the factory's buffers in order |
| BufferPools.BufferPool.TryGet | src/pool/buffer_pool.rs:136-148 | the front of the queue and its counters, or a counted refusal; an error and no change under a poisoned lock |
| BufferPools.BufferPool.PeekAvailable | src/pool/buffer_pool.rs:156-161 | the first section: says whether a buffer is there and changes nothing |
| BufferPools.BufferPool.TryGetFast | src/pool/buffer_pool.rs:154-165 | uninterrupted, the same as the ordinary request, but an empty queue is not counted as a refusal |
| BufferPools.BufferPool.TakeSnapshot | src/pool/buffer_pool.rs:264-272 | consistent numbers from one lock |
| BufferPools.PooledBuffer.Detach | src/pool/pooled_buffer.rs:85-90 | hands out the buffer and leaves the handle empty |
| BufferPools.PooledBuffer.Drop | src/pool/pooled_buffer.rs:96-106 | the buffer goes to the back of the queue, unless it was detached or the lock is poisoned |
| BufferPools.StepKeepsInv | src/pool/buffer_pool.rs:136-165 | each critical section keeps: every buffer in one place, queue order, truthful counters |
| BufferPools.AvailableAndInUseMakeCapacity | src/pool/buffer_pool.rs:136-148 | over any interleaving, available plus in use is the capacity, and in use is held plus detached (plus freed, under a poisoned lock) |
| BufferPools.EachBufferIsInOnePlace | src/pool/pooled_buffer.rs:85-106 | distinct buffers are never in two places |
| BufferPools.ReturnNeverSaturates | src/pool/pooled_buffer.rs:96-106 | the saturating subtraction never saturates |
| BufferPools.BuffersLeaveInQueueOrder | src/pool/buffer_pool.rs:136-148 | the k-th buffer handed out is the k-th one queued, and the counters say how many |
| BufferPools.FullMeansNothingIsOut | src/pool/buffer_pool.rs:264-272 | a snapshot counts the queue and what is held, detached or freed; it says full exactly when nothing is out, and empty exactly when the queue is |
| BufferPools.DetachedStaysOut | src/pool/pooled_buffer.rs:85-90 | a detached buffer never comes back |
| BufferPools.RefusedCountsEmptyRequests | src/pool/buffer_pool.rs:136-165 | the failure counter is the number of requests that found the queue empty |
| BufferPools.PeekIsNotAReservation | src/pool/buffer_pool.rs:154-165 | a caller whose peek saw a buffer can still be refused |
| CpuLists.ParseCpuList | src/buffer/numa.rs:177-206 | the loops equal the recursive reading of the list, with the first error winning |
| CpuLists.ListRoundTrip | src/buffer/numa.rs:177-206 | parsing a printed nonempty list of numbers and ranges yields their expansion in order |
| CpuLists.CompressMeaning | src/buffer/numa.rs:175-177 | compressing a list to ranges and expanding it is the identity, and no two neighbouring ranges could be joined |
| CpuLists.CompressedListRoundTrip | src/buffer/numa.rs:177-206 | a nonempty list compressed to ranges, printed and parsed is itself |
| CpuLists.SplitUndoesJoin | src/buffer/numa.rs:180-183 | splitting joined pieces that hold no separator gives the pieces back |
| CpuLists.JoinUndoesSplit | src/buffer/numa.rs:180-183 | splitting loses nothing and leaves no separator in a piece |
| CpuLists.PrintedNumberParses | src/buffer/numa.rs:185-199 | a printed number below 2^64 parses to itself |
| CpuLists.ParseNumberIffSpelled | src/buffer/numa.rs:185-199 | exactly an optional plus sign, leading zeros and the printed form of a number below 2^64 parses, and to that number |
| CpuLists.RefusedIffMalformed | src/buffer/numa.rs:177-206 | a list is refused exactly when some part has a bad number or exactly one dash and a bad end |
| CpuLists.FirstMalformedPartDecides | src/buffer/numa.rs:177-206 | the first malformed part decides whether the error is about a range or a number |
| CpuLists.PartWithSeveralDashesIsSkipped | src/buffer/numa.rs:181-196 | a part with several dashes contributes nothing and is no error |
| CpuLists.EmptyListIsRefused | src/buffer/numa.rs:177-206 | the empty list is an error |

## Left out

- The kernel and everything foreign: system calls, epoll, NUMA affinity, allocation, tokio. What they answer is a parameter; a backend answer is an error or any duplicate-free part of its queue in any order, which also covers the global poll counter and the waiting fallback.
- Memory ordering, wall-clock time and floating-point statistics.
- `BatchFuture`: the same slot and cancellation machine as the standalone future, holding the ring instead of being given it; its drop removes no wakers.
- BatchSubmission.BatchAnswersWithKernelResults: assumes that all deliveries after the submission go to this batch's future, because a batch poll takes every completion of the ring and drops those of other clients.
- Mixing operations that own their buffer with ordinary ones on one ring: both id counters start at 1, so the two protocols are modelled apart.
- The weak reference to the orphan tracker and its lock: whether they can be used is the parameter `reachable`.
- BatchFutures.StandaloneBatchFuture.PollWithRing: assumes that the dependency map mentions only slots of the batch, as every submitted batch's does; the code's indexing panics otherwise.
- BufferPools.BufferPool.TryGetFast: its contract is for a caller that nobody interrupts between its two locked sections; the runs of pool steps interleave them.
- Partial failures of a backend call beyond "refused before or after its entry was queued" (src/backend/io_uring.rs:129-137).
- `Batch::add_operation_with_data` (as `add_operation`, with a tag) and the checks inside one operation (their verdict is a parameter).
- The submission order a batch computes and then does not use: only its error is modelled.
- `check_ready_operations`: modelled, but it changes nothing and so has nothing to state.
- `AsyncWriteAdapter`, files and sockets on top of the adapters.
- ReadAdapter.AsyncReadAdapter.PollRead: assumes that a completed read reports no more bytes than its buffer holds and that the buffer's lock is not poisoned; the code panics there.
- RingCompletion.OperationFuture.Poll: assumes that it is not polled after completion; the code panics there.
- `register_fixed_files` and `register_buffer_slots`: bulk replacements that clear the marks unconditionally.
- Pool waiting with backoff, statistics, resetting and the `get` shorthand.
- Registry queries, `Drop` of the registry, and fixed-size tables.
- Trimming of the CPU list file and the files themselves.
- Configuration presets, feature tables, runtime detection, logging, typestate accessors, buffer groups, examples and benchmarks.
- Counters of the pool are unbounded; the source's are 64 bits wide.
