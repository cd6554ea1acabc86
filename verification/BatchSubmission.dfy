/**
 Submitting a batch to a ring, and what the resulting future finally answers
 when it is the only client of that ring.
 */
module BatchSubmission {
  import opened Wrappers
  import opened Completions
  import opened DependencyGraph
  import opened DependencyValidation
  import opened Batches
  import opened BatchResults
  import opened BatchFutures
  import opened BatchFutureRuns
  import opened OperationTracking
  import opened Wakers
  import opened RingCompletion
  import RingRuns

  datatype BatchConfig = BatchConfig(failFast: bool, maxBatchSize: nat, enforceDependencies: bool)

  datatype SubmitBatchError =
    | EmptyBatchSubmitted
    | BatchTooLarge(size: nat, limit: nat)
    | Circular
    | SubmissionFailed(error: RingError)

  /** The id the `k`-th of a row of registrations gets. */
  function NthId(first: nat, k: nat): nat {
    (first + k) % U64_RANGE
  }

  function ConsecutiveIds(first: nat, count: nat): (ids: Ids)
    ensures |ids| == count
  {
    seq(count, k requires 0 <= k => Some(NthId(first, k)))
  }

  lemma ConsecutiveIdsAreDistinct(first: nat, count: nat)
    requires count <= U64_RANGE
    ensures AllIdsPresent(ConsecutiveIds(first, count)) && DistinctIds(ConsecutiveIds(first, count))
  {
  }

  // ----- What a submission does to the ring -------------------------------

  /**
   The ring after submitting `operations` in index order, and their ids; it
   stops at the first one that is turned away.  `outcomes` is what the layers
   below say to each.
   */
  function AfterSubmits(c: RingCore, operations: seq<Operation>, outcomes: seq<SubmitOutcome>)
    : (r: (RingCore, Result<Ids, RingError>))
    requires |operations| == |outcomes|
    ensures r.1.Ok? ==> |r.1.value| == |operations|
    decreases |operations|
  {
    if operations == [] then (c, Ok([]))
    else
      var n := |operations| - 1;
      var (before, ids) := AfterSubmits(c, operations[..n], outcomes[..n]);
      if ids.Err? then (before, ids)
      else
        AndOneMore(ids.value, AfterSubmit(before, operations[n].opType, operations[n].fd, outcomes[n]))
  }

  function AndOneMore(ids: Ids, last: (RingCore, Result<nat, RingError>)): (RingCore, Result<Ids, RingError>) {
    (last.0, if last.1.Err? then Err(last.1.error) else Ok(ids + [Some(last.1.value)]))
  }

  lemma SubmitNext(c: RingCore, operations: seq<Operation>, outcomes: seq<SubmitOutcome>, i: nat, before: RingCore, ids: Ids)
    requires i < |operations| == |outcomes|
    requires AfterSubmits(c, operations[..i], outcomes[..i]) == (before, Ok(ids))
    ensures AfterSubmits(c, operations[..i + 1], outcomes[..i + 1])
         == AndOneMore(ids, AfterSubmit(before, operations[i].opType, operations[i].fd, outcomes[i]))
  {
    assert operations[..i + 1][..i] == operations[..i] && outcomes[..i + 1][..i] == outcomes[..i];
  }

  /** The tracker's entry for the `k`-th operation of a row starting at id `first`. */
  function Handle(operations: seq<Operation>, first: nat, k: nat): OperationHandle
    requires k < |operations|
  {
    OperationHandle(NthId(first, k), operations[k].opType, operations[k].fd, None)
  }

  /** The first `count` operations are tracked under consecutive ids. */
  ghost predicate SubmittedUpTo(c: RingCore, operations: seq<Operation>, first: nat, count: nat)
    requires count <= |operations|
  {
    forall k | 0 <= k < count ::
      NthId(first, k) in c.tracked && c.tracked[NthId(first, k)] == Handle(operations, first, k)
  }

  predicate AllAccepted(outcomes: seq<SubmitOutcome>) {
    forall k | 0 <= k < |outcomes| :: outcomes[k].Accepted?
  }

  lemma LaterIdIsNew(first: nat, index: nat)
    requires index < MAX_OPERATIONS
    ensures forall k | 0 <= k < index :: NthId(first, k) != NthId(first, index)
  {
  }

  lemma ConsecutiveIdsGrow(first: nat, n: nat)
    ensures ConsecutiveIds(first, n + 1) == ConsecutiveIds(first, n) + [Some(NthId(first, n))]
    ensures (NthId(first, n) + 1) % U64_RANGE == NthId(first, n + 1)
  {
  }

  /** All operations of the row are tracked, nothing else became tracked, and the rest of the ring is as it was. */
  ghost predicate RowSubmitted(c: RingCore, after: RingCore, operations: seq<Operation>) {
    var n := |operations|;
    && (after.cache, after.wakers, after.woken, after.nextId) == (c.cache, c.wakers, c.woken, NthId(c.nextId, n))
    && SubmittedUpTo(after, operations, c.nextId, n)
    && forall id | id in after.tracked && id !in c.tracked :: Some(id) in ConsecutiveIds(c.nextId, n)
  }

  /** When all are accepted, each operation is tracked with its own type and descriptor under an id of its own. */
  lemma {:induction false} AcceptedRowIsSubmitted(c: RingCore, operations: seq<Operation>, outcomes: seq<SubmitOutcome>)
    requires |operations| == |outcomes| <= MAX_OPERATIONS && c.nextId < U64_RANGE && AllAccepted(outcomes)
    ensures var (after, ids) := AfterSubmits(c, operations, outcomes);
      ids == Ok(ConsecutiveIds(c.nextId, |operations|)) && RowSubmitted(c, after, operations)
    decreases |operations|
  {
    if operations != [] {
      var n := |operations| - 1;
      var (before, ids) := AfterSubmits(c, operations[..n], outcomes[..n]);
      AcceptedRowIsSubmitted(c, operations[..n], outcomes[..n]);
      ConsecutiveIdsGrow(c.nextId, n);
      SubmittedOneMore(c, before, operations, n);
    }
  }

  lemma SubmittedOneMore(c: RingCore, before: RingCore, operations: seq<Operation>, n: nat)
    requires |operations| == n + 1 <= MAX_OPERATIONS && RowSubmitted(c, before, operations[..n])
    ensures RowSubmitted(c, AfterSubmit(before, operations[n].opType, operations[n].fd, Accepted).0, operations)
  {
    var first := c.nextId;
    var after := AfterSubmit(before, operations[n].opType, operations[n].fd, Accepted).0;
    LaterIdIsNew(first, n);
    ConsecutiveIdsGrow(first, n);
    forall k | 0 <= k < n
      ensures NthId(first, k) in after.tracked && after.tracked[NthId(first, k)] == Handle(operations, first, k)
    {
      assert Handle(operations, first, k) == Handle(operations[..n], first, k);
    }
  }

  lemma {:induction false} SubmissionStaysFailed(c: RingCore, operations: seq<Operation>, outcomes: seq<SubmitOutcome>, k: nat)
    requires k <= |operations| == |outcomes| && AfterSubmits(c, operations[..k], outcomes[..k]).1.Err?
    ensures AfterSubmits(c, operations, outcomes) == AfterSubmits(c, operations[..k], outcomes[..k])
    decreases |operations|
  {
    if k == |operations| {
      assert operations[..k] == operations && outcomes[..k] == outcomes;
    } else {
      var n := |operations| - 1;
      assert operations[..n][..k] == operations[..k] && outcomes[..n][..k] == outcomes[..k];
      SubmissionStaysFailed(c, operations[..n], outcomes[..n], k);
    }
  }

  /** One operation turned away ends the submission; those before it stay submitted, without a future. */
  lemma RefusalStopsSubmission(c: RingCore, operations: seq<Operation>, outcomes: seq<SubmitOutcome>, j: nat)
    requires |operations| == |outcomes| <= MAX_OPERATIONS && c.nextId < U64_RANGE
    requires j < |outcomes| && !outcomes[j].Accepted? && AllAccepted(outcomes[..j])
    ensures var before := AfterSubmits(c, operations[..j], outcomes[..j]).0;
      var (after, id) := AfterSubmit(before, operations[j].opType, operations[j].fd, outcomes[j]);
      && id.Err? && AfterSubmits(c, operations, outcomes) == (after, Err(id.error))
      && RowSubmitted(c, before, operations[..j])
  {
    var before := AfterSubmits(c, operations[..j], outcomes[..j]).0;
    AcceptedRowIsSubmitted(c, operations[..j], outcomes[..j]);
    SubmitNext(c, operations, outcomes, j, before, ConsecutiveIds(c.nextId, j));
    SubmissionStaysFailed(c, operations, outcomes, j + 1);
  }

  // ----- The submission itself --------------------------------------------

  /** When an operation is turned away the call fails at once. */
  method SubmitBatchStandalone(ring: Ring, batch: Batch, config: BatchConfig, outcomes: seq<SubmitOutcome>)
    returns (r: Result<StandaloneBatchFuture, SubmitBatchError>)
    requires batch.Valid() && |outcomes| == |batch.operations|
    modifies ring.operations
    ensures |batch.operations| == 0 ==> r == Err(EmptyBatchSubmitted) && ring.View() == old(ring.View())
    ensures 0 < |batch.operations| && |batch.operations| > config.maxBatchSize ==>
      r == Err(BatchTooLarge(|batch.operations|, config.maxBatchSize)) && ring.View() == old(ring.View())
    ensures 0 < |batch.operations| <= config.maxBatchSize ==>
      var (core, ids) := AfterSubmits(old(ring.View()), batch.operations, outcomes);
      && ring.View() == core
      && (ids.Err? ==> r == Err(SubmissionFailed(ids.error)))
      && (ids.Ok? ==>
            && r.Ok? && fresh(r.value) && r.value.Valid() && r.value.InBounds()
            && r.value.operationIds == ids.value
            && r.value.dependencies == batch.dependencies
            && r.value.failFast == config.failFast
            && r.value.wakerRegistry == ring.wakerRegistry
            && r.value.View() == Fresh(ids.value))
  {
    if |batch.operations| == 0 {
      return Err(EmptyBatchSubmitted);
    }
    if |batch.operations| > config.maxBatchSize {
      return Err(BatchTooLarge(|batch.operations|, config.maxBatchSize));
    }
    if config.enforceDependencies {
      // The order is computed for its error only; operations go out in index order.
      var order := batch.DependencyOrder();
      if order.Err? {
        return Err(Circular);
      }
    }
    var submitted := SubmitAll(ring, batch.operations, batch.dependencies, outcomes);
    if submitted.Err? {
      return Err(SubmissionFailed(submitted.error));
    }
    var (operationIds, dependencies) := submitted.value;
    var future := new StandaloneBatchFuture(operationIds, dependencies, ring.wakerRegistry, config.failFast);
    r := Ok(future);
  }

  /** The submission loop: collects the ids and copies the dependencies index by index. */
  method SubmitAll(ring: Ring, operations: seq<Operation>, batchDependencies: Graph, outcomes: seq<SubmitOutcome>)
    returns (r: Result<(Ids, Graph), RingError>)
    requires |outcomes| == |operations| && InRange(batchDependencies, |operations|)
    modifies ring.operations
    ensures var (core, ids) := AfterSubmits(old(ring.View()), operations, outcomes);
      && ring.View() == core
      && r == if ids.Err? then Err(ids.error) else Ok((ids.value, batchDependencies))
  {
    var operationIds: Ids := seq(|operations|, _ => None);
    var dependencies: Graph := map[];
    for index := 0 to |operations|
      invariant |operationIds| == |operations|
      invariant AfterSubmits(old(ring.View()), operations[..index], outcomes[..index])
             == (ring.View(), Ok(operationIds[..index]))
      invariant dependencies == DependenciesBelow(batchDependencies, index)
    {
      SubmitNext(old(ring.View()), operations, outcomes, index, ring.View(), operationIds[..index]);
      var id := ring.Submit(operations[index].opType, operations[index].fd, outcomes[index]);
      if id.Err? {
        SubmissionStaysFailed(old(ring.View()), operations, outcomes, index + 1);
        return Err(id.error);
      }
      ghost var earlier := operationIds[..index];
      operationIds := operationIds[index := Some(id.value)];
      assert operationIds[..index + 1] == earlier + [Some(id.value)];
      OneMoreDependency(batchDependencies, index);
      if index in batchDependencies {
        dependencies := dependencies[index := batchDependencies[index]];
      }
    }
    assert operations[..|operations|] == operations && outcomes[..|operations|] == outcomes;
    assert operationIds[..|operations|] == operationIds;
    AllDependencies(batchDependencies, |operations|);
    r := Ok((operationIds, dependencies));
  }

  function DependenciesBelow(g: Graph, bound: nat): Graph {
    map k | k in g && k < bound :: g[k]
  }

  lemma OneMoreDependency(g: Graph, i: nat)
    ensures DependenciesBelow(g, i + 1)
         == if i in g then DependenciesBelow(g, i)[i := g[i]] else DependenciesBelow(g, i)
  {
  }

  lemma AllDependencies(g: Graph, n: nat)
    requires InRange(g, n)
    ensures DependenciesBelow(g, n) == g
  {
  }

  // ----- End to end -------------------------------------------------------

  /** The ring steps of a batch submission in which every operation is accepted. */
  function RowSteps(operations: seq<Operation>): seq<RingRuns.Step> {
    if operations == [] then []
    else
      var last := operations[|operations| - 1];
      RowSteps(operations[..|operations| - 1]) + [RingRuns.SubmitStep(last.opType, last.fd, Accepted)]
  }

  function Acceptances(count: nat): seq<SubmitOutcome> {
    seq(count, _ => Accepted)
  }

  /** Those steps do to the ring what the submission loop does, and nothing was delivered meanwhile. */
  lemma {:induction false} RowStepsAreASubmission(s: RingRuns.System, operations: seq<Operation>)
    requires RingRuns.IsRun(s, RowSteps(operations))
    ensures var t := RingRuns.AfterAll(s, RowSteps(operations));
      && t.core == AfterSubmits(s.core, operations, Acceptances(|operations|)).0
      && AfterSubmits(s.core, operations, Acceptances(|operations|)).1.Ok?
      && t.delivered == s.delivered
    decreases |operations|
  {
    if operations != [] {
      var n := |operations| - 1;
      var step := RingRuns.SubmitStep(operations[n].opType, operations[n].fd, Accepted);
      assert Acceptances(n + 1)[..n] == Acceptances(n);
      RingRuns.RunSplits(s, RowSteps(operations[..n]), [step]);
      RowStepsAreASubmission(s, operations[..n]);
      RingRuns.RunExtends(s, RowSteps(operations[..n]), step);
    }
  }

  /**
   End to end: operations are submitted as a batch without fail-fast at some
   point of a run, and all deliveries after that go to the batch's future.
   Its answer is then the kernel's own result for every operation, and it
   answers as soon as every operation was delivered.
   */
  lemma BatchAnswersWithKernelResults(earlier: seq<RingRuns.Step>, operations: seq<Operation>, later: seq<RingRuns.Step>,
                                      ids: Ids, reports: seq<Report>, k: nat)
    requires |operations| <= MAX_OPERATIONS && k < |reports| && reports[k].Ok?
    requires RingRuns.IsRun(RingRuns.START, earlier + RowSteps(operations) + later)
    requires var s := RingRuns.AfterAll(RingRuns.START, earlier);
      && AfterSubmits(s.core, operations, Acceptances(|operations|)).1 == Ok(ids)
      && RingRuns.AfterAll(RingRuns.START, earlier + RowSteps(operations) + later).delivered
         == s.delivered + Delivered(reports[..k + 1])
    ensures var s := RingRuns.AfterAll(RingRuns.START, earlier + RowSteps(operations) + later);
      var kernelResults := RingRuns.KernelResults(earlier + RowSteps(operations) + later);
      var answer := AnswerAt(Fresh(ids), ids, false, reports, k);
      && AllIdsPresent(ids)
      && (answer.Ready? <==> forall i | 0 <= i < |ids| :: ids[i].value in CompletionIds(s.delivered))
      && (answer.Ready? ==>
            && answer.value.Ok? && |answer.value.value.results| == |operations|
            && forall i | 0 <= i < |ids| ::
                 && ids[i].value in kernelResults
                 && Tells(answer.value.value.results[i], kernelResults[ids[i].value])
                 && !answer.value.value.results[i].Cancelled?)
  {
    var row := RowSteps(operations);
    var s := RingRuns.AfterAll(RingRuns.START, earlier + row + later);
    RingRuns.RunSplits(RingRuns.START, earlier + row, later);
    RingRuns.RunSplits(RingRuns.START, earlier, row);
    var before := RingRuns.AfterAll(RingRuns.START, earlier);
    var mid := RingRuns.AfterAll(before, row);
    RingRuns.StartIsSound();
    RingRuns.RunsKeepInv(RingRuns.START, earlier);
    RingRuns.RunsKeepInv(before, row);
    RowStepsAreASubmission(before, operations);
    AcceptedRowIsSubmitted(before.core, operations, Acceptances(|operations|));
    ConsecutiveIdsAreDistinct(before.core.nextId, |operations|);
    RingRuns.DeliveryIsExactlyOnce(earlier + row + later);
    BatchDeliversReportedResults(ids, reports, k);
    BatchDeliversBackendResults(ids, reports, k, s.kernelResults);
    forall i | 0 <= i < |ids|
      ensures Reported(Delivered(reports[..k + 1]), ids[i].value) <==> ids[i].value in CompletionIds(s.delivered)
    {
      var id := ids[i].value;
      assert id == NthId(before.core.nextId, i) && id in mid.core.tracked && id !in CompletionIds(mid.delivered);
      RingRuns.IdsOfConcat(before.delivered, Delivered(reports[..k + 1]));
    }
  }
}
