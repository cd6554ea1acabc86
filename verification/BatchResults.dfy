/** The per-operation results of a batch and their summary. */
module BatchResults {

  datatype OperationResult = Success(bytes: int) | Error(message: string) | Cancelled

  datatype BatchResult = BatchResult(results: seq<OperationResult>, successfulCount: nat, failedCount: nat) {

    predicate AllSucceeded() {
      failedCount == 0 && forall i | 0 <= i < |results| :: !results[i].Cancelled?
    }

    predicate AnyFailed() {
      failedCount > 0
    }
  }

  predicate IsSuccess(r: OperationResult) { r.Success? }

  predicate IsError(r: OperationResult) { r.Error? }

  predicate IsCancelled(r: OperationResult) { r.Cancelled? }

  function Count(results: seq<OperationResult>, matches: OperationResult -> bool): nat {
    if results == [] then 0
    else
      var last := |results| - 1;
      Count(results[..last], matches) + if matches(results[last]) then 1 else 0
  }

  function NewBatchResult(results: seq<OperationResult>): BatchResult {
    BatchResult(results, Count(results, IsSuccess), Count(results, IsError))
  }

  ghost function IndicesOf(results: seq<OperationResult>, matches: OperationResult -> bool): set<int> {
    set i | 0 <= i < |results| && matches(results[i])
  }

  lemma IndicesGrow(results: seq<OperationResult>, matches: OperationResult -> bool)
    requires results != []
    ensures var last := |results| - 1;
      && last !in IndicesOf(results[..last], matches)
      && IndicesOf(results, matches) == IndicesOf(results[..last], matches) + if matches(results[last]) then {last} else {}
  {
    var last := |results| - 1;
    forall i: int
      ensures i in IndicesOf(results, matches) <==> i in IndicesOf(results[..last], matches) || (i == last && matches(results[last]))
    {
    }
  }

  /** A count is the number of indices it is about. */
  lemma {:induction false} CountsIndices(results: seq<OperationResult>, matches: OperationResult -> bool)
    ensures Count(results, matches) == |IndicesOf(results, matches)|
  {
    if results == [] {
      assert IndicesOf(results, matches) == {};
    } else {
      CountsIndices(results[..|results| - 1], matches);
      IndicesGrow(results, matches);
    }
  }

  lemma SuccessesAndFailuresAreCounted(results: seq<OperationResult>)
    ensures NewBatchResult(results).successfulCount == |set i | 0 <= i < |results| && results[i].Success?|
    ensures NewBatchResult(results).failedCount == |set i | 0 <= i < |results| && results[i].Error?|
  {
    CountsIndices(results, IsSuccess);
    CountsIndices(results, IsError);
    assert IndicesOf(results, IsSuccess) == set i | 0 <= i < |results| && results[i].Success?;
    assert IndicesOf(results, IsError) == set i | 0 <= i < |results| && results[i].Error?;
  }

  lemma {:induction false} CountZeroIffNone(results: seq<OperationResult>, matches: OperationResult -> bool)
    ensures Count(results, matches) == 0 <==> forall i | 0 <= i < |results| :: !matches(results[i])
  {
    if results != [] {
      CountZeroIffNone(results[..|results| - 1], matches);
    }
  }

  lemma {:induction false} CountsPartition(results: seq<OperationResult>)
    ensures Count(results, IsSuccess) + Count(results, IsError) + Count(results, IsCancelled)
         == |results|
  {
    if results != [] {
      CountsPartition(results[..|results| - 1]);
    }
  }

  /** The summary answers agree with the list: success means every entry is one. */
  lemma SummaryIsTruthful(results: seq<OperationResult>)
    ensures var b := NewBatchResult(results);
      && (b.AllSucceeded() <==> forall i | 0 <= i < |results| :: results[i].Success?)
      && (b.AllSucceeded() <==> b.successfulCount == |results|)
      && (b.AnyFailed() <==> exists i :: 0 <= i < |results| && results[i].Error?)
      && b.results == results
      && b.successfulCount == |set i | 0 <= i < |results| && results[i].Success?|
      && b.failedCount == |set i | 0 <= i < |results| && results[i].Error?|
      && b.successfulCount + b.failedCount <= |results|
  {
    CountsPartition(results);
    SuccessesAndFailuresAreCounted(results);
    CountZeroIffNone(results, IsError);
    CountZeroIffNone(results, IsCancelled);
  }
}
