/**
 The future of a submitted batch: it collects completions into one slot per
 operation, in any arrival order, and cancels under fail-fast.

 `BatchFuture` and `StandaloneBatchFuture` run the same machine and differ
 only in who holds the ring; the class below is the standalone one.
 */
module BatchFutures {
  import opened Wrappers
  import opened Completions
  import opened DependencyGraph
  import opened BatchResults
  import opened Wakers

  type Slots = seq<Option<OperationResult>>
  type Ids = seq<Option<nat>>
  /** What the ring's `try_complete` answered. */
  type Report = Result<seq<Completion>, string>

  function Convert(r: IoResult): OperationResult {
    match r
    case Ok(bytes) => Success(bytes)
    case Err(message) => Error(message)
  }

  // ----- Specification of one poll ---------------------------------------

  /** Slot `i` is the one that completions of its id are matched to. */
  ghost predicate Owns(ids: Ids, i: nat) {
    i < |ids| && ids[i].Some? && forall j | i < j < |ids| :: ids[j] != ids[i]
  }

  ghost function SlotReport(ids: Ids, cs: seq<Completion>, i: nat): Option<OperationResult> {
    if Owns(ids, i) then
      var first := FirstReport(cs, ids[i].value);
      if first.Some? then Some(Convert(first.value)) else None
    else None
  }

  /** Filled slots keep their value; an empty slot takes the first report of its id. */
  ghost function Recorded(slots: Slots, ids: Ids, cs: seq<Completion>): (r: Slots)
    ensures |r| == |slots|
  {
    seq(|slots|, i requires 0 <= i < |slots| => if slots[i].Some? then slots[i] else SlotReport(ids, cs, i))
  }

  function FillCancelled(slots: Slots): (r: Slots)
    ensures |r| == |slots|
  {
    seq(|slots|, i requires 0 <= i < |slots| => if slots[i].Some? then slots[i] else Some(Cancelled))
  }

  predicate AllFilled(slots: Slots) {
    forall i | 0 <= i < |slots| :: slots[i].Some?
  }

  ghost predicate NewlyFilled(before: Slots, after: Slots, i: nat) {
    i < |before| && i < |after| && before[i].None? && after[i].Some?
  }

  ghost predicate NewError(before: Slots, after: Slots) {
    exists i: nat :: NewlyFilled(before, after, i) && after[i].value.Error?
  }

  function Collect(slots: Slots): (r: seq<OperationResult>)
    ensures |r| == |slots|
  {
    seq(|slots|, i requires 0 <= i < |slots| => if slots[i].Some? then slots[i].value else Cancelled)
  }

  datatype FutureState = FutureState(slots: Slots, completed: bool)

  ghost function AfterPoll(s: FutureState, ids: Ids, failFast: bool, report: Report)
    : (FutureState, Poll<Result<BatchResult, string>>)
  {
    if s.completed then
      (s, Ready(Ok(NewBatchResult(Collect(s.slots)))))
    else if report.Err? then
      (s, Ready(Err(report.error)))
    else
      var slots := Recorded(s.slots, ids, report.value);
      if failFast && NewError(s.slots, slots) then
        (s.(slots := FillCancelled(slots)), Ready(Ok(NewBatchResult(Collect(FillCancelled(slots))))))
      else if AllFilled(slots) then
        (FutureState(slots, true), Ready(Ok(NewBatchResult(Collect(slots)))))
      else
        (s.(slots := slots), Pending)
  }

  /** Slots that may be cancelled on behalf of a failure at `failed`. */
  ghost function CancelledDependents(slots: Slots, deps: Graph, failed: nat): (r: Slots)
    ensures |r| == |slots|
  {
    seq(|slots|, i requires 0 <= i < |slots| =>
      if slots[i].None? && i != failed && Reaches(deps, i, failed) then Some(Cancelled) else slots[i])
  }

  /** `after` differs from `before` only by cancelling empty slots. */
  ghost predicate OnlyCancels(before: Slots, after: Slots) {
    && |after| == |before|
    && forall i | 0 <= i < |before| :: after[i] == before[i] || (before[i].None? && after[i] == Some(Cancelled))
  }

  /** The lookup table: each id leads to the last slot that carries it. */
  ghost predicate IsIdTable(ids: Ids, table: map<nat, nat>) {
    && (forall id | id in table :: Owns(ids, table[id]) && ids[table[id]] == Some(id))
    && (forall i | 0 <= i < |ids| && ids[i].Some? :: ids[i].value in table)
  }

  /** How one more completion changes the slots: its owner's, if still empty. */
  lemma RecordOneMore(slots: Slots, ids: Ids, table: map<nat, nat>, cs: seq<Completion>, k: nat)
    requires k < |cs| && |ids| == |slots| && IsIdTable(ids, table)
    ensures var before := Recorded(slots, ids, cs[..k]);
      Recorded(slots, ids, cs[..k + 1]) ==
      if cs[k].id in table && before[table[cs[k].id]].None?
      then before[table[cs[k].id] := Some(Convert(cs[k].result))]
      else before
  {
    assert cs[..k + 1] == cs[..k] + [cs[k]];
    forall i | 0 <= i < |slots| && ids[i].Some?
      ensures FirstReport(cs[..k + 1], ids[i].value)
           == if FirstReport(cs[..k], ids[i].value).Some? then FirstReport(cs[..k], ids[i].value)
              else FirstReport([cs[k]], ids[i].value)
    {
      FirstReportOfConcat(cs[..k], [cs[k]], ids[i].value);
    }
    var before, after := Recorded(slots, ids, cs[..k]), Recorded(slots, ids, cs[..k + 1]);
    forall i | 0 <= i < |slots|
      ensures after[i] ==
        if before[i].None? && cs[k].id in table && table[cs[k].id] == i
        then Some(Convert(cs[k].result))
        else before[i]
    {
      if Owns(ids, i) {
        assert FirstReport([cs[k]], ids[i].value) == if cs[k].id == ids[i].value then Some(cs[k].result) else None;
        OwnerIsLookedUp(ids, table, i);
      }
    }
  }

  lemma OwnerIsLookedUp(ids: Ids, table: map<nat, nat>, i: nat)
    requires IsIdTable(ids, table) && Owns(ids, i)
    ensures ids[i].value in table && table[ids[i].value] == i
  {
  }

  // ----- The future -------------------------------------------------------

  class StandaloneBatchFuture {
    const operationIds: Ids
    var results: Slots
    const dependencies: Graph
    const failFast: bool
    var completed: bool
    const idToIndex: map<nat, nat>
    const wakerRegistry: WakerRegistry

    ghost function View(): FutureState
      reads this
    {
      FutureState(results, completed)
    }

    ghost predicate Valid()
      reads this
    {
      |results| == |operationIds| && IsIdTable(operationIds, idToIndex)
    }

    /** Polling indexes the slots by what the dependency map mentions, and panics when that is out of bounds. */
    ghost predicate InBounds() {
      InRange(dependencies, |operationIds|)
    }

    constructor (operationIds: Ids, dependencies: Graph, wakerRegistry: WakerRegistry, failFast: bool)
      ensures Valid()
      ensures this.operationIds == operationIds && this.dependencies == dependencies
      ensures this.failFast == failFast && this.wakerRegistry == wakerRegistry
      ensures View() == FutureState(seq(|operationIds|, _ => None), false)
    {
      var table: map<nat, nat> := map[];
      for index := 0 to |operationIds|
        invariant IsIdTable(operationIds[..index], table)
      {
        if operationIds[index].Some? {
          table := table[operationIds[index].value := index];
        }
        assert operationIds[..index + 1] == operationIds[..index] + [operationIds[index]];
      }
      assert operationIds[..|operationIds|] == operationIds;
      this.operationIds := operationIds;
      this.results := seq(|operationIds|, _ => None);
      this.dependencies := dependencies;
      this.failFast := failFast;
      this.completed := false;
      this.idToIndex := table;
      this.wakerRegistry := wakerRegistry;
    }

    /**
     Polls with what the ring reports.  `wakeSelf` says whether the task asks
     to be polled again at once: it does so when it made progress and is
     still pending.
     */
    method PollWithRing(report: Report) returns (answer: Poll<Result<BatchResult, string>>, wakeSelf: bool)
      requires Valid() && InBounds()
      modifies this
      ensures Valid()
      ensures (View(), answer) == AfterPoll(old(View()), operationIds, failFast, report)
      ensures wakeSelf <==> answer.Pending? && exists i: nat :: NewlyFilled(old(results), results, i)
    {
      if completed {
        return Ready(Ok(NewBatchResult(Collect(results)))), false;
      }
      var inner;
      inner, wakeSelf := PollCompletions(report);
      match inner {
        case Ready(Ok(_)) =>
          answer := Ready(Ok(NewBatchResult(Collect(results))));
        case Ready(Err(e)) =>
          answer := Ready(Err(e));
        case Pending =>
          answer := Pending;
      }
    }

    method PollCompletions(report: Report) returns (answer: Poll<Result<(), string>>, wakeSelf: bool)
      requires Valid() && InBounds() && !completed
      modifies this
      ensures Valid()
      ensures var (s, a) := AfterPoll(old(View()), operationIds, failFast, report);
        && View() == s
        && (answer.Pending? <==> a.Pending?)
        && (answer.Ready? ==> a.value == if answer.value.Ok? then Ok(NewBatchResult(Collect(results))) else Err(answer.value.error))
      ensures wakeSelf <==> answer.Pending? && exists i: nat :: NewlyFilled(old(results), results, i)
    {
      if report.Err? {
        return Ready(Err(report.error)), false;
      }
      var anyCompleted, anyFailed, completedOperations := RecordCompletions(report.value);
      ghost var recorded := results;
      for i := 0 to |completedOperations|
        invariant Valid() && !completed && OnlyCancels(recorded, results)
        invariant !(failFast && anyFailed) ==> results == recorded
      {
        var completedIndex := completedOperations[i];
        assert completedIndex in completedOperations;
        CheckReadyOperations(completedIndex);
        if failFast && results[completedIndex].Some? && results[completedIndex].value.Error? {
          CancelDependentOperations(completedIndex);
        }
      }

      if failFast && anyFailed {
        CancelAllRemainingOperations();
        assert results == FillCancelled(recorded);
        return Ready(Ok(())), false;
      }
      if AllFilled(results) {
        completed := true;
        return Ready(Ok(())), false;
      }
      if anyCompleted {
        return Pending, true;
      }
      answer, wakeSelf := Pending, false;
    }

    /** The loop over the ring's completions. */
    method RecordCompletions(completions: seq<Completion>)
      returns (anyCompleted: bool, anyFailed: bool, completedOperations: seq<nat>)
      requires Valid()
      modifies this`results
      ensures Valid() && results == Recorded(old(results), operationIds, completions)
      ensures anyCompleted <==> exists i: nat :: NewlyFilled(old(results), results, i)
      ensures anyFailed <==> NewError(old(results), results)
      ensures forall i: nat :: i in completedOperations <==> NewlyFilled(old(results), results, i)
    {
      anyCompleted, anyFailed, completedOperations := false, false, [];
      assert results == Recorded(old(results), operationIds, completions[..0]);
      for k := 0 to |completions|
        invariant Valid() && results == Recorded(old(results), operationIds, completions[..k])
        invariant anyCompleted <==> completedOperations != []
        invariant anyFailed <==> NewError(old(results), results)
        invariant forall i: nat :: i in completedOperations <==> NewlyFilled(old(results), results, i)
      {
        var completion := completions[k];
        RecordOneMore(old(results), operationIds, idToIndex, completions, k);
        if completion.id in idToIndex {
          var index := idToIndex[completion.id];
          if results[index].Some? {
            continue;
          }
          var result := Convert(completion.result);
          ghost var before := results;
          results := results[index := Some(result)];
          anyCompleted := true;
          if result.Error? {
            anyFailed := true;
          }
          completedOperations := completedOperations + [index];
          assert forall i: nat :: NewlyFilled(old(results), results, i) <==> i == index || NewlyFilled(old(results), before, i);
          assert result.Error? ==> NewError(old(results), results) by {
            assert NewlyFilled(old(results), results, index);
          }
        }
      }
      assert completions[..|completions|] == completions;
      if completedOperations != [] {
        assert completedOperations[0] in completedOperations;
      }
    }

    /** Looks at the dependents of a completed operation and changes nothing. */
    method CheckReadyOperations(completedIndex: nat)
      requires Valid() && InBounds()
    {
      var keys := dependencies.Keys;
      while keys != {}
        invariant keys <= dependencies.Keys
      {
        var dependent :| dependent in keys;
        keys := keys - {dependent};
        var deps := dependencies[dependent];
        if completedIndex in deps {
          var allSatisfied := true;
          for j := 0 to |deps| {
            assert deps[j] in dependencies[dependent];
            if !(results[deps[j]].Some? && results[deps[j]].value.Success?) {
              allSatisfied := false;
              break;
            }
          }
        }
      }
    }

    method CancelDependentOperations(failedIndex: nat)
      requires Valid() && InBounds()
      modifies this`results
      ensures Valid() && results == CancelledDependents(old(results), dependencies, failedIndex)
    {
      var toCancel := FindDependents(failedIndex);
      for k := 0 to |toCancel|
        invariant |results| == |old(results)|
        invariant forall i | 0 <= i < |results| ::
          results[i] == (if old(results)[i].None? && i in toCancel[..k] then Some(Cancelled) else old(results)[i])
      {
        var index := toCancel[k];
        assert index in dependencies;
        if results[index].None? {
          results := results[index := Some(Cancelled)];
        }
        assert toCancel[..k + 1] == toCancel[..k] + [index];
      }
      assert toCancel[..|toCancel|] == toCancel;
    }

    /** The worklist: all operations that transitively depend on the failed one. */
    method FindDependents(failedIndex: nat) returns (toCancel: seq<nat>)
      ensures forall x :: x in toCancel <==> x != failedIndex && Reaches(dependencies, x, failedIndex)
      ensures forall x | x in toCancel :: x in dependencies
    {
      toCancel := [];
      var visited: set<nat> := {};
      var stack := [failedIndex];
      ReachesSelf(dependencies, failedIndex);
      while stack != []
        invariant forall x | x in visited || x in stack :: x == failedIndex || x in toCancel
        invariant forall x | x in toCancel :: x in dependencies && Reaches(dependencies, x, failedIndex)
        invariant forall x | x in toCancel :: x in visited || x in stack
        invariant failedIndex !in toCancel
        invariant failedIndex in visited || (stack == [failedIndex] && toCancel == [] && visited == {})
        invariant forall a, b | b in visited && Edge(dependencies, a, b) :: a in visited || a in stack
        decreases dependencies.Keys + {failedIndex} - visited, |stack|
      {
        var current := stack[|stack| - 1];
        ghost var before := stack;
        stack := stack[..|stack| - 1];
        assert before == stack + [current];
        if current in visited {
          continue;
        }
        visited := visited + {current};
        toCancel, stack := PushDependents(failedIndex, current, visited, toCancel, stack);
      }
      forall x | x != failedIndex && Reaches(dependencies, x, failedIndex)
        ensures x in toCancel
      {
        ghost var p :| PathFromTo(dependencies, p, x, failedIndex);
        PathStartsInBackClosedSet(dependencies, visited, p);
      }
    }

    /** One sweep over the map, in any key order. */
    method PushDependents(ghost failedIndex: nat, current: nat, visited: set<nat>, toCancel0: seq<nat>, stack0: seq<nat>)
      returns (toCancel: seq<nat>, stack: seq<nat>)
      requires failedIndex in visited && current in visited && failedIndex !in toCancel0
      requires Reaches(dependencies, current, failedIndex)
      requires forall x | x in toCancel0 :: x in dependencies && Reaches(dependencies, x, failedIndex)
      ensures failedIndex !in toCancel
      ensures forall x | x in toCancel :: x in dependencies && Reaches(dependencies, x, failedIndex)
      ensures forall x :: x in stack <==> x in stack0 || (Edge(dependencies, x, current) && x !in visited)
      ensures forall x :: x in toCancel <==> x in toCancel0 || (Edge(dependencies, x, current) && x !in visited)
    {
      toCancel, stack := toCancel0, stack0;
      var keys := dependencies.Keys;
      while keys != {}
        invariant keys <= dependencies.Keys
        invariant failedIndex !in toCancel
        invariant forall x | x in toCancel :: x in dependencies && Reaches(dependencies, x, failedIndex)
        invariant forall x :: x in stack <==> x in stack0 || (Edge(dependencies, x, current) && x !in visited && x !in keys)
        invariant forall x :: x in toCancel <==> x in toCancel0 || (Edge(dependencies, x, current) && x !in visited && x !in keys)
      {
        var dependent :| dependent in keys;
        keys := keys - {dependent};
        if current in dependencies[dependent] && dependent !in visited {
          ReachesPrepend(dependencies, dependent, current, failedIndex);
          toCancel := toCancel + [dependent];
          stack := stack + [dependent];
        }
      }
    }

    method CancelAllRemainingOperations()
      requires Valid()
      modifies this`results
      ensures Valid() && results == FillCancelled(old(results))
    {
      for i := 0 to |results|
        invariant |results| == |old(results)|
        invariant forall j | 0 <= j < |results| ::
          results[j] == (if j < i && old(results)[j].None? then Some(Cancelled) else old(results)[j])
      {
        if results[i].None? {
          results := results[i := Some(Cancelled)];
        }
      }
    }

    /** Runs when the future is dropped. */
    method Drop()
      requires Valid()
      modifies this, wakerRegistry`wakers
      ensures Valid() && results == FillCancelled(old(results))
      ensures wakerRegistry.wakers == old(wakerRegistry.wakers) - set i | 0 <= i < |operationIds| && operationIds[i].Some? :: operationIds[i].value
    {
      CancelAllRemainingOperations();
      for k := 0 to |operationIds|
        invariant Valid() && results == FillCancelled(old(results))
        invariant wakerRegistry.wakers == old(wakerRegistry.wakers) - set i | 0 <= i < k && operationIds[i].Some? :: operationIds[i].value
      {
        if operationIds[k].Some? {
          var _ := wakerRegistry.RemoveWaker(operationIds[k].value);
        }
      }
    }
  }
}
