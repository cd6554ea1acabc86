/**
 A batch: its operations and the dependency map grown one edge at a time.
 The incremental check in `AddDependency` keeps the map acyclic, so the two
 whole-map checks never find anything to report.
 */
module Batches {
  import opened Wrappers
  import opened DependencyGraph
  import opened DependencyValidation
  import opened OperationTracking

  const MAX_OPERATIONS := 1024

  /** An operation under construction; `problem` is what its own validation would report. */
  datatype Operation = Operation(opType: OperationType, fd: int, problem: Option<string>)

  datatype BatchError =
    | BatchFull
    | InvalidOperation(message: string)
    | DependentOutOfBounds(index: nat)
    | DependencyOutOfBounds(index: nat)
    | SelfDependency
    | WouldCycle

  datatype BatchState = BatchState(operations: seq<Operation>, dependencies: Graph)

  const EMPTY_BATCH := BatchState([], map[])

  ghost predicate Sound(s: BatchState) {
    && |s.operations| <= MAX_OPERATIONS
    && InRange(s.dependencies, |s.operations|)
    && !HasCycle(s.dependencies)
  }

  // ----- What each call does, in terms of paths --------------------------

  function AfterAddOperation(s: BatchState, op: Operation): (BatchState, Result<nat, BatchError>) {
    if |s.operations| >= MAX_OPERATIONS then
      (s, Err(BatchFull))
    else if op.problem.Some? then
      (s, Err(InvalidOperation(op.problem.value)))
    else
      (s.(operations := s.operations + [op]), Ok(|s.operations|))
  }

  /** The error order of the source; a cycle is decided by reachability, not by a search. */
  ghost function AddDependencyAnswer(s: BatchState, dependent: nat, dependency: nat): Result<(), BatchError> {
    if dependent >= |s.operations| then Err(DependentOutOfBounds(dependent))
    else if dependency >= |s.operations| then Err(DependencyOutOfBounds(dependency))
    else if dependent == dependency then Err(SelfDependency)
    else if Reaches(s.dependencies, dependency, dependent) then Err(WouldCycle)
    else Ok(())
  }

  ghost function AfterAddDependency(s: BatchState, dependent: nat, dependency: nat): BatchState {
    if AddDependencyAnswer(s, dependent, dependency).Ok?
    then s.(dependencies := WithEdge(s.dependencies, dependent, dependency))
    else s
  }

  // ----- The batch object -------------------------------------------------

  class Batch {
    var operations: seq<Operation>
    var dependencies: Graph

    ghost function View(): BatchState
      reads this
    {
      BatchState(operations, dependencies)
    }

    ghost predicate Valid()
      reads this
    {
      Sound(View())
    }

    constructor ()
      ensures Valid() && View() == EMPTY_BATCH
    {
      operations := [];
      dependencies := map[];
      new;
      EmptyBatchIsSound();
    }

    method AddOperation(op: Operation) returns (r: Result<nat, BatchError>)
      requires Valid()
      modifies this
      ensures Valid()
      ensures (View(), r) == AfterAddOperation(old(View()), op)
      ensures r.Ok? ==> r.value == |old(operations)| && operations == old(operations) + [op] && operations[r.value] == op
      ensures r.Err? ==> operations == old(operations) && r.error == if |operations| >= 1024 then BatchFull else InvalidOperation(op.problem.value)
      ensures r.Ok? <==> |old(operations)| < 1024 && op.problem.None?
    {
      if |operations| >= MAX_OPERATIONS {
        return Err(BatchFull);
      }
      if op.problem.Some? {
        return Err(InvalidOperation(op.problem.value));
      }
      var index := |operations|;
      operations := operations + [op];
      r := Ok(index);
    }

    method AddDependency(dependent: nat, dependency: nat) returns (r: Result<(), BatchError>)
      requires Valid()
      modifies this`dependencies
      ensures Valid()
      ensures r == AddDependencyAnswer(old(View()), dependent, dependency)
      ensures View() == AfterAddDependency(old(View()), dependent, dependency)
      ensures var n := |operations|;
        if dependent >= n then r == Err(DependentOutOfBounds(dependent))
        else if dependency >= n then r == Err(DependencyOutOfBounds(dependency))
        else if dependent == dependency then r == Err(SelfDependency)
        else r == if HasCycle(WithEdge(old(dependencies), dependent, dependency)) then Err(WouldCycle) else Ok(())
      ensures forall a, b :: Edge(dependencies, a, b) <==>
        Edge(old(dependencies), a, b) || (r.Ok? && a == dependent && b == dependency)
    {
      if dependent >= |operations| {
        return Err(DependentOutOfBounds(dependent));
      }
      if dependency >= |operations| {
        return Err(DependencyOutOfBounds(dependency));
      }
      if dependent == dependency {
        return Err(SelfDependency);
      }
      var cycle := WouldCreateCycle(dependencies, dependent, dependency);
      NewEdgeKeepsAcyclicity(dependencies, dependent, dependency);
      if cycle {
        return Err(WouldCycle);
      }
      dependencies := dependencies[dependent := (if dependent in dependencies then dependencies[dependent] else []) + [dependency]];
      r := Ok(());
    }

    method Clear()
      modifies this
      ensures Valid() && View() == EMPTY_BATCH
    {
      operations := [];
      dependencies := map[];
      EmptyBatchIsSound();
    }

    /** Never true of a batch built through this interface. */
    method HasCircularDependencies() returns (found: bool)
      requires Valid()
      ensures !found
    {
      found := DependencyValidation.HasCircularDependencies(dependencies);
    }

    /** Never fails on a batch built through this interface. */
    method DependencyOrder() returns (r: Result<seq<nat>, OrderError>)
      requires Valid()
      ensures r.Ok?
      ensures multiset(r.value) == multiset(Indices(|operations|))
      ensures DependenciesFirst(dependencies, r.value)
    {
      r := DependencyValidation.DependencyOrder(dependencies, |operations|);
      InRangeCycleIsReachable(dependencies, |operations|);
      forall x: nat
        ensures Listed(dependencies, |operations|, x) <==> x < |operations|
      {
        InRangeListsExactlyIndices(dependencies, |operations|, x);
      }
      ExactListIsPermutation(r.value, |operations|);
    }
  }

  lemma EmptyBatchIsSound()
    ensures Sound(EMPTY_BATCH)
  {
    forall a
      ensures !OnCycle(EMPTY_BATCH.dependencies, a)
    {
      CycleIsEdgeAndWayBack(EMPTY_BATCH.dependencies, a);
    }
  }

  // ----- Whole runs -------------------------------------------------------

  datatype BatchCall =
    | AddOperationCall(op: Operation)
    | AddDependencyCall(dependent: nat, dependency: nat)
    | ClearCall

  ghost function AfterCall(s: BatchState, c: BatchCall): BatchState {
    match c
    case AddOperationCall(op) => AfterAddOperation(s, op).0
    case AddDependencyCall(dependent, dependency) => AfterAddDependency(s, dependent, dependency)
    case ClearCall => EMPTY_BATCH
  }

  ghost function AfterCalls(s: BatchState, calls: seq<BatchCall>): BatchState
    decreases |calls|
  {
    if calls == [] then s else AfterCalls(AfterCall(s, calls[0]), calls[1..])
  }

  /** Every batch reachable by any sequence of calls is in range and acyclic. */
  lemma {:induction false} ReachableBatchesAreSound(s: BatchState, calls: seq<BatchCall>)
    requires Sound(s)
    ensures Sound(AfterCalls(s, calls))
    decreases |calls|
  {
    if calls != [] {
      match calls[0] {
        case AddOperationCall(op) =>
        case AddDependencyCall(dependent, dependency) =>
          NewEdgeKeepsAcyclicity(s.dependencies, dependent, dependency);
        case ClearCall =>
          EmptyBatchIsSound();
      }
      ReachableBatchesAreSound(AfterCall(s, calls[0]), calls[1..]);
    }
  }

  /** Until the batch is cleared, every operation stays at its index. */
  lemma {:induction false} IndicesKeepNaming(s: BatchState, calls: seq<BatchCall>, index: nat)
    requires index < |s.operations| && ClearCall !in calls
    ensures var t := AfterCalls(s, calls); index < |t.operations| && t.operations[index] == s.operations[index]
    decreases |calls|
  {
    if calls != [] {
      IndicesKeepNaming(AfterCall(s, calls[0]), calls[1..], index);
    }
  }

  /** An index handed out for an operation names that operation until the batch is cleared, whatever else is called. */
  lemma AnsweredIndexNamesItsOperation(s: BatchState, op: Operation, calls: seq<BatchCall>)
    requires ClearCall !in calls && AfterAddOperation(s, op).1.Ok?
    ensures var index := AfterAddOperation(s, op).1.value;
      var t := AfterCalls(s, [AddOperationCall(op)] + calls);
      index < |t.operations| && t.operations[index] == op
  {
    assert ([AddOperationCall(op)] + calls)[1..] == calls;
    IndicesKeepNaming(AfterAddOperation(s, op).0, calls, AfterAddOperation(s, op).1.value);
  }

  /** An in-range edge between distinct operations is accepted iff the larger graph is still acyclic. */
  lemma EdgeAcceptedIffStillAcyclic(s: BatchState, dependent: nat, dependency: nat)
    requires Sound(s) && dependent != dependency
    requires dependent < |s.operations| && dependency < |s.operations|
    ensures AddDependencyAnswer(s, dependent, dependency).Ok?
      <==> !HasCycle(WithEdge(s.dependencies, dependent, dependency))
  {
    NewEdgeKeepsAcyclicity(s.dependencies, dependent, dependency);
  }

  // ----- Which edge lists are accepted as a whole ------------------------

  function WithEdges(g: Graph, edges: seq<(nat, nat)>): Graph
    decreases |edges|
  {
    if edges == [] then g else WithEdges(WithEdge(g, edges[0].0, edges[0].1), edges[1..])
  }

  ghost predicate AllAccepted(s: BatchState, edges: seq<(nat, nat)>)
    decreases |edges|
  {
    edges == [] ||
    (&& AddDependencyAnswer(s, edges[0].0, edges[0].1).Ok?
     && AllAccepted(AfterAddDependency(s, edges[0].0, edges[0].1), edges[1..]))
  }

  /** Adding edges adds exactly those edges. */
  lemma {:induction false} EdgesOfWithEdges(g: Graph, edges: seq<(nat, nat)>, a: nat, b: nat)
    ensures Edge(WithEdges(g, edges), a, b) <==> Edge(g, a, b) || (a, b) in edges
    decreases |edges|
  {
    if edges != [] {
      EdgesOfWithEdges(WithEdge(g, edges[0].0, edges[0].1), edges[1..], a, b);
    }
  }

  lemma {:induction false} AcceptedIffAcyclic(s: BatchState, edges: seq<(nat, nat)>)
    requires Sound(s)
    requires forall e | e in edges :: e.0 < |s.operations| && e.1 < |s.operations|
    ensures AllAccepted(s, edges) <==> !HasCycle(WithEdges(s.dependencies, edges))
    decreases |edges|
  {
    if edges != [] {
      var (a, b) := edges[0];
      var g := WithEdge(s.dependencies, a, b);
      NewEdgeKeepsAcyclicity(s.dependencies, a, b);
      if AddDependencyAnswer(s, a, b).Ok? {
        AcceptedIffAcyclic(AfterAddDependency(s, a, b), edges[1..]);
      } else {
        ReachesSelf(s.dependencies, a);
        forall x, y | Edge(g, x, y)
          ensures Edge(WithEdges(g, edges[1..]), x, y)
        {
          EdgesOfWithEdges(g, edges[1..], x, y);
        }
        CycleSurvivesMoreEdges(g, WithEdges(g, edges[1..]));
      }
    }
  }

  /** Whether a list of dependencies is accepted does not depend on the order they are added in. */
  lemma AcceptanceIgnoresOrder(s: BatchState, edges: seq<(nat, nat)>, shuffled: seq<(nat, nat)>)
    requires Sound(s) && (forall e :: e in edges <==> e in shuffled)
    requires forall e | e in edges :: e.0 < |s.operations| && e.1 < |s.operations|
    ensures AllAccepted(s, edges) <==> AllAccepted(s, shuffled)
  {
    AcceptedIffAcyclic(s, edges);
    AcceptedIffAcyclic(s, shuffled);
    var g, h := WithEdges(s.dependencies, edges), WithEdges(s.dependencies, shuffled);
    forall a, b
      ensures Edge(g, a, b) <==> Edge(h, a, b)
    {
      EdgesOfWithEdges(s.dependencies, edges, a, b);
      EdgesOfWithEdges(s.dependencies, shuffled, a, b);
    }
    if HasCycle(g) { CycleSurvivesMoreEdges(g, h); }
    if HasCycle(h) { CycleSurvivesMoreEdges(h, g); }
  }
}
