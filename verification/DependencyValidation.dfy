/**
 The three graph searches over a batch's dependency map: an iterative
 stack search, a recursive cycle search and a recursive topological sort.
 All three are total on cyclic maps, and each is proved against the
 path-based definitions of `DependencyGraph`.
 */
module DependencyValidation {
  import opened Wrappers
  import opened DependencyGraph

  datatype OrderError = CircularDependency

  // ----- Iterative reachability ------------------------------------------

  /** Would an edge from `dependent` to `newDependency` close a cycle? */
  method WouldCreateCycle(dependencies: Graph, dependent: nat, newDependency: nat) returns (cycle: bool)
    ensures cycle <==> Reaches(dependencies, newDependency, dependent)
  {
    var visited: set<nat> := {};
    var stack := [newDependency];
    ReachesSelf(dependencies, newDependency);
    while stack != []
      invariant forall x | x in visited || x in stack :: Reaches(dependencies, newDependency, x)
      invariant forall a, b | a in visited && Edge(dependencies, a, b) :: b in visited || b in stack
      invariant newDependency in visited || newDependency in stack
      invariant dependent !in visited
      decreases Nodes(dependencies) + {newDependency} - visited, |stack|
    {
      var current := stack[|stack| - 1];
      ghost var before := stack;
      stack := stack[..|stack| - 1];
      assert before == stack + [current];
      if current == dependent {
        return true;
      }
      if current in visited {
        continue;
      }
      assert current in Nodes(dependencies) + {newDependency} by {
        if current != newDependency {
          ReachedIsNode(dependencies, newDependency, current);
        }
      }
      visited := visited + {current};
      if current in dependencies {
        forall b | b in dependencies[current]
          ensures Reaches(dependencies, newDependency, b)
        {
          ReachesAppend(dependencies, newDependency, current, b);
        }
        stack := stack + dependencies[current];
      }
    }
    if Reaches(dependencies, newDependency, dependent) {
      ReachesStaysInClosedSet(dependencies, visited, newDependency, dependent);
    }
    return false;
  }

  lemma ReachedIsNode(g: Graph, a: nat, b: nat)
    requires Reaches(g, a, b) && a != b
    ensures b in Nodes(g)
  {
    var p :| PathFromTo(g, p, a, b);
    assert Edge(g, p[|p| - 2], p[|p| - 1]);
  }

  // ----- Recursive cycle search ------------------------------------------

  /** Nodes whose whole subtree is finished: visited and off the recursion stack. */
  ghost predicate FinishedWithoutCycle(g: Graph, finished: set<nat>) {
    && Closed(g, finished)
    && forall a | a in finished :: !OnCycle(g, a)
  }

  /**
   One call of the recursive search.  The two sets are passed in and out,
   as the source passes them by mutable reference.
   */
  method HasCycleFrom(node: nat, graph: Graph, visited0: set<nat>, recStack0: set<nat>)
    returns (found: bool, visited: set<nat>, recStack: set<nat>)
    requires node !in visited0
    requires recStack0 <= visited0
    requires FinishedWithoutCycle(graph, visited0 - recStack0)
    requires forall r | r in recStack0 :: Reaches(graph, r, node)
    ensures found ==> HasCycle(graph)
    ensures !found ==> recStack == recStack0 && visited0 + {node} <= visited
    ensures !found ==> FinishedWithoutCycle(graph, visited - recStack)
    decreases Nodes(graph) - visited0
  {
    visited := visited0 + {node};
    recStack := recStack0 + {node};
    ReachesSelf(graph, node);
    if node in graph {
      var neighbors := graph[node];
      for i := 0 to |neighbors|
        invariant recStack == recStack0 + {node} && visited0 + {node} <= visited
        invariant FinishedWithoutCycle(graph, visited - recStack)
        invariant forall r | r in recStack :: Reaches(graph, r, node)
        invariant forall j | 0 <= j < i :: neighbors[j] in visited - recStack
      {
        var neighbor := neighbors[i];
        assert Edge(graph, node, neighbor);
        if neighbor !in visited {
          forall r | r in recStack
            ensures Reaches(graph, r, neighbor)
          {
            ReachesAppend(graph, r, node, neighbor);
          }
          var deeper;
          deeper, visited, recStack := HasCycleFrom(neighbor, graph, visited, recStack);
          if deeper {
            return true, visited, recStack;
          }
        }
        if neighbor in recStack {
          CycleIsEdgeAndWayBack(graph, node);
          return true, visited, recStack;
        }
      }
    }
    FinishNode(graph, visited - recStack, node);
    recStack := recStack - {node};
    assert recStack == recStack0 && visited - recStack == visited - (recStack0 + {node}) + {node};
    found := false;
  }

  /** A node outside a finished set whose dependencies all lie inside it can join it. */
  lemma FinishNode(g: Graph, finished: set<nat>, node: nat)
    requires FinishedWithoutCycle(g, finished) && node !in finished
    requires forall b | Edge(g, node, b) :: b in finished
    ensures FinishedWithoutCycle(g, finished + {node})
  {
    if OnCycle(g, node) {
      CycleIsEdgeAndWayBack(g, node);
      var b :| Edge(g, node, b) && Reaches(g, b, node);
      ReachesStaysInClosedSet(g, finished, b, node);
    }
  }

  /** The keys are taken in an arbitrary order; the answer does not depend on it. */
  method HasCircularDependencies(dependencies: Graph) returns (found: bool)
    ensures found <==> HasCycle(dependencies)
  {
    var visited: set<nat> := {};
    var keys := dependencies.Keys;
    while keys != {}
      invariant keys <= dependencies.Keys && dependencies.Keys - keys <= visited
      invariant FinishedWithoutCycle(dependencies, visited)
    {
      var node :| node in keys;
      keys := keys - {node};
      if node !in visited {
        var recStack: set<nat> := {};
        assert visited - recStack == visited;
        found, visited, recStack := HasCycleFrom(node, dependencies, visited, recStack);
        if found {
          return;
        }
        assert visited - recStack == visited;
      }
    }
    forall a
      ensures !OnCycle(dependencies, a)
    {
      CycleIsEdgeAndWayBack(dependencies, a);
    }
    found := false;
  }

  // ----- Topological order -----------------------------------------------

  /** Every dependency of a listed node is listed strictly before it. */
  ghost predicate DependenciesFirst(g: Graph, order: seq<nat>) {
    forall i, d | 0 <= i < |order| && Edge(g, order[i], d) :: d in order[..i]
  }

  ghost predicate NoDuplicates(s: seq<nat>) {
    forall i, j | 0 <= i < j < |s| :: s[i] != s[j]
  }

  ghost function Elements(s: seq<nat>): set<nat> {
    set x | x in s
  }

  /** What the partial result of the sort always satisfies. */
  ghost predicate PartialOrder(g: Graph, visited: set<nat>, order: seq<nat>) {
    && visited == Elements(order)
    && NoDuplicates(order)
    && DependenciesFirst(g, order)
  }

  method VisitNode(node: nat, dependencies: Graph, visited0: set<nat>, tempVisited0: set<nat>, result0: seq<nat>)
    returns (r: Result<(), OrderError>, visited: set<nat>, tempVisited: set<nat>, result: seq<nat>)
    requires PartialOrder(dependencies, visited0, result0)
    requires visited0 !! tempVisited0
    requires forall t | t in tempVisited0 :: t != node ==> Reaches(dependencies, t, node)
    requires node in tempVisited0 ==> OnCycle(dependencies, node)
    ensures r.Err? ==> CycleReachableFrom(dependencies, node)
    ensures r.Ok? ==> PartialOrder(dependencies, visited, result)
    ensures r.Ok? ==> tempVisited == tempVisited0 && visited !! tempVisited
    ensures r.Ok? ==> result0 <= result && visited0 + {node} <= visited
    ensures r.Ok? ==> forall x | x in visited :: x in visited0 || Reaches(dependencies, node, x)
    decreases Nodes(dependencies) - tempVisited0 - visited0
  {
    visited, tempVisited, result := visited0, tempVisited0, result0;
    ReachesSelf(dependencies, node);
    if node in tempVisited {
      return Err(CircularDependency), visited, tempVisited, result;
    }
    if node in visited {
      return Ok(()), visited, tempVisited, result;
    }
    tempVisited := tempVisited + {node};
    if node in dependencies {
      var deps := dependencies[node];
      for i := 0 to |deps|
        invariant PartialOrder(dependencies, visited, result)
        invariant tempVisited == tempVisited0 + {node} && visited !! tempVisited
        invariant visited0 <= visited && result0 <= result
        invariant forall x | x in visited :: x in visited0 || Reaches(dependencies, node, x)
        invariant forall j | 0 <= j < i :: deps[j] in visited
      {
        var dep := deps[i];
        assert node in Nodes(dependencies) && Edge(dependencies, node, dep);
        TemporaryNodesReach(dependencies, tempVisited0, node, dep);
        ghost var before := visited;
        assert node in Nodes(dependencies) - tempVisited0 - visited0;
        r, visited, tempVisited, result := VisitNode(dep, dependencies, visited, tempVisited, result);
        if r.Err? {
          ghost var c :| Reaches(dependencies, dep, c) && OnCycle(dependencies, c);
          ReachesPrepend(dependencies, node, dep, c);
          return;
        }
        forall x | x in visited && x !in visited0
          ensures Reaches(dependencies, node, x)
        {
          if x !in before {
            ReachesPrepend(dependencies, node, dep, x);
          }
        }
        assert Elements(result) == visited && before <= visited;
      }
    }
    tempVisited := tempVisited - {node};
    AppendFinished(dependencies, visited, result, node);
    visited := visited + {node};
    result := result + [node];
    r := Ok(());
  }

  lemma TemporaryNodesReach(g: Graph, temp: set<nat>, node: nat, dep: nat)
    requires Edge(g, node, dep)
    requires forall t | t in temp :: t != node ==> Reaches(g, t, node)
    ensures forall t | t in temp + {node} :: t != dep ==> Reaches(g, t, dep)
    ensures dep in temp + {node} ==> OnCycle(g, dep)
  {
    ReachesEdge(g, node, dep);
    forall t | t in temp && t != node
      ensures Reaches(g, t, dep)
    {
      ReachesAppend(g, t, node, dep);
    }
    if dep in temp + {node} {
      ReachesSelf(g, node);
      assert Reaches(g, dep, node);
      CycleIsEdgeAndWayBack(g, node);
      var p :| PathFromTo(g, p, dep, node);
      assert PathFromTo(g, p + [dep], dep, dep);
    }
  }

  lemma AppendFinished(g: Graph, visited: set<nat>, order: seq<nat>, node: nat)
    requires PartialOrder(g, visited, order) && node !in visited
    requires forall d | Edge(g, node, d) :: d in visited
    ensures PartialOrder(g, visited + {node}, order + [node])
  {
    var longer := order + [node];
    forall i, d | 0 <= i < |longer| && Edge(g, longer[i], d)
      ensures d in longer[..i]
    {
      if i < |order| {
        assert longer[..i] == order[..i];
      } else {
        assert longer[..i] == order;
        assert d in Elements(order);
      }
    }
  }

  /** The nodes a sort of `0..count` has to list: the indices and all they depend on. */
  ghost predicate Listed(g: Graph, count: nat, x: nat) {
    exists i :: 0 <= i < count && Reaches(g, i, x)
  }

  method DependencyOrder(dependencies: Graph, operationCount: nat) returns (r: Result<seq<nat>, OrderError>)
    ensures r.Ok? <==> forall i | 0 <= i < operationCount :: !CycleReachableFrom(dependencies, i)
    ensures r.Ok? ==> NoDuplicates(r.value) && DependenciesFirst(dependencies, r.value)
    ensures r.Ok? ==> forall x :: x in r.value <==> Listed(dependencies, operationCount, x)
  {
    var result: seq<nat> := [];
    var visited: set<nat> := {};
    var tempVisited: set<nat> := {};
    for i := 0 to operationCount
      invariant PartialOrder(dependencies, visited, result) && tempVisited == {}
      invariant forall j | 0 <= j < i :: j in visited
      invariant forall x | x in visited :: Listed(dependencies, i, x)
    {
      ghost var before := visited;
      if i !in visited {
        var step: Result<(), OrderError>;
        step, visited, tempVisited, result := VisitNode(i, dependencies, visited, tempVisited, result);
        if step.Err? {
          return Err(step.error);
        }
      }
      forall x | x in visited
        ensures Listed(dependencies, i + 1, x)
      {
        if x in before {
          var j :| 0 <= j < i && Reaches(dependencies, j, x);
        } else {
          assert 0 <= i < i + 1 && Reaches(dependencies, i, x);
        }
      }
    }
    DependenciesFirstIsClosed(dependencies, result);
    forall i | 0 <= i < operationCount
      ensures !CycleReachableFrom(dependencies, i)
    {
      assert i in Elements(result);
      OrderedSetReachesNoCycle(dependencies, result, i);
    }
    forall x | Listed(dependencies, operationCount, x)
      ensures x in result
    {
      var i :| 0 <= i < operationCount && Reaches(dependencies, i, x);
      ReachesStaysInClosedSet(dependencies, Elements(result), i, x);
    }
    r := Ok(result);
  }

  lemma DependenciesFirstIsClosed(g: Graph, order: seq<nat>)
    requires DependenciesFirst(g, order)
    ensures Closed(g, Elements(order))
  {
  }

  /** Along a path from position `i` of an ordered list, positions only go down. */
  lemma {:induction false} PathGoesDown(g: Graph, order: seq<nat>, p: seq<nat>, i: nat) returns (j: nat)
    requires DependenciesFirst(g, order) && IsPath(g, p)
    requires i < |order| && order[i] == p[0]
    ensures j <= i && order[j] == p[|p| - 1] && (|p| > 1 ==> j < i)
    decreases |p|
  {
    if |p| == 1 {
      return i;
    }
    assert Edge(g, order[i], p[1]);
    var k :| 0 <= k < i && order[k] == p[1];
    assert IsPath(g, p[1..]);
    j := PathGoesDown(g, order, p[1..], k);
  }

  lemma OrderedSetReachesNoCycle(g: Graph, order: seq<nat>, a: nat)
    requires DependenciesFirst(g, order) && NoDuplicates(order) && a in order
    ensures !CycleReachableFrom(g, a)
  {
    if c :| Reaches(g, a, c) && OnCycle(g, c) {
      DependenciesFirstIsClosed(g, order);
      ReachesStaysInClosedSet(g, Elements(order), a, c);
      var i :| 0 <= i < |order| && order[i] == c;
      var p :| |p| > 1 && PathFromTo(g, p, c, c);
      var j := PathGoesDown(g, order, p, i);
      assert false;
    }
  }

  // ----- Agreement of the searches ---------------------------------------

  /** When all indices are in range, sorting fails exactly when the map has a cycle at all. */
  lemma InRangeCycleIsReachable(g: Graph, n: nat)
    requires InRange(g, n)
    ensures HasCycle(g) <==> exists i :: 0 <= i < n && CycleReachableFrom(g, i)
  {
    if a: nat :| OnCycle(g, a) {
      CycleIsEdgeAndWayBack(g, a);
      ReachesSelf(g, a);
      assert 0 <= a < n && CycleReachableFrom(g, a);
    }
  }

  lemma InRangeListsExactlyIndices(g: Graph, n: nat, x: nat)
    requires InRange(g, n)
    ensures Listed(g, n, x) <==> x < n
  {
    if x < n {
      ReachesSelf(g, x);
    }
    if i :| 0 <= i < n && Reaches(g, i, x) {
      if i != x {
        ReachedIsNode(g, i, x);
      }
    }
  }

  function Indices(n: nat): (s: seq<nat>)
    ensures |s| == n && forall i | 0 <= i < n :: s[i] == i
  {
    seq(n, i => i)
  }

  /** A duplicate-free list of exactly the numbers below `n` is a permutation of `0..n`. */
  lemma {:induction false} ExactListIsPermutation(order: seq<nat>, n: nat)
    requires NoDuplicates(order)
    requires forall x: nat :: x in order <==> x < n
    ensures multiset(order) == multiset(Indices(n))
  {
    DistinctCounts(order);
    DistinctCounts(Indices(n));
    assert forall x: nat :: x in Indices(n) <==> x < n by {
      forall x: nat | x < n
        ensures x in Indices(n)
      {
        assert Indices(n)[x] == x;
      }
    }
    forall x: nat
      ensures multiset(order)[x] == multiset(Indices(n))[x]
    {
    }
  }

  lemma {:induction false} DistinctCounts(s: seq<nat>)
    requires NoDuplicates(s)
    ensures forall x :: multiset(s)[x] == if x in s then 1 else 0
  {
    if s != [] {
      var init := s[..|s| - 1];
      DistinctCounts(init);
      assert s == init + [s[|s| - 1]];
    }
  }
}
