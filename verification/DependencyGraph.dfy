/**
 Adjacency maps, paths and cycles.

 A key of the map depends on every element of its sequence, so an edge runs
 from a dependent to its dependency.  These definitions do not mention any of
 the search algorithms; they are what the algorithms are proved against.
 */
module DependencyGraph {

  type Graph = map<nat, seq<nat>>

  predicate Edge(g: Graph, a: nat, b: nat) {
    a in g && b in g[a]
  }

  ghost predicate IsPath(g: Graph, p: seq<nat>) {
    |p| > 0 && forall i, j | 0 <= i && j == i + 1 && j < |p| :: Edge(g, p[i], p[j])
  }

  ghost predicate PathFromTo(g: Graph, p: seq<nat>, a: nat, b: nat) {
    IsPath(g, p) && p[0] == a && p[|p| - 1] == b
  }

  /** `a` transitively depends on `b`, or is `b`. */
  ghost predicate Reaches(g: Graph, a: nat, b: nat) {
    exists p :: PathFromTo(g, p, a, b)
  }

  /** A path of at least one edge leads from `a` back to `a`. */
  ghost predicate OnCycle(g: Graph, a: nat) {
    exists p :: |p| > 1 && PathFromTo(g, p, a, a)
  }

  ghost predicate HasCycle(g: Graph) {
    exists a :: OnCycle(g, a)
  }

  ghost predicate CycleReachableFrom(g: Graph, a: nat) {
    exists c :: Reaches(g, a, c) && OnCycle(g, c)
  }

  /** Every node the map mentions, as a key or as a dependency. */
  ghost function Nodes(g: Graph): set<nat> {
    g.Keys + set a, b | a in g.Keys && b in g[a] :: b
  }

  ghost predicate Closed(g: Graph, s: set<nat>) {
    forall a, b | a in s && Edge(g, a, b) :: b in s
  }

  /** Every index the map mentions is below `n`. */
  ghost predicate InRange(g: Graph, n: nat) {
    forall a | a in g :: a < n && forall b | b in g[a] :: b < n
  }

  /** The map after `entry(a).or_default().push(b)`. */
  function WithEdge(g: Graph, a: nat, b: nat): Graph {
    g[a := (if a in g then g[a] else []) + [b]]
  }

  lemma ReachesSelf(g: Graph, a: nat)
    ensures Reaches(g, a, a)
  {
    assert PathFromTo(g, [a], a, a);
  }

  lemma ReachesPrepend(g: Graph, a: nat, b: nat, c: nat)
    requires Edge(g, a, b) && Reaches(g, b, c)
    ensures Reaches(g, a, c)
  {
    var p :| PathFromTo(g, p, b, c);
    assert PathFromTo(g, [a] + p, a, c);
  }

  lemma ReachesEdge(g: Graph, a: nat, b: nat)
    requires Edge(g, a, b)
    ensures Reaches(g, a, b)
  {
    ReachesSelf(g, b);
    ReachesPrepend(g, a, b, b);
  }

  lemma ReachesAppend(g: Graph, a: nat, b: nat, c: nat)
    requires Reaches(g, a, b) && Edge(g, b, c)
    ensures Reaches(g, a, c)
  {
    var p :| PathFromTo(g, p, a, b);
    assert PathFromTo(g, p + [c], a, c);
  }

  lemma {:induction false} PathTransitive(g: Graph, p: seq<nat>, a: nat, b: nat, c: nat)
    requires PathFromTo(g, p, a, b) && Reaches(g, b, c)
    ensures Reaches(g, a, c)
    decreases |p|
  {
    if |p| > 1 {
      assert PathFromTo(g, p[1..], p[1], b);
      PathTransitive(g, p[1..], p[1], b, c);
      ReachesPrepend(g, a, p[1], c);
    }
  }

  lemma ReachesTransitive(g: Graph, a: nat, b: nat, c: nat)
    requires Reaches(g, a, b) && Reaches(g, b, c)
    ensures Reaches(g, a, c)
  {
    var p :| PathFromTo(g, p, a, b);
    PathTransitive(g, p, a, b, c);
  }

  /** A cycle is an edge whose head reaches its tail. */
  lemma CycleIsEdgeAndWayBack(g: Graph, a: nat)
    ensures OnCycle(g, a) <==> exists b :: Edge(g, a, b) && Reaches(g, b, a)
  {
    if OnCycle(g, a) {
      var p :| |p| > 1 && PathFromTo(g, p, a, a);
      assert PathFromTo(g, p[1..], p[1], a);
      assert Edge(g, a, p[1]) && Reaches(g, p[1], a);
    }
    if b :| Edge(g, a, b) && Reaches(g, b, a) {
      var p :| PathFromTo(g, p, b, a);
      assert PathFromTo(g, [a] + p, a, a);
    }
  }

  lemma {:induction false} PathStaysInClosedSet(g: Graph, s: set<nat>, p: seq<nat>, i: nat)
    requires IsPath(g, p) && Closed(g, s) && p[0] in s && i < |p|
    ensures p[i] in s
  {
    if i > 0 {
      PathStaysInClosedSet(g, s, p, i - 1);
      assert Edge(g, p[i - 1], p[i]);
    }
  }

  lemma ReachesStaysInClosedSet(g: Graph, s: set<nat>, a: nat, b: nat)
    requires Closed(g, s) && a in s && Reaches(g, a, b)
    ensures b in s
  {
    var p :| PathFromTo(g, p, a, b);
    PathStaysInClosedSet(g, s, p, |p| - 1);
  }

  /** Dual of the above: a set that contains every dependent of its members. */
  lemma {:induction false} PathStartsInBackClosedSet(g: Graph, s: set<nat>, p: seq<nat>)
    requires IsPath(g, p) && p[|p| - 1] in s
    requires forall a, b | b in s && Edge(g, a, b) :: a in s
    ensures p[0] in s
    decreases |p|
  {
    if |p| > 1 {
      assert IsPath(g, p[1..]);
      PathStartsInBackClosedSet(g, s, p[1..]);
      assert Edge(g, p[0], p[1]);
    }
  }

  lemma SubgraphPaths(g: Graph, h: Graph, a: nat, b: nat)
    requires forall x, y | Edge(g, x, y) :: Edge(h, x, y)
    requires Reaches(g, a, b)
    ensures Reaches(h, a, b)
  {
    var p :| PathFromTo(g, p, a, b);
    assert PathFromTo(h, p, a, b);
  }

  lemma CycleSurvivesMoreEdges(g: Graph, h: Graph)
    requires forall x, y | Edge(g, x, y) :: Edge(h, x, y)
    requires HasCycle(g)
    ensures HasCycle(h)
  {
    var a :| OnCycle(g, a);
    var p :| |p| > 1 && PathFromTo(g, p, a, a);
    assert PathFromTo(h, p, a, a);
    assert OnCycle(h, a);
  }

  /** A path that may use the new edge either avoids it, or splits at it. */
  lemma {:induction false} PathThroughNewEdge(g: Graph, a: nat, b: nat, p: seq<nat>)
    requires IsPath(WithEdge(g, a, b), p)
    ensures IsPath(g, p) || (Reaches(g, p[0], a) && Reaches(g, b, p[|p| - 1]))
    decreases |p|
  {
    if |p| > 1 {
      var h := WithEdge(g, a, b);
      var rest := p[1..];
      assert Edge(h, p[0], p[1]);
      assert IsPath(h, rest);
      PathThroughNewEdge(g, a, b, rest);
      if Edge(g, p[0], p[1]) {
        if IsPath(g, rest) {
          assert forall i | 1 <= i < |p| :: p[i] == rest[i - 1];
        } else {
          ReachesPrepend(g, p[0], p[1], a);
        }
      } else {
        ReachesSelf(g, a);
        if IsPath(g, rest) {
          assert PathFromTo(g, rest, b, p[|p| - 1]);
        }
      }
    }
  }

  /** The new edge closes a cycle exactly when its head already reached its tail. */
  lemma NewEdgeKeepsAcyclicity(g: Graph, a: nat, b: nat)
    requires !HasCycle(g)
    ensures HasCycle(WithEdge(g, a, b)) <==> Reaches(g, b, a)
  {
    var h := WithEdge(g, a, b);
    if Reaches(g, b, a) {
      assert Edge(h, a, b);
      SubgraphPaths(g, h, b, a);
      CycleIsEdgeAndWayBack(h, a);
    }
    if c :| OnCycle(h, c) {
      var p :| |p| > 1 && PathFromTo(h, p, c, c);
      PathThroughNewEdge(g, a, b, p);
      if IsPath(g, p) {
        assert PathFromTo(g, p, c, c);
        assert OnCycle(g, c);
      }
      ReachesTransitive(g, b, c, a);
    }
  }
}
