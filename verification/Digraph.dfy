/** Directed graphs over string ids: paths, reachability, cycles, and the
    breadth-first search the optimiser runs on them. */
module Digraph {
  import opened Lists

  type Id = string
  type Arc = (Id, Id)

  /** What a `networkx.DiGraph` holds; parallel arcs collapse. */
  datatype DiGraph = DiGraph(nodes: set<Id>, arcs: set<Arc>) {
    ghost predicate WellFormed() {
      forall a | a in arcs :: a.0 in nodes && a.1 in nodes
    }
  }

  // ---------------------------------------------------------------- paths

  ghost predicate IsPath(E: set<Arc>, p: seq<Id>) {
    |p| > 0 && (|p| > 1 ==> (p[0], p[1]) in E && IsPath(E, p[1..]))
  }

  ghost predicate PathFromTo(E: set<Arc>, p: seq<Id>, u: Id, v: Id) {
    IsPath(E, p) && p[0] == u && p[|p| - 1] == v
  }

  /** v is u itself or can be reached from u along arcs of E. */
  ghost predicate Reach(E: set<Arc>, u: Id, v: Id) {
    exists p :: PathFromTo(E, p, u, v)
  }

  /** u and v lie on a common closed walk. */
  ghost predicate Mutual(E: set<Arc>, u: Id, v: Id) {
    Reach(E, u, v) && Reach(E, v, u)
  }

  /** The nodes `networkx.descendants` returns: never the start itself. A start
      outside the graph has none (query.py's `reachable_from`). */
  ghost function Descendants(g: DiGraph, u: Id): set<Id> {
    if u in g.nodes then set v | v in g.nodes && v != u && Reach(g.arcs, u, v) else {}
  }

  function Successors(E: set<Arc>, u: Id): set<Id> {
    set a | a in E && a.0 == u :: a.1
  }

  lemma ReachRefl(E: set<Arc>, u: Id)
    ensures Reach(E, u, u)
  {
    assert PathFromTo(E, [u], u, u);
  }

  lemma ReachStep(E: set<Arc>, u: Id, w: Id, v: Id)
    requires (u, w) in E && Reach(E, w, v)
    ensures Reach(E, u, v)
  {
    var p :| PathFromTo(E, p, w, v);
    assert ([u] + p)[1..] == p;
    assert PathFromTo(E, [u] + p, u, v);
  }

  lemma ReachArc(E: set<Arc>, u: Id, v: Id)
    requires (u, v) in E
    ensures Reach(E, u, v)
  {
    ReachRefl(E, v);
    ReachStep(E, u, v, v);
  }

  /** One non-trivial step of a reachability proof. */
  lemma ReachFirst(E: set<Arc>, u: Id, v: Id) returns (w: Id)
    requires Reach(E, u, v) && u != v
    ensures (u, w) in E && Reach(E, w, v)
  {
    var p :| PathFromTo(E, p, u, v);
    w := p[1];
    assert PathFromTo(E, p[1..], w, v);
  }

  lemma {:induction false} PathThenReach(E: set<Arc>, p: seq<Id>, v: Id)
    requires IsPath(E, p) && Reach(E, p[|p| - 1], v)
    ensures Reach(E, p[0], v)
    decreases |p|
  {
    if |p| > 1 {
      PathThenReach(E, p[1..], v);
      ReachStep(E, p[0], p[1], v);
    }
  }

  lemma ReachTrans(E: set<Arc>, u: Id, w: Id, v: Id)
    requires Reach(E, u, w) && Reach(E, w, v)
    ensures Reach(E, u, v)
  {
    var p :| PathFromTo(E, p, u, w);
    PathThenReach(E, p, v);
  }

  /** Every node of a path is reached from its first node and reaches its last. */
  lemma {:induction false} PathNode(E: set<Arc>, p: seq<Id>, i: nat)
    requires IsPath(E, p) && i < |p|
    ensures Reach(E, p[0], p[i]) && Reach(E, p[i], p[|p| - 1])
    ensures i + 1 < |p| ==> (p[i], p[i + 1]) in E
    decreases |p|
  {
    if i == 0 {
      ReachRefl(E, p[0]);
      assert PathFromTo(E, p, p[0], p[|p| - 1]);
    } else {
      PathNode(E, p[1..], i - 1);
      ReachStep(E, p[0], p[1], p[i]);
    }
  }

  // ------------------------------------------------- moving between graphs

  lemma {:induction false} PathLast(E: set<Arc>, p: seq<Id>) returns (w: Id)
    requires IsPath(E, p) && |p| > 1
    ensures Reach(E, p[0], w) && (w, p[|p| - 1]) in E
  {
    w := p[|p| - 2];
    PathNode(E, p, |p| - 2);
  }

  /** The last step of a non-trivial walk. */
  lemma ReachLast(E: set<Arc>, u: Id, v: Id) returns (w: Id)
    requires Reach(E, u, v) && u != v
    ensures Reach(E, u, w) && (w, v) in E
  {
    var p :| PathFromTo(E, p, u, v);
    w := PathLast(E, p);
  }

  /** Every arc of E, renamed by c, is a walk of F. */
  ghost predicate Simulates(E: set<Arc>, F: set<Arc>, c: Id -> Id) {
    forall a | a in E :: Reach(F, c(a.0), c(a.1))
  }

  lemma {:induction false} PathSimulated(E: set<Arc>, F: set<Arc>, c: Id -> Id, p: seq<Id>)
    requires Simulates(E, F, c) && IsPath(E, p)
    ensures Reach(F, c(p[0]), c(p[|p| - 1]))
    decreases |p|
  {
    if |p| == 1 {
      ReachRefl(F, c(p[0]));
    } else {
      PathSimulated(E, F, c, p[1..]);
      var a := (p[0], p[1]);
      assert a in E;
      ReachTrans(F, c(p[0]), c(p[1]), c(p[|p| - 1]));
    }
  }

  /** Walks are carried across a simulation. */
  lemma ReachSimulated(E: set<Arc>, F: set<Arc>, c: Id -> Id, u: Id, v: Id)
    requires Simulates(E, F, c) && Reach(E, u, v)
    ensures Reach(F, c(u), c(v))
  {
    var p :| PathFromTo(E, p, u, v);
    PathSimulated(E, F, c, p);
  }

  lemma ReachMonotone(E: set<Arc>, F: set<Arc>, u: Id, v: Id)
    requires E <= F && Reach(E, u, v)
    ensures Reach(F, u, v)
  {
    forall a | a in E ensures Reach(F, a.0, a.1) {
      ReachArc(F, a.0, a.1);
    }
    ReachSimulated(E, F, x => x, u, v);
  }

  ghost predicate Closed(E: set<Arc>, S: set<Id>) {
    forall a | a in E && a.0 in S :: a.1 in S
  }

  lemma {:induction false} PathWithin(E: set<Arc>, F: set<Arc>, S: set<Id>, p: seq<Id>)
    requires IsPath(E, p) && Closed(E, S) && p[0] in S
    requires forall a | a in E && a.0 in S :: a in F
    ensures p[|p| - 1] in S && Reach(F, p[0], p[|p| - 1])
    decreases |p|
  {
    if |p| == 1 {
      ReachRefl(F, p[0]);
    } else {
      var a := (p[0], p[1]);
      assert a in E;
      PathWithin(E, F, S, p[1..]);
      ReachStep(F, p[0], p[1], p[|p| - 1]);
    }
  }

  /** Walks that start in a closed set stay there, and survive in any F that
      keeps the arcs leaving the set. */
  lemma ReachWithin(E: set<Arc>, F: set<Arc>, S: set<Id>, u: Id, v: Id)
    requires Closed(E, S) && u in S && Reach(E, u, v)
    requires forall a | a in E && a.0 in S :: a in F
    ensures v in S && Reach(F, u, v)
  {
    var p :| PathFromTo(E, p, u, v);
    PathWithin(E, F, S, p);
  }

  /** In a well-formed graph a walk never leaves the node set. */
  lemma ReachInNodes(g: DiGraph, u: Id, v: Id)
    requires g.WellFormed() && u in g.nodes && Reach(g.arcs, u, v)
    ensures v in g.nodes
  {
    ReachWithin(g.arcs, g.arcs, g.nodes, u, v);
  }

  // --------------------------------------------------------- simple cycles

  /** c lists the nodes of a cycle once each; its last node leads to its first. */
  ghost predicate SimpleCycle(E: set<Arc>, c: seq<Id>) {
    IsPath(E, c) && Distinct(c) && (c[|c| - 1], c[0]) in E
  }

  ghost predicate Acyclic(g: DiGraph) {
    forall c :: !SimpleCycle(g.arcs, c)
  }

  lemma {:induction false} PathSuffix(E: set<Arc>, p: seq<Id>, i: nat)
    requires IsPath(E, p) && i < |p|
    ensures IsPath(E, p[i..])
  {
    if i > 0 {
      PathSuffix(E, p[1..], i - 1);
      assert p[1..][i - 1..] == p[i..];
    }
  }

  lemma {:induction false} PathAppend(E: set<Arc>, p: seq<Id>, v: Id)
    requires IsPath(E, p) && (p[|p| - 1], v) in E
    ensures IsPath(E, p + [v])
    decreases |p|
  {
    if |p| == 1 {
      assert (p + [v])[1..] == [v];
    } else {
      PathAppend(E, p[1..], v);
      assert (p + [v])[1..] == p[1..] + [v];
    }
  }

  lemma {:induction false} PathPrefix(E: set<Arc>, p: seq<Id>, n: nat)
    requires IsPath(E, p) && 0 < n <= |p|
    ensures IsPath(E, p[..n])
    decreases |p|
  {
    if n > 1 {
      PathPrefix(E, p[1..], n - 1);
      assert p[..n][1..] == p[1..][..n - 1];
    }
  }

  /** Every walk can be shortened to one that repeats no node. */
  lemma {:induction false} SimplePath(E: set<Arc>, p: seq<Id>) returns (q: seq<Id>)
    requires IsPath(E, p)
    ensures PathFromTo(E, q, p[0], p[|p| - 1]) && Distinct(q)
    decreases |p|
  {
    if |p| == 1 {
      q := p;
    } else {
      var r := SimplePath(E, p[1..]);
      if p[0] in r {
        var i :| 0 <= i < |r| && r[i] == p[0];
        PathSuffix(E, r, i);
        q := r[i..];
      } else {
        q := [p[0]] + r;
        assert q[1..] == r;
      }
    }
  }

  /** Two distinct mutually reachable nodes force a simple cycle of length two or more. */
  lemma CycleThroughTwo(E: set<Arc>, u: Id, v: Id) returns (c: seq<Id>)
    requires u != v && Mutual(E, u, v)
    ensures SimpleCycle(E, c) && |c| >= 2
  {
    var p :| PathFromTo(E, p, u, v);
    var q := SimplePath(E, p);
    var w := q[1];
    assert w != u;
    assert PathFromTo(E, q[1..], w, v);
    ReachTrans(E, w, v, u);
    var r :| PathFromTo(E, r, w, u);
    c := SimplePath(E, r);
    assert (u, w) in E;
  }

  /** All nodes of a simple cycle are mutually reachable. */
  lemma CycleMutual(E: set<Arc>, c: seq<Id>, i: nat, j: nat)
    requires SimpleCycle(E, c) && i < |c| && j < |c|
    ensures Mutual(E, c[i], c[j])
  {
    var n := |c| - 1;
    PathNode(E, c, i);
    PathNode(E, c, j);
    ReachArc(E, c[n], c[0]);
    ReachTrans(E, c[i], c[n], c[0]);
    ReachTrans(E, c[i], c[0], c[j]);
    ReachTrans(E, c[j], c[n], c[0]);
    ReachTrans(E, c[j], c[0], c[i]);
  }

  // --------------------------------------------------- breadth-first search

  ghost function ArcsOf(adjacency: map<Id, set<Id>>): set<Arc> {
    set u, v | u in adjacency && v in adjacency[u] :: (u, v)
  }

  function Neighbours(adjacency: map<Id, set<Id>>, u: Id): set<Id> {
    if u in adjacency then adjacency[u] else {}
  }

  function AllNeighbours(adjacency: map<Id, set<Id>>): set<Id> {
    set u, v | u in adjacency && v in adjacency[u] :: v
  }

  /** Forward search from start: the result is exactly the reachable set,
      start included. */
  method BfsComponent(start: Id, adjacency: map<Id, set<Id>>) returns (component: set<Id>)
    ensures forall v :: v in component <==> Reach(ArcsOf(adjacency), start, v)
  {
    ghost var E := ArcsOf(adjacency);
    ghost var universe := {start} + AllNeighbours(adjacency);
    component := {};
    var queue := [start];
    var seen := {start};
    ReachRefl(E, start);
    while queue != []
      invariant Distinct(queue)
      invariant forall v :: v in seen <==> v in component || v in queue
      invariant forall v | v in queue :: v !in component
      invariant start in seen && component <= seen <= universe
      invariant forall v | v in seen :: Reach(E, start, v)
      invariant forall u | u in component :: Neighbours(adjacency, u) <= seen
      decreases universe - component
    {
      var current := queue[0];
      queue := queue[1..];
      component := component + {current};
      var rest := Neighbours(adjacency, current);
      while rest != {}
        invariant Distinct(queue)
        invariant forall v :: v in seen <==> v in component || v in queue
        invariant forall v | v in queue :: v !in component
        invariant start in seen && component <= seen <= universe
        invariant forall v | v in seen :: Reach(E, start, v)
        invariant rest <= Neighbours(adjacency, current)
        invariant Neighbours(adjacency, current) - rest <= seen
        invariant forall u | u in component && u != current :: Neighbours(adjacency, u) <= seen
        decreases rest
      {
        var neighbour :| neighbour in rest;
        rest := rest - {neighbour};
        if neighbour !in seen {
          assert (current, neighbour) in E;
          ReachArc(E, current, neighbour);
          ReachTrans(E, start, current, neighbour);
          seen := seen + {neighbour};
          queue := queue + [neighbour];
        }
      }
    }
    forall v | Reach(E, start, v) ensures v in component {
      ReachWithin(E, E, component, start, v);
    }
  }
}
