/** On a graph of one layer the last three passes come to nothing. */
module SingleLayerRuns {
  import opened Digraph
  import opened Lists
  import opened Sgir
  import opened GraphIndexing
  import opened DeadNodes
  import opened Splitting
  import opened CycleBreaking
  import opened Verification
  import opened Gate
  import opened Pipeline

  // ------------------------------------------------------ never split

  lemma {:induction false} ShortestOf(ids: set<Id>) returns (x: Id)
    requires ids != {}
    ensures x in ids && forall y | y in ids :: |x| <= |y|
    decreases ids
  {
    x :| x in ids;
    if ids - {x} == {} {
      assert ids == {x};
    } else {
      var y := ShortestOf(ids - {x});
      if |y| < |x| {
        x := y;
      }
    }
  }

  lemma SameIdSameNode(l: Layer, m: Node, n: Node)
    requires UniqueIds(l) && m in l.nodes && n in l.nodes
    ensures m.id == n.id ==> m == n
  {
    var i :| 0 <= i < |l.nodes| && l.nodes[i] == m;
    var j :| 0 <= j < |l.nodes| && l.nodes[j] == n;
  }

  /** The shortest split id is no part of another, so with unique ids it loses its node. */
  lemma ShortestUndeclared(l: Layer) returns (x: Id)
    requires UniqueIds(l) && SplitIds(l.nodes) != {}
    ensures x in NodeIds(l) && x !in NodeIds(SplitLayer(l))
  {
    x := ShortestOf(SplitIds(l.nodes));
    var n :| n in l.nodes && NeedsSplit(n) && n.id == x;
    forall m | m in SplitNodes(l.nodes) ensures m.id != x {
      InSplitNodes(l.nodes, m);
      if m in l.nodes && !NeedsSplit(m) {
        SameIdSameNode(l, m, n);
      } else {
        var k :| k in l.nodes && NeedsSplit(k) && m in SplitNode(k);
        assert k.id in SplitIds(l.nodes);
      }
    }
  }

  lemma OneLayerIds(g: Software)
    requires |g.layers| == 1
    ensures Declared(g) == NodeIds(g.layers[0]) && Arcs(g) == LayerArcs(g.layers[0])
    ensures Merged(g).nodes == LayerGraph(g.layers[0]).nodes
  {
    forall v | v in NodeIds(g.layers[0]) ensures v in Declared(g) {
      var n :| n in g.layers[0].nodes && n.id == v;
    }
    forall v | v in Declared(g) ensures v in NodeIds(g.layers[0]) {
      var i := LayerOfId(g, v);
    }
    forall a | a in LayerArcs(g.layers[0]) ensures a in Arcs(g) {
      ArcFromLayer(g, 0, a);
    }
    forall a | a in Arcs(g) ensures a in LayerArcs(g.layers[0]) {
      var i, e := LayerOfArc(g, a);
    }
  }

  lemma NothingToSplit(h: Software)
    requires |h.layers| == 1 && SplitIds(h.layers[0].nodes) == {}
    ensures ReduceComplexity(h) == h
  {
    assert ReduceComplexity(h).layers == h.layers;
  }

  /** A split that removes a node from sight is rejected. */
  lemma SplitRejected(h: Software, eps: seq<Id>, order: set<Id> -> seq<Id>)
    requires |h.layers| == 1 && UniqueIds(h.layers[0]) && Declared(h) <= Live(Merged(h), eps)
    ensures SplitUp(h, eps, order) == h
  {
    if SplitIds(h.layers[0].nodes) == {} {
      NothingToSplit(h);
    } else if Accepts(h, ReduceComplexity(h), eps, order) {
      var x := ShortestUndeclared(h.layers[0]);
      OneLayerIds(h);
      OneLayerIds(ReduceComplexity(h));
      AcceptedKeepsLiveIds(h, ReduceComplexity(h), eps, order);
    }
  }

  lemma PruneKeepsUnique(l: Layer, dead: set<Id>)
    requires UniqueIds(l)
    ensures UniqueIds(PruneLayer(l, dead))
  {
    if dead * NodeIds(l) != {} {
      FilterUnique(NodeOutside(dead * NodeIds(l)), l);
    }
  }

  /** With unique ids, a run on one layer neither inlines nor splits anything. */
  lemma SingleLayerNeverSplit(g: Software, eps: seq<Id>, order: set<Id> -> seq<Id>)
    requires IsListing(order) && |g.layers| == 1 && UniqueIds(g.layers[0])
    ensures AfterSplitting(g, eps, order) == RemoveDead(g, g, eps)
  {
    SingleLayerNeverInlined(g, eps, order);
    PruningKept(g, eps, order);
    PruneKeepsUnique(g.layers[0], Dead(g, eps));
    NothingDeadLeft(g, eps);
    SplitRejected(RemoveDead(g, g, eps), eps, order);
  }

  // ---------------------------------------------------- never cleaned

  lemma DeclaredNodes(l: Layer)
    requires NoDangling(l)
    ensures LayerGraph(l).nodes == NodeIds(l)
  {
  }

  lemma LiveRoot(h: Software, eps: seq<Id>, u: Id) returns (ep: Id)
    requires |h.layers| == 1 && NoDangling(h.layers[0]) && u in Live(Merged(h), eps)
    ensures ep in eps && ep in Declared(h) && Reach(Arcs(h), ep, u)
  {
    OneLayerIds(h);
    DeclaredNodes(h.layers[0]);
    ep :| ep in eps && ep in Merged(h).nodes && Reach(Arcs(h), ep, u);
  }

  lemma MutualDeclared(l: Layer, u: Id, w: Id)
    requires NoDangling(l) && u != w && Mutual(LayerArcs(l), u, w)
    ensures u in NodeIds(l) && w in NodeIds(l)
  {
    var x := ReachFirst(LayerArcs(l), u, w);
    var y := ReachFirst(LayerArcs(l), w, u);
    var e :| e in l.edges && (u, x) == (e.source, e.target);
    var f :| f in l.edges && (w, y) == (f.source, f.target);
  }

  /** What lies below an entry point keeps its cycles. */
  lemma KeptMutual(h: Software, k: Software, ep: Id, u: Id, w: Id)
    requires ep in Declared(h) && u in Declared(h) && w in Declared(h) && KeepsBelow(h, k, ep)
    requires Reach(Arcs(h), ep, u) && u != w && Mutual(Arcs(h), u, w)
    ensures Mutual(Arcs(k), u, w)
  {
    MergedWellFormed(h);
    ReachTrans(Arcs(h), ep, u, w);
    assert u in DeclaredDescendants(h, w) && w in DeclaredDescendants(h, u);
    assert u != ep ==> u in DeclaredDescendants(h, ep);
    assert w != ep ==> w in DeclaredDescendants(h, ep);
    assert u in DeclaredDescendants(k, w) && w in DeclaredDescendants(k, u);
  }

  /** An accepted cleaning found no two nodes on a cycle: the gate would have missed them. */
  lemma NoLargeComponent(h: Software, eps: seq<Id>, order: set<Id> -> seq<Id>, nx: NetworkX, u: Id, w: Id)
    requires IsListing(order) && CycleBreaking.Valid(nx)
    requires |h.layers| == 1 && NoDangling(h.layers[0]) && Declared(h) <= Live(Merged(h), eps)
    requires forall ep | ep in eps && ep in Declared(h) :: WithinTraceBound(h, ep)
    requires Accepts(h, CleanCycles(h, nx), eps, order) && u != w
    ensures !Mutual(LayerArcs(h.layers[0]), u, w)
  {
    var l, k := h.layers[0], CleanCycles(h, nx);
    OneLayerIds(h);
    OneLayerIds(k);
    CyclesBrokenWhenDeclared(l, nx);
    if Mutual(LayerArcs(l), u, w) {
      MutualDeclared(l, u, w);
      var ep := LiveRoot(h, eps, u);
      GateSound(h, k, eps, order, ep);
      KeptMutual(h, k, ep, u, w);
    }
  }

  lemma NotRemoved(l: Layer, nx: NetworkX, e: Edge)
    requires CycleBreaking.Valid(nx) && e in l.edges && forall u, w | u != w :: !Mutual(LayerArcs(l), u, w)
    ensures (e.source, e.target) !in RemovedArcs(l, nx)
  {
    var a := (e.source, e.target);
    if a in RemovedArcs(l, nx) {
      RemovedOnCycle(l, nx, a);
    }
  }

  lemma CleanOneLayer(h: Software, nx: NetworkX)
    requires |h.layers| == 1 && CleanLayer(h.layers[0], nx) == h.layers[0]
    ensures CleanCycles(h, nx) == h
  {
    assert CleanCycles(h, nx).layers == h.layers;
  }

  lemma NothingCleaned(h: Software, nx: NetworkX)
    requires CycleBreaking.Valid(nx) && |h.layers| == 1
    requires forall u, w | u != w :: !Mutual(LayerArcs(h.layers[0]), u, w)
    ensures CleanCycles(h, nx) == h
  {
    var l := h.layers[0];
    forall e | e in l.edges ensures KeptEdge(RemovedArcs(l, nx))(e) {
      NotRemoved(l, nx, e);
    }
    FilterAll(KeptEdge(RemovedArcs(l, nx)), l.edges);
    CleanOneLayer(h, nx);
  }

  lemma CleaningRejected(h: Software, eps: seq<Id>, order: set<Id> -> seq<Id>, nx: NetworkX)
    requires IsListing(order) && CycleBreaking.Valid(nx)
    requires |h.layers| == 1 && NoDangling(h.layers[0]) && Declared(h) <= Live(Merged(h), eps)
    requires forall ep | ep in eps && ep in Declared(h) :: WithinTraceBound(h, ep)
    ensures Cleaned(h, eps, order, nx) == h
  {
    if Accepts(h, CleanCycles(h, nx), eps, order) {
      forall u, w | u != w ensures !Mutual(LayerArcs(h.layers[0]), u, w) {
        NoLargeComponent(h, eps, order, nx, u, w);
      }
      NothingCleaned(h, nx);
    }
  }

  /** On a well-formed layer whose entry points are within the trace bound, all four passes
      together do what the first does. */
  lemma SingleLayerRun(g: Software, eps: seq<Id>, order: set<Id> -> seq<Id>, nx: NetworkX)
    requires IsListing(order) && CycleBreaking.Valid(nx) && |g.layers| == 1 && WellFormedLayer(g.layers[0])
    requires forall ep | ep in eps && ep in Declared(g) :: WithinTraceBound(g, ep)
    ensures Optimized(g, eps, order, nx) == RemoveDead(g, g, eps)
  {
    var h := RemoveDead(g, g, eps);
    SingleLayerNeverSplit(g, eps, order);
    PruningKept(g, eps, order);
    PruneKeepsWellFormed(g.layers[0], Dead(g, eps));
    NothingDeadLeft(g, eps);
    PruneDeclared(g, Dead(g, eps));
    forall ep | ep in eps && ep in Declared(h) ensures WithinTraceBound(h, ep) {
      FirstStagesShrink(g, eps, order, ep);
      SubsetSize(DeclaredDescendants(h, ep), DeclaredDescendants(g, ep));
    }
    CleaningRejected(h, eps, order, nx);
  }
}
