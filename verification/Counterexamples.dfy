/** Small graphs, with any ids, on which a pass does not do what its name says. */
module Counterexamples {
  import opened Digraph
  import opened Lists
  import opened Wrappers
  import opened Sgir
  import opened GraphIndexing
  import opened Inlining
  import opened Splitting
  import opened CycleBreaking
  import opened Levels
  import opened Branches

  function Call(source: Id, target: Id): Edge {
    Edge(source, target, CALL)
  }

  lemma ArcsOfThree(l: Layer, e: Edge, f: Edge, h: Edge)
    requires l.edges == [e, f, h]
    ensures LayerArcs(l) == {(e.source, e.target), (f.source, f.target), (h.source, h.target)}
  {
    assert l.edges[0] in l.edges && l.edges[1] in l.edges && l.edges[2] in l.edges;
  }

  lemma IdsOf(l: Layer, i: nat)
    requires i < |l.nodes|
    ensures l.nodes[i] in l.nodes && l.nodes[i].id in NodeIds(l)
  {
    assert l.nodes[i] in l.nodes;
  }

  // ------------------------------------------------------- a chain inlined

  /** s -> c -> d -> t, where s has a side effect and the others are simple. */
  function Chained(s: Id, c: Id, d: Id, t: Id): Layer {
    Layer(CallLayer, [Node(s, FUNCTION, CONSTANT, ["io"], []), Plain(c), Plain(d), Plain(t)], [Call(s, c), Call(c, d), Call(d, t)])
  }

  lemma ChainedDegrees(E: set<Arc>, s: Id, c: Id, d: Id, t: Id)
    requires Distinct([s, c, d, t]) && E == {(s, c), (c, d), (d, t)}
    ensures (set a | a in E && a.0 == c :: a.1) == {d} && (set a | a in E && a.0 == d :: a.1) == {t}
    ensures (set a | a in E && a.0 == t :: a.1) == {}
  {
    var ids := [s, c, d, t];
    assert ids[0] != ids[1] && ids[0] != ids[2] && ids[0] != ids[3] && ids[1] != ids[2] && ids[1] != ids[3] && ids[2] != ids[3];
  }

  lemma ChainedCandidates(graphs: map<GraphLayer, DiGraph>, s: Id, c: Id, d: Id, t: Id)
    requires Distinct([s, c, d, t]) && CallLayer in graphs && graphs[CallLayer] == LayerGraph(Chained(s, c, d, t))
    ensures var gone := Candidates(Chained(s, c, d, t), graphs, DEFAULT_INLINE_THRESHOLD);
            c in gone && d in gone && s !in gone
  {
    var l := Chained(s, c, d, t);
    var ids := [s, c, d, t];
    assert ids[0] != ids[1] && ids[0] != ids[2] && ids[0] != ids[3];
    ArcsOfThree(l, Call(s, c), Call(c, d), Call(d, t));
    ChainedDegrees(LayerArcs(l), s, c, d, t);
    IdsOf(l, 1);
    IdsOf(l, 2);
    assert OutDegree(LayerGraph(l), c) == 1 && OutDegree(LayerGraph(l), d) == 1;
    assert IsSimpleNode(l.nodes[1], DEFAULT_INLINE_THRESHOLD) && IsSimpleNode(l.nodes[2], DEFAULT_INLINE_THRESHOLD);
  }

  lemma FirstTargetIs(l: Layer, c: Id, k: nat)
    requires k < |l.edges| && l.edges[k].source == c && forall j | 0 <= j < |l.edges| && j != k :: l.edges[j].source != c
    ensures FirstTarget(l, c) == Some(l.edges[k].target)
  {
    var out := Filter(Leaves(c), l.edges);
    assert l.edges[k] in out;
    assert out[0] in out;
    var j :| 0 <= j < |l.edges| && l.edges[j] == out[0];
  }

  lemma ChainWalk(E: set<Arc>, s: Id, c: Id, d: Id, t: Id)
    requires (s, c) in E && (c, d) in E && (d, t) in E
    ensures Reach(E, s, t)
  {
    ReachArc(E, d, t);
    ReachStep(E, c, d, t);
    ReachStep(E, s, c, t);
  }

  lemma OneArcOnly(F: set<Arc>, s: Id, d: Id, t: Id)
    requires (forall a | a in F :: a == (s, d)) && s != t && d != t && s != d
    ensures !Reach(F, s, t)
  {
    if Reach(F, s, t) {
      var w := ReachFirst(F, s, t);
      var x := ReachFirst(F, w, t);
    }
  }

  /** The one arc of the chain from a survivor into the inlined nodes. */
  lemma OnlyEntry(E: set<Arc>, gone: set<Id>, s: Id, c: Id, d: Id, t: Id, u: Id, x: Id)
    requires E == {(s, c), (c, d), (d, t)} && c in gone && d in gone
    requires (u, x) in E && u !in gone
    ensures u == s && x == c
  {
  }

  lemma ChainCutArc(l: Layer, gone: set<Id>, s: Id, c: Id, d: Id, t: Id, order: set<Id> -> seq<Id>, a: Arc)
    requires IsListing(order) && LayerArcs(l) == {(s, c), (c, d), (d, t)}
    requires c in gone && d in gone && FirstTarget(l, c) == Some(d)
    requires a in LayerArcs(InlineLayer(l, gone, order))
    ensures a == (s, d)
  {
    var E := LayerArcs(l);
    InlineLayerArcs(l, gone, order, a);
    if a in E && a.0 !in gone && a.1 !in gone {
      OnlyEntry(E, gone, s, c, d, t, a.0, a.1);
    } else {
      var x :| Bypasses(l, gone, x, a);
      OnlyEntry(E, gone, s, c, d, t, a.0, x);
    }
  }

  /** With c and d gone, nothing leads out of d, and only d is entered from s. */
  lemma ChainCut(l: Layer, gone: set<Id>, s: Id, c: Id, d: Id, t: Id, order: set<Id> -> seq<Id>)
    requires Distinct([s, c, d, t]) && IsListing(order) && LayerArcs(l) == {(s, c), (c, d), (d, t)}
    requires c in gone && d in gone && s !in gone && FirstTarget(l, c) == Some(d)
    ensures Reach(LayerArcs(l), s, t) && !Reach(LayerArcs(InlineLayer(l, gone, order)), s, t)
  {
    var ids := [s, c, d, t];
    assert ids[0] != ids[2] && ids[0] != ids[3] && ids[2] != ids[3];
    ChainWalk(LayerArcs(l), s, c, d, t);
    forall a | a in LayerArcs(InlineLayer(l, gone, order)) ensures a == (s, d) {
      ChainCutArc(l, gone, s, c, d, t, order, a);
    }
    OneArcOnly(LayerArcs(InlineLayer(l, gone, order)), s, d, t);
  }

  lemma ChainedFirst(l: Layer, s: Id, c: Id, d: Id, t: Id)
    requires Distinct([s, c, d, t]) && l == Chained(s, c, d, t)
    ensures FirstTarget(l, c) == Some(d)
  {
    var ids := [s, c, d, t];
    assert ids[0] != ids[1] && ids[1] != ids[2];
    FirstTargetIs(l, c, 1);
  }

  lemma ChainedDeclares(s: Id, c: Id, d: Id, t: Id)
    ensures var l := Chained(s, c, d, t); NoDangling(l) && LayerArcs(l) == {(s, c), (c, d), (d, t)} && s in NodeIds(l)
  {
    var l := Chained(s, c, d, t);
    IdsOf(l, 0);
    IdsOf(l, 1);
    IdsOf(l, 2);
    IdsOf(l, 3);
    ArcsOfThree(l, Call(s, c), Call(c, d), Call(d, t));
  }

  /** Inlining s -> c -> d -> t removes both c and d, leaves an edge from s to the deleted d,
      and cuts t off from s. */
  lemma ChainDangles(s: Id, c: Id, d: Id, t: Id, order: set<Id> -> seq<Id>)
    requires Distinct([s, c, d, t]) && IsListing(order)
    ensures var l := Chained(s, c, d, t);
            var m := InlineOne(l, LayerGraphs([l]), order);
            && NoDangling(l) && !NoDangling(m)
            && Reach(LayerArcs(l), s, t) && !Reach(LayerArcs(m), s, t)
  {
    var l := Chained(s, c, d, t);
    var gone := Candidates(l, LayerGraphs([l]), DEFAULT_INLINE_THRESHOLD);
    LayerGraphsAt(Software([l]), 1, 0);
    assert [l][..1] == [l];
    ChainedCandidates(LayerGraphs([l]), s, c, d, t);
    ChainedDeclares(s, c, d, t);
    DanglingExactly(l, gone, order);
    ChainedFirst(l, s, c, d, t);
    assert !NoLiveChain(l, gone);
    ChainCut(l, gone, s, c, d, t, order);
  }

  /** s -> c -> d -> c, where s has a side effect and the others are simple. */
  function Looped(s: Id, c: Id, d: Id): Layer {
    Layer(CallLayer, [Node(s, FUNCTION, CONSTANT, ["io"], []), Plain(c), Plain(d)], [Call(s, c), Call(c, d), Call(d, c)])
  }

  /** Of a graph of one layer the index gives the fan-out. */
  lemma OneLayerFanOut(l: Layer)
    ensures ExactFanOut(l, LayerGraphs([l]))
  {
    LayerGraphsAt(Software([l]), 1, 0);
    assert [l][..1] == [l];
  }

  lemma LoopedDegrees(E: set<Arc>, s: Id, c: Id, d: Id)
    requires s != c && c != d && d != s && E == {(s, c), (c, d), (d, c)}
    ensures (set a | a in E && a.0 == c :: a.1) == {d} && (set a | a in E && a.0 == d :: a.1) == {c}
  {
  }

  lemma LoopedCandidates(graphs: map<GraphLayer, DiGraph>, s: Id, c: Id, d: Id)
    requires s != c && c != d && d != s && CallLayer in graphs && graphs[CallLayer] == LayerGraph(Looped(s, c, d))
    ensures Candidates(Looped(s, c, d), graphs, DEFAULT_INLINE_THRESHOLD) == {c, d}
  {
    var l := Looped(s, c, d);
    ArcsOfThree(l, Call(s, c), Call(c, d), Call(d, c));
    LoopedDegrees(LayerArcs(l), s, c, d);
    IdsOf(l, 1);
    IdsOf(l, 2);
    assert OutDegree(LayerGraph(l), c) == 1 && OutDegree(LayerGraph(l), d) == 1;
    assert IsSimpleNode(l.nodes[1], DEFAULT_INLINE_THRESHOLD) && IsSimpleNode(l.nodes[2], DEFAULT_INLINE_THRESHOLD);
  }

  /** A loop of candidates leads nowhere else. */
  lemma LoopHasNoExit(E: set<Arc>, s: Id, c: Id, d: Id)
    requires E == {(s, c), (c, d), (d, c)}
    ensures Detours(E, {c, d})
  {
    forall x, t ensures x in {c, d} ==> !Exits(E, {c, d}, x, t) {
      if x in {c, d} && Reach(E, x, t) {
        ReachWithin(E, E, {c, d}, x, t);
      }
    }
  }

  lemma LoopIsLive(l: Layer, s: Id, c: Id, d: Id)
    requires s != c && c != d && d != s && l == Looped(s, c, d)
    ensures !NoLiveChain(l, {c, d})
  {
    ArcsOfThree(l, Call(s, c), Call(c, d), Call(d, c));
    FirstTargetIs(l, c, 1);
    assert (s, c) in LayerArcs(l);
  }

  /** So inlining both nodes of the loop leaves an edge to a deleted node but cuts nothing off:
      a live chain alone does not cost reachability. */
  lemma LoopDanglesOnly(s: Id, c: Id, d: Id, order: set<Id> -> seq<Id>)
    requires s != c && c != d && d != s && IsListing(order)
    ensures var l := Looped(s, c, d); var m := InlineOne(l, LayerGraphs([l]), order);
            && !Avoids(m, {c, d}) && SameReachability(l, m, {c, d})
  {
    var l := Looped(s, c, d);
    LayerGraphsAt(Software([l]), 1, 0);
    assert [l][..1] == [l];
    LoopedCandidates(LayerGraphs([l]), s, c, d);
    ArcsOfThree(l, Call(s, c), Call(c, d), Call(d, c));
    LoopHasNoExit(LayerArcs(l), s, c, d);
    LoopIsLive(l, s, c, d);
    OneLayerFanOut(l);
    InliningPreservesMeaningExactly(l, LayerGraphs([l]), DEFAULT_INLINE_THRESHOLD, order);
  }

  // -------------------------------------------------------- a node split

  /** b -> h -> a, where h is cubic. */
  function Heavy(b: Id, h: Id, a: Id): Layer {
    Layer(CallLayer, [Plain(b), Node(h, FUNCTION, CUBIC, [], []), Plain(a)], [Call(b, h), Call(h, a)])
  }

  lemma ArcsOfTwo(l: Layer, e: Edge, f: Edge)
    requires l.edges == [e, f]
    ensures LayerArcs(l) == {(e.source, e.target), (f.source, f.target)}
  {
    assert l.edges[0] in l.edges && l.edges[1] in l.edges;
  }

  lemma HeavySplits(b: Id, h: Id, a: Id)
    ensures SplitIds(Heavy(b, h, a).nodes) == {h}
  {
    var nodes := Heavy(b, h, a).nodes;
    assert nodes[1] in nodes;
    assert forall n | n in nodes && NeedsSplit(n) :: n == nodes[1];
  }

  lemma HeavyFacts(b: Id, h: Id, a: Id)
    requires b != h && h != a && a != b
    ensures var l := Heavy(b, h, a);
            WellFormedLayer(l) && LayerArcs(l) == {(b, h), (h, a)} && SplitIds(l.nodes) == {h} && LayerGraph(l).nodes == {b, h, a}
  {
    var l := Heavy(b, h, a);
    IdsOf(l, 0);
    IdsOf(l, 1);
    IdsOf(l, 2);
    ArcsOfTwo(l, Call(b, h), Call(h, a));
    HeavySplits(b, h, a);
  }

  /** Splitting h cuts the only walk from b to a, in a well-formed layer with fresh parts. */
  lemma SplitSevers(b: Id, h: Id, a: Id)
    requires b != h && h != a && a != b && PartsFresh({h}, {b, h, a})
    ensures var l := Heavy(b, h, a);
            WellFormedLayer(l) && Reach(LayerArcs(l), b, a) && !Reach(LayerArcs(SplitLayer(l)), b, a)
  {
    HeavyFacts(b, h, a);
    var l := Heavy(b, h, a);
    var E := LayerArcs(l);
    ReachArc(E, h, a);
    ReachStep(E, b, h, a);
    SplitReachability(l, b, a);
    assert Avoiding(E, {h}) == {};
    if Reach({}, b, a) {
      var w := ReachFirst({}, b, a);
      assert false;
    }
  }

  // --------------------------------------------------- an undeclared cycle

  /** Two nodes that call each other and that no node of the layer declares. */
  function Undeclared(u: Id, v: Id): Layer {
    Layer(CallLayer, [], [Call(u, v), Call(v, u)])
  }

  /** Cycle breaking leaves their cycle alone. */
  lemma UndeclaredCycleStays(u: Id, v: Id, nx: NetworkX)
    requires u != v && CycleBreaking.Valid(nx)
    ensures Mutual(LayerArcs(CleanLayer(Undeclared(u, v), nx)), u, v)
  {
    var l, c := Undeclared(u, v), [u, v];
    assert SimpleCycle(LayerArcs(l), c);
    UndeclaredCycleSurvives(l, nx, c);
    CycleMutual(LayerArcs(CleanLayer(l, nx)), c, 0, 1);
  }

  // ------------------------------------------------------ a cycle broken

  /** Two nodes of these complexities that call each other. */
  function Uneven(a: Id, ca: Complexity, b: Id, cb: Complexity): Layer {
    Layer(CallLayer, [Node(a, FUNCTION, ca, [], []), Node(b, FUNCTION, cb, [], [])], [Call(a, b), Call(b, a)])
  }

  lemma TwoCycle(E: set<Arc>, a: Id, b: Id, c: seq<Id>)
    requires a != b && E == {(a, b), (b, a)} && SimpleCycle(E, c)
    ensures |c| == 2 && (c == [a, b] || c == [b, a])
  {
    forall i | 0 <= i < |c| ensures c[i] in {a, b} {
      CycleArcInGraph(E, c, i);
    }
    DistinctSize(c, Elements(c));
    SubsetSize(Elements(c), {a, b});
  }

  lemma UnevenFacts(a: Id, ca: Complexity, b: Id, cb: Complexity)
    requires a != b
    ensures var l := Uneven(a, ca, b, cb);
            && WellFormedLayer(l) && LayerArcs(l) == {(a, b), (b, a)}
            && Stands(l.nodes, a, l.nodes[0]) && Stands(l.nodes, b, l.nodes[1])
  {
    var l := Uneven(a, ca, b, cb);
    IdsOf(l, 0);
    IdsOf(l, 1);
    ArcsOfTwo(l, Call(a, b), Call(b, a));
  }

  /** On either listing of the cycle the dearer node comes out. */
  lemma DearerIsDearest(l: Layer, a: Id, b: Id, c: seq<Id>, k: nat)
    requires UniqueIds(l) && |l.nodes| == 2 && l.nodes[0].id == a && l.nodes[1].id == b && a != b
    requires l.nodes[0].complexity.Rank() > l.nodes[1].complexity.Rank()
    requires (c == [a, b] || c == [b, a]) && DearestAt(l.nodes, c, k)
    ensures c[k] == a
  {
    var n :| Stands(l.nodes, c[k], n) && Dearest(l.nodes, c, k, n);
    var j := if c == [a, b] then 0 else 1;
    StandsUnique(l, c[k], n);
    StandsUnique(l, c[j], l.nodes[0]);
    assert l.nodes[0] in l.nodes;
    assert Stands(l.nodes, c[j], l.nodes[0]);
  }

  lemma ListedCycle(l: Layer, a: Id, b: Id, nx: NetworkX, s: set<Id>, c: seq<Id>)
    requires CycleBreaking.Valid(nx) && a != b && LayerArcs(l) == {(a, b), (b, a)}
    requires c in nx.simpleCycles(Subgraph(LayerGraph(l), s))
    ensures |c| == 2 && (c == [a, b] || c == [b, a])
  {
    var g := LayerGraph(l);
    LayerGraphWellFormed(l);
    assert IsCycleList(Subgraph(g, s), nx.simpleCycles(Subgraph(g, s)));
    CycleMonotone(Subgraph(g, s).arcs, g.arcs, c);
    TwoCycle(g.arcs, a, b, c);
  }

  lemma NextOnPair(a: Id, b: Id, c: seq<Id>, k: nat)
    requires a != b && (c == [a, b] || c == [b, a]) && k < 2 && c[k] == a
    ensures |c| == 2 && c[(k + 1) % |c|] == b
  {
  }

  /** Only the arc that leaves the dearer node can be cut. */
  lemma CutAtDearer(a: Id, ca: Complexity, b: Id, cb: Complexity, nx: NetworkX, arc: Arc)
    requires a != b && ca.Rank() > cb.Rank() && CycleBreaking.Valid(nx) && Cut(Uneven(a, ca, b, cb), nx, arc)
    ensures arc == (a, b)
  {
    var l := Uneven(a, ca, b, cb);
    UnevenFacts(a, ca, b, cb);
    var s, c, k: nat :|
      && s in nx.components(LayerGraph(l)) && |s| >= 2 && c in nx.simpleCycles(Subgraph(LayerGraph(l), s))
      && DearestAt(l.nodes, c, k) && arc == (c[k], c[(k + 1) % |c|]);
    ListedCycle(l, a, b, nx, s, c);
    DearerIsDearest(l, a, b, c, k);
    NextOnPair(a, b, c, k);
  }

  lemma FilterPair(f: Edge -> bool, x: Edge, y: Edge)
    requires !f(x) && f(y)
    ensures Filter(f, [x, y]) == [y]
  {
    assert [x, y][1..] == [y] && [y][1..] == [];
    assert Filter(f, [y]) == [y] + Filter(f, []);
    assert Filter(f, [x, y]) == [] + Filter(f, [y]);
  }

  lemma PairMutual(E: set<Arc>, u: Id, v: Id)
    requires (u, v) in E && (v, u) in E
    ensures forall x, y | x in {u, v} && y in {u, v} :: Mutual(E, x, y)
  {
    ReachRefl(E, u);
    ReachRefl(E, v);
    ReachArc(E, u, v);
    ReachArc(E, v, u);
  }

  /** Of two nodes that call each other the dearer loses its edge and the cheaper keeps it. */
  lemma DearerLosesEdge(a: Id, ca: Complexity, b: Id, cb: Complexity, nx: NetworkX)
    requires a != b && ca.Rank() > cb.Rank() && CycleBreaking.Valid(nx)
    ensures CleanLayer(Uneven(a, ca, b, cb), nx).edges == [Call(b, a)]
  {
    var l := Uneven(a, ca, b, cb);
    var m := CleanLayer(l, nx);
    UnevenFacts(a, ca, b, cb);
    CleanLayerExactly(l, nx);
    CyclesBrokenWhenDeclared(l, nx);
    assert !Cut(l, nx, (b, a)) by {
      if Cut(l, nx, (b, a)) {
        CutAtDearer(a, ca, b, cb, nx, (b, a));
      }
    }
    var mutual := Mutual(LayerArcs(m), a, b);
    assert Cut(l, nx, (a, b)) by {
      if !Cut(l, nx, (a, b)) {
        FilterAll(Uncut(l, nx), l.edges);
        PairMutual(LayerArcs(l), a, b);
      }
    }
    FilterPair(Uncut(l, nx), Call(a, b), Call(b, a));
  }

  /** A linear node and a constant one. */
  lemma LinearLosesEdge(a: Id, b: Id, nx: NetworkX)
    requires a != b && CycleBreaking.Valid(nx)
    ensures CleanLayer(Uneven(a, LINEAR, b, CONSTANT), nx).edges == [Call(b, a)]
  {
    RankOrder();
    DearerLosesEdge(a, LINEAR, b, CONSTANT, nx);
  }

  // ---------------------------------------- a branch that is not independent

  /** Two declared nodes that call each other. */
  function Pair(u: Id, v: Id): Layer {
    Layer(CallLayer, [Plain(u), Plain(v)], [Call(u, v), Call(v, u)])
  }

  lemma PairFacts(u: Id, v: Id)
    requires u != v
    ensures WellFormedLayer(Pair(u, v)) && LayerArcs(Pair(u, v)) == {(u, v), (v, u)} && LayerGraph(Pair(u, v)).nodes == {u, v}
  {
    var l := Pair(u, v);
    IdsOf(l, 0);
    IdsOf(l, 1);
    ArcsOfTwo(l, Call(u, v), Call(v, u));
  }

  lemma PairComponent(g: DiGraph, u: Id, v: Id)
    requires u != v && g.nodes == {u, v} && forall x, y | x in {u, v} && y in {u, v} :: Mutual(g.arcs, x, y)
    ensures IsBranch(g, {u, v})
  {
    assert IsComponent(g, {u, v});
  }

  /** The pass reports them as a branch, and each reaches the other. */
  lemma DependentBranch(u: Id, v: Id)
    requires u != v
    ensures var l := Pair(u, v);
            && WellFormedLayer(l) && SomeBranch(LayerGraphs([l]), [l], {u, v})
            && !Antichain(LayerArcs(l), {u, v})
  {
    var l := Pair(u, v);
    PairFacts(u, v);
    PairMutual(LayerArcs(l), u, v);
    assert Mutual(LayerArcs(l), u, v);
    var g := Software([l]);
    assert g.layers[..1] == g.layers;
    LayerGraphsAt(g, 1, 0);
    PairComponent(LayerGraph(l), u, v);
    assert IsBranch(BranchGraph(LayerGraphs([l]), [l][0]), {u, v});
  }
}
