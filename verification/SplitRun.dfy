/** A run that splits a node: the gate lets the original id go from one layer because another
    still declares it. */
module SplitRun {
  import opened Digraph
  import opened Lists
  import opened Sgir
  import opened DeadNodes
  import opened Inlining
  import opened Splitting
  import opened CycleBreaking
  import opened Verification
  import opened Gate
  import opened Pipeline
  import opened KeptChain
  import opened SingleLayerRuns
  import opened UnseenCycle

  /** Only e, which is cubic. */
  function Calls(e: Id): Layer {
    Layer(CallLayer, [Node(e, FUNCTION, CUBIC, [], [])], [])
  }

  /** e and the concern it touches, of unknown complexity. */
  function Concerns(e: Id, a: Id): Layer {
    Layer(SecurityLayer, [Node(e, FUNCTION, UNKNOWN_COMPLEXITY, [], []), Node(a, MIDDLEWARE, UNKNOWN_COMPLEXITY, [], [])],
          [Edge(e, a, EVENT)])
  }

  function Original(e: Id, a: Id): Software {
    Software([Calls(e), Concerns(e, a)])
  }

  /** The two parts of e, each linear, and the edge between them. */
  function SplitCalls(e: Id): Layer {
    Layer(CallLayer, [Node(e + "__part0", FUNCTION, LINEAR, [], []), Node(e + "__part1", FUNCTION, LINEAR, [], [])],
          [Edge(e + "__part0", e + "__part1", CONTROL)])
  }

  function Result(e: Id, a: Id): Software {
    Software([SplitCalls(e), Concerns(e, a)])
  }

  lemma ConcernFacts(e: Id, a: Id)
    ensures var l := Concerns(e, a); NodeIds(l) == {e, a} && LayerArcs(l) == {(e, a)} && LayerGraph(l).nodes == {e, a}
  {
    var l := Concerns(e, a);
    assert l.nodes[0] in l.nodes && l.nodes[1] in l.nodes && l.edges[0] in l.edges;
  }

  lemma CallFacts(e: Id)
    ensures var l := Calls(e); NodeIds(l) == {e} && LayerArcs(l) == {} && LayerGraph(l).nodes == {e}
  {
    assert Calls(e).nodes[0] in Calls(e).nodes;
  }

  lemma SplitCallFacts(e: Id)
    ensures var l, p, q := SplitCalls(e), e + "__part0", e + "__part1";
            NodeIds(l) == {p, q} && LayerArcs(l) == {(p, q)} && LayerGraph(l).nodes == {p, q}
  {
    var l := SplitCalls(e);
    assert l.nodes[0] in l.nodes && l.nodes[1] in l.nodes && l.edges[0] in l.edges;
  }

  lemma OriginalGraph(e: Id, a: Id)
    ensures var g := Original(e, a); Declared(g) == {e, a} && Arcs(g) == {(e, a)} && Merged(g).nodes == {e, a}
  {
    OfTwoLayers(Calls(e), Concerns(e, a));
    CallFacts(e);
    ConcernFacts(e, a);
  }

  lemma ResultGraph(e: Id, a: Id)
    ensures var k, p, q := Result(e, a), e + "__part0", e + "__part1";
            Declared(k) == {p, q, e, a} && Arcs(k) == {(p, q), (e, a)} && Merged(k).nodes == {p, q, e, a}
  {
    OfTwoLayers(SplitCalls(e), Concerns(e, a));
    SplitCallFacts(e);
    ConcernFacts(e, a);
  }

  lemma NothingDead(e: Id, a: Id)
    ensures var g := Original(e, a); RemoveDead(g, g, [e]) == g
  {
    OriginalGraph(e, a);
    ReachRefl(Arcs(Original(e, a)), e);
    ReachArc(Arcs(Original(e, a)), e, a);
    AllLive(Original(e, a), e);
  }

  /** The node of the call layer has no successor there, and the others are of unknown complexity. */
  lemma NothingInlined(e: Id, a: Id, order: set<Id> -> seq<Id>)
    ensures var g := Original(e, a); InlineTrivial(g, LayerGraphs(g.layers), order) == g
  {
    var g := Original(e, a);
    var graphs := LayerGraphs(g.layers);
    IndexOfTwo(Calls(e), Concerns(e, a));
    CallFacts(e);
    forall i, v | 0 <= i < 2 ensures v !in Candidates(g.layers[i], graphs, DEFAULT_INLINE_THRESHOLD) {
      CandidatesGo(g.layers[i], graphs, v);
    }
    assert forall i | 0 <= i < 2 :: Candidates(g.layers[i], graphs, DEFAULT_INLINE_THRESHOLD) == {};
    assert InlineTrivial(g, graphs, order).layers == g.layers;
  }

  lemma SplitOfCalls(e: Id)
    ensures SplitLayer(Calls(e)) == SplitCalls(e)
  {
    var nodes := Calls(e).nodes;
    assert nodes[0] in nodes && nodes[..0] == [] && nodes[..1] == nodes;
    assert SplitIds(nodes) == {e};
    assert SplitOrder(nodes[..0]) == [];
    assert SplitOrder(nodes) == [e];
    assert SplitNodes(nodes) == [] + SplitNode(nodes[0]);
  }

  lemma SplitOfConcerns(e: Id, a: Id)
    ensures SplitLayer(Concerns(e, a)) == Concerns(e, a)
  {
    assert SplitIds(Concerns(e, a).nodes) == {};
  }

  lemma SplitOfTwo(c: Layer, d: Layer, split: Layer)
    requires SplitLayer(c) == split && SplitLayer(d) == d
    ensures ReduceComplexity(Software([c, d])) == Software([split, d])
  {
    assert ReduceComplexity(Software([c, d])).layers == [split, d];
  }

  lemma SplitOfOriginal(e: Id, a: Id)
    ensures ReduceComplexity(Original(e, a)) == Result(e, a)
  {
    SplitOfCalls(e);
    SplitOfConcerns(e, a);
    SplitOfTwo(Calls(e), Concerns(e, a), SplitCalls(e));
  }

  lemma OnlyListed(s: seq<Id>, a: Id)
    requires Distinct(s) && s != [] && forall v | v in s :: v == a
    ensures s == [a]
  {
    assert s[0] in s;
    DistinctSize(s, {a});
  }

  lemma NoneListed(s: seq<Id>)
    requires Distinct(s) && forall v :: v !in s
    ensures s == []
  {
    DistinctSize(s, {});
  }

  lemma StepsFrom(g: Software, order: set<Id> -> seq<Id>, e: Id, a: Id)
    requires IsListing(order) && e != a && e in Declared(g) && a in Declared(g) && (e, a) in Arcs(g)
    requires forall x | x in Arcs(g) && (x.0 == e || x.0 == a) :: x == (e, a)
    ensures NextIn(g, order)(e) == [a] && NextIn(g, order)(a) == []
  {
    MergedWellFormed(g);
    ReachArc(Arcs(g), e, a);
    forall v | v != a && Reach(Arcs(g), a, v) ensures false {
      var w := ReachFirst(Arcs(g), a, v);
    }
    forall v | v != e && Reach(Arcs(g), e, v) ensures v == a {
      var w := ReachFirst(Arcs(g), e, v);
    }
    assert Descendants(Merged(g), e) == {a} && Descendants(Merged(g), a) == {};
    ExploredMembers(g, order, e);
    ExploredMembers(g, order, a);
    NoneListed(NextIn(g, order)(a));
    OnlyListed(NextIn(g, order)(e), a);
  }

  lemma SplitAccepted(e: Id, a: Id, order: set<Id> -> seq<Id>)
    requires IsListing(order) && e != a && a != e + "__part0" && a != e + "__part1"
    ensures Accepts(Original(e, a), Result(e, a), [e], order)
  {
    var g, k := Original(e, a), Result(e, a);
    OriginalGraph(e, a);
    ResultGraph(e, a);
    assert |e + "__part0"| > |e| && |e + "__part1"| > |e|;
    StepsFrom(g, order, e, a);
    StepsFrom(k, order, e, a);
    forall n: nat ensures TracesOfAll(NextIn(g, order), [e], [], {}, n) == TracesOfAll(NextIn(k, order), [e], [], {}, n) {
      TwoLevels(NextIn(g, order), NextIn(k, order), e, [a], n);
    }
    SameRootTraces(g, k, e, order);
  }

  lemma OneArcNoCycle(l: Layer, u: Id, v: Id, nx: NetworkX)
    requires u != v && LayerArcs(l) == {(u, v)} && CycleBreaking.Valid(nx)
    ensures CleanLayer(l, nx) == l
  {
    forall x, y | x != y ensures !Mutual(LayerArcs(l), x, y) {
      if Mutual(LayerArcs(l), x, y) {
        var w := ReachFirst(LayerArcs(l), x, y);
        var z := ReachFirst(LayerArcs(l), y, x);
      }
    }
    forall e | e in l.edges ensures KeptEdge(RemovedArcs(l, nx))(e) {
      NotRemoved(l, nx, e);
    }
    FilterAll(KeptEdge(RemovedArcs(l, nx)), l.edges);
  }

  lemma NothingCleanedHere(e: Id, a: Id, nx: NetworkX)
    requires e != a && CycleBreaking.Valid(nx)
    ensures CleanCycles(Result(e, a), nx) == Result(e, a)
  {
    SplitCallFacts(e);
    ConcernFacts(e, a);
    PartIdInjective(e, e, true, false);
    OneArcNoCycle(SplitCalls(e), e + "__part0", e + "__part1", nx);
    OneArcNoCycle(Concerns(e, a), e, a, nx);
    assert CleanCycles(Result(e, a), nx).layers == Result(e, a).layers;
  }

  /** The third verdict of the run is good and its result is the split graph. */
  lemma RunSplits(e: Id, a: Id, order: set<Id> -> seq<Id>, nx: NetworkX)
    requires IsListing(order) && CycleBreaking.Valid(nx) && e != a && a != e + "__part0" && a != e + "__part1"
    ensures Optimized(Original(e, a), [e], order, nx) == Result(e, a)
    ensures StagesOf(Original(e, a), [e], order, nx).splittingGood
  {
    var g := Original(e, a);
    NothingDead(e, a);
    NothingInlined(e, a, order);
    assert AfterInlining(g, [e], order) == g;
    SplitOfOriginal(e, a);
    SplitAccepted(e, a, order);
    assert AfterSplitting(g, [e], order) == Result(e, a);
    NothingCleanedHere(e, a, nx);
  }
}
