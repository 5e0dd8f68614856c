/** passes.py, `inline_trivial_nodes` and `is_simple_node`. */
module Inlining {
  import opened Digraph
  import opened Lists
  import opened Wrappers
  import opened Sgir
  import opened GraphIndexing
  import opened DeadNodes

  const DEFAULT_INLINE_THRESHOLD: int := 5

  predicate IsSimpleNode(n: Node, threshold: int) {
    n.complexity.Rank() <= threshold && n.sideEffects == [] && n.failureModes == []
  }

  /** Ids of simple nodes whose indexed fan-out in the layer is one. */
  function Candidates(l: Layer, graphs: map<GraphLayer, DiGraph>, threshold: int): set<Id> {
    set n | n in l.nodes && FanOut(graphs, n.id, l.tag) == 1 && IsSimpleNode(n, threshold) :: n.id
  }

  function Leaves(u: Id): Edge -> bool {
    (e: Edge) => e.source == u
  }

  /** Edges into c from a node that stays. */
  function Enters(c: Id, gone: set<Id>): Edge -> bool {
    (e: Edge) => e.target == c && e.source !in gone
  }

  function FirstTarget(l: Layer, c: Id): Option<Id> {
    var out := Filter(Leaves(c), l.edges);
    if out == [] then None else Some(out[0].target)
  }

  function Retarget(edges: seq<Edge>, target: Id): seq<Edge> {
    seq(|edges|, i requires 0 <= i < |edges| => Edge(edges[i].source, target, edges[i].edgeType))
  }

  /** The edges that replace the inlined node c. */
  function Shortcuts(l: Layer, gone: set<Id>, c: Id): seq<Edge> {
    match FirstTarget(l, c)
    case Some(target) => Retarget(Filter(Enters(c, gone), l.edges), target)
    case None => []
  }

  function AllShortcuts(l: Layer, gone: set<Id>, cs: seq<Id>): seq<Edge> {
    if cs == [] then [] else AllShortcuts(l, gone, cs[..|cs| - 1]) + Shortcuts(l, gone, cs[|cs| - 1])
  }

  function InlineLayer(l: Layer, gone: set<Id>, order: set<Id> -> seq<Id>): Layer {
    if gone == {} then l else
      Layer(l.tag, Filter(NodeOutside(gone), l.nodes),
            Filter(EdgeOutside(gone), l.edges) + AllShortcuts(l, gone, order(gone)))
  }

  /** One layer of the pass, at the default threshold. */
  function InlineOne(l: Layer, graphs: map<GraphLayer, DiGraph>, order: set<Id> -> seq<Id>): Layer {
    InlineLayer(l, Candidates(l, graphs, DEFAULT_INLINE_THRESHOLD), order)
  }

  function InlineTrivial(g: Software, graphs: map<GraphLayer, DiGraph>, order: set<Id> -> seq<Id>): Software {
    Software(seq(|g.layers|, i requires 0 <= i < |g.layers| => InlineOne(g.layers[i], graphs, order)))
  }

  // ------------------------------------------------------------- the pass

  method FindCandidates(l: Layer, graphs: map<GraphLayer, DiGraph>, threshold: int) returns (candidates: set<Id>)
    ensures candidates == Candidates(l, graphs, threshold)
  {
    candidates := {};
    for i := 0 to |l.nodes|
      invariant candidates == Candidates(l.(nodes := l.nodes[..i]), graphs, threshold)
    {
      var node := l.nodes[i];
      assert l.nodes[..i + 1] == l.nodes[..i] + [node];
      var outDegree := FanOut(graphs, node.id, l.tag);
      if outDegree == 1 && IsSimpleNode(node, threshold) {
        candidates := candidates + {node.id};
      }
    }
    assert l.nodes[..|l.nodes|] == l.nodes;
  }

  /** Groups the edges by source, each group in list order. */
  method EdgesBySource(edges: seq<Edge>) returns (edgeMap: map<Id, seq<Edge>>)
    ensures forall u :: (if u in edgeMap then edgeMap[u] else []) == Filter(Leaves(u), edges)
  {
    edgeMap := map[];
    for i := 0 to |edges|
      invariant forall u :: (if u in edgeMap then edgeMap[u] else []) == Filter(Leaves(u), edges[..i])
    {
      var e := edges[i];
      assert edges[..i + 1] == edges[..i] + [e];
      forall u ensures Filter(Leaves(u), edges[..i + 1])
                    == Filter(Leaves(u), edges[..i]) + (if e.source == u then [e] else [])
      {
        FilterSnoc(Leaves(u), edges[..i], e);
      }
      edgeMap := edgeMap[e.source := (if e.source in edgeMap then edgeMap[e.source] else []) + [e]];
    }
    assert edges[..|edges|] == edges;
  }

  lemma RetargetSnoc(edges: seq<Edge>, e: Edge, target: Id)
    ensures Retarget(edges + [e], target) == Retarget(edges, target) + [Edge(e.source, target, e.edgeType)]
  {
  }

  method ShortcutEdges(l: Layer, gone: set<Id>, c: Id, target: Id) returns (added: seq<Edge>)
    requires FirstTarget(l, c) == Some(target)
    ensures added == Shortcuts(l, gone, c)
  {
    var inEdges := Filter(Enters(c, gone), l.edges);
    added := [];
    for i := 0 to |inEdges|
      invariant added == Retarget(inEdges[..i], target)
    {
      RetargetSnoc(inEdges[..i], inEdges[i], target);
      assert inEdges[..i + 1] == inEdges[..i] + [inEdges[i]];
      added := added + [Edge(inEdges[i].source, target, inEdges[i].edgeType)];
    }
    assert inEdges[..|inEdges|] == inEdges;
  }

  /** Where each inlined node forwards to; a node with no outgoing edge has no entry. */
  method InlinedTargets(l: Layer, cs: seq<Id>) returns (inlined: map<Id, Id>)
    ensures forall u :: (if u in inlined then Some(inlined[u]) else None)
                     == (if u in cs then FirstTarget(l, u) else None)
  {
    var edgeMap := EdgesBySource(l.edges);
    inlined := map[];
    for k := 0 to |cs|
      invariant forall u :: (if u in inlined then Some(inlined[u]) else None)
                         == (if u in cs[..k] then FirstTarget(l, u) else None)
    {
      var c := cs[k];
      assert cs[..k + 1] == cs[..k] + [c];
      assert (if c in edgeMap then edgeMap[c] else []) == Filter(Leaves(c), l.edges);
      if c in edgeMap && edgeMap[c] != [] {
        inlined := inlined[c := edgeMap[c][0].target];
      }
    }
    assert cs[..|cs|] == cs;
  }

  method DirectEdges(l: Layer, gone: set<Id>) returns (newEdges: seq<Edge>)
    ensures newEdges == Filter(EdgeOutside(gone), l.edges)
  {
    newEdges := [];
    for k := 0 to |l.edges|
      invariant newEdges == Filter(EdgeOutside(gone), l.edges[..k])
    {
      var e := l.edges[k];
      assert l.edges[..k + 1] == l.edges[..k] + [e];
      FilterSnoc(EdgeOutside(gone), l.edges[..k], e);
      if e.source in gone || e.target in gone {
        continue;
      }
      newEdges := newEdges + [e];
    }
    assert l.edges[..|l.edges|] == l.edges;
  }

  lemma AllShortcutsPrefix(l: Layer, gone: set<Id>, cs: seq<Id>, k: nat)
    requires k < |cs|
    ensures AllShortcuts(l, gone, cs[..k + 1]) == AllShortcuts(l, gone, cs[..k]) + Shortcuts(l, gone, cs[k])
  {
    assert cs[..k + 1][..k] == cs[..k];
  }

  method BypassEdges(l: Layer, gone: set<Id>, cs: seq<Id>, inlined: map<Id, Id>) returns (added: seq<Edge>)
    requires forall c | c in cs :: (if c in inlined then Some(inlined[c]) else None) == FirstTarget(l, c)
    ensures added == AllShortcuts(l, gone, cs)
  {
    added := [];
    for k := 0 to |cs|
      invariant added == AllShortcuts(l, gone, cs[..k])
    {
      var c := cs[k];
      AllShortcutsPrefix(l, gone, cs, k);
      if c !in inlined {
        assert Shortcuts(l, gone, c) == [];
        continue;
      }
      var bypass := ShortcutEdges(l, gone, c, inlined[c]);
      added := added + bypass;
    }
    assert cs[..|cs|] == cs;
  }

  method InlineOneLayer(l: Layer, gone: set<Id>, order: set<Id> -> seq<Id>) returns (r: Layer)
    requires gone != {}
    ensures r == InlineLayer(l, gone, order)
  {
    var surviving := Filter(NodeOutside(gone), l.nodes);
    var cs := order(gone);
    var inlined := InlinedTargets(l, cs);
    var newEdges := DirectEdges(l, gone);
    var added := BypassEdges(l, gone, cs, inlined);
    r := Layer(l.tag, surviving, newEdges + added);
  }

  method InlineInLayer(l: Layer, graphs: map<GraphLayer, DiGraph>, order: set<Id> -> seq<Id>) returns (r: Layer)
    ensures r == InlineOne(l, graphs, order)
  {
    var candidates := FindCandidates(l, graphs, DEFAULT_INLINE_THRESHOLD);
    if candidates == {} {
      return l;
    }
    r := InlineOneLayer(l, candidates, order);
  }

  lemma {:induction false} InAllShortcuts(l: Layer, gone: set<Id>, cs: seq<Id>, e: Edge)
    ensures e in AllShortcuts(l, gone, cs) <==> exists c :: c in cs && e in Shortcuts(l, gone, c)
  {
    if cs != [] {
      var n := |cs| - 1;
      assert cs == cs[..n] + [cs[n]];
      InAllShortcuts(l, gone, cs[..n], e);
    }
  }

  // ------------------------------------------ the pass, in terms of nodes

  /** The index gives the node one successor in its layer, its complexity is neither exponential
      nor unknown, and it has neither side effects nor failure modes. */
  ghost predicate Trivial(n: Node, tag: GraphLayer, graphs: map<GraphLayer, DiGraph>) {
    && tag in graphs && n.id in graphs[tag].nodes && |Successors(graphs[tag].arcs, n.id)| == 1
    && !n.complexity.EXPONENTIAL? && !n.complexity.UNKNOWN_COMPLEXITY?
    && n.sideEffects == [] && n.failureModes == []
  }

  ghost predicate Goes(l: Layer, graphs: map<GraphLayer, DiGraph>, v: Id) {
    exists n :: n in l.nodes && n.id == v && Trivial(n, l.tag, graphs)
  }

  ghost function NodeStays(l: Layer, graphs: map<GraphLayer, DiGraph>): Node -> bool {
    (n: Node) => !Goes(l, graphs, n.id)
  }

  ghost function EdgeStays(l: Layer, graphs: map<GraphLayer, DiGraph>): Edge -> bool {
    (e: Edge) => !Goes(l, graphs, e.source) && !Goes(l, graphs, e.target)
  }

  /** The first edge that leaves c ends at t. */
  ghost predicate LeadsFirst(edges: seq<Edge>, c: Id, t: Id) {
    exists k :: 0 <= k < |edges| && edges[k].source == c && edges[k].target == t && forall j | 0 <= j < k :: edges[j].source != c
  }

  /** e goes on from f, which enters a node that goes, to where that node leads first. */
  ghost predicate GoesOn(l: Layer, graphs: map<GraphLayer, DiGraph>, f: Edge, e: Edge) {
    && f in l.edges && Goes(l, graphs, f.target) && !Goes(l, graphs, f.source)
    && LeadsFirst(l.edges, f.target, e.target) && e.source == f.source && e.edgeType == f.edgeType
  }

  /** Other nodes stay, in order and unchanged. So do the edges between them; behind them stand
      exactly the edges that go on from one into a node that goes, with its type. */
  ghost predicate InlinesExactly(l: Layer, m: Layer, graphs: map<GraphLayer, DiGraph>) {
    && m.tag == l.tag
    && m.nodes == Filter(NodeStays(l, graphs), l.nodes)
    && var direct := Filter(EdgeStays(l, graphs), l.edges);
       |direct| <= |m.edges| && m.edges[..|direct|] == direct
       && forall e :: e in m.edges[|direct|..] <==> exists f :: GoesOn(l, graphs, f, e)
  }

  lemma CandidatesGo(l: Layer, graphs: map<GraphLayer, DiGraph>, v: Id)
    ensures v in Candidates(l, graphs, DEFAULT_INLINE_THRESHOLD) <==> Goes(l, graphs, v)
  {
    forall n | n in l.nodes
      ensures (FanOut(graphs, n.id, l.tag) == 1 && IsSimpleNode(n, DEFAULT_INLINE_THRESHOLD)) <==> Trivial(n, l.tag, graphs) {
    }
  }

  lemma LeadsFirstPast(edges: seq<Edge>, c: Id, t: Id)
    requires edges != [] && edges[0].source != c
    ensures LeadsFirst(edges, c, t) <==> LeadsFirst(edges[1..], c, t)
  {
    var rest := edges[1..];
    if k :| 0 <= k < |rest| && rest[k].source == c && rest[k].target == t && forall j | 0 <= j < k :: rest[j].source != c {
      assert edges[k + 1] == rest[k];
      assert forall j | 0 <= j < k + 1 :: j > 0 ==> edges[j] == rest[j - 1];
    }
    if k :| 0 <= k < |edges| && edges[k].source == c && edges[k].target == t && forall j | 0 <= j < k :: edges[j].source != c {
      assert rest[k - 1] == edges[k];
      assert forall j | 0 <= j < k - 1 :: rest[j] == edges[j + 1];
    }
  }

  lemma {:induction false} FirstTargetLeads(edges: seq<Edge>, c: Id, t: Id)
    ensures (Filter(Leaves(c), edges) != [] && Filter(Leaves(c), edges)[0].target == t) <==> LeadsFirst(edges, c, t)
    decreases |edges|
  {
    if edges != [] {
      FirstTargetLeads(edges[1..], c, t);
      if edges[0].source == c {
        assert edges[0].target == t ==> LeadsFirst(edges, c, t);
      } else {
        LeadsFirstPast(edges, c, t);
      }
    }
  }

  lemma ShortcutGoesOn(l: Layer, graphs: map<GraphLayer, DiGraph>, c: Id, e: Edge)
    requires Goes(l, graphs, c)
    ensures e in Shortcuts(l, Candidates(l, graphs, DEFAULT_INLINE_THRESHOLD), c) <==>
              exists f: Edge :: f.target == c && GoesOn(l, graphs, f, e)
  {
    var gone := Candidates(l, graphs, DEFAULT_INLINE_THRESHOLD);
    var entering := Filter(Enters(c, gone), l.edges);
    FirstTargetLeads(l.edges, c, e.target);
    forall f ensures f in entering <==> f in l.edges && f.target == c && !Goes(l, graphs, f.source) {
      CandidatesGo(l, graphs, f.source);
    }
    if e in Shortcuts(l, gone, c) {
      var i :| 0 <= i < |entering| && Shortcuts(l, gone, c)[i] == e;
      assert entering[i] in entering;
      assert GoesOn(l, graphs, entering[i], e);
    }
    if f: Edge :| f.target == c && GoesOn(l, graphs, f, e) {
      assert f in entering;
      var i :| 0 <= i < |entering| && entering[i] == f;
      assert FirstTarget(l, c) == Some(e.target);
      assert Shortcuts(l, gone, c)[i] == e;
    }
  }

  lemma AllShortcutsGoOn(l: Layer, graphs: map<GraphLayer, DiGraph>, order: set<Id> -> seq<Id>)
    requires IsListing(order)
    ensures var gone := Candidates(l, graphs, DEFAULT_INLINE_THRESHOLD);
            forall e :: e in AllShortcuts(l, gone, order(gone)) <==> exists f :: GoesOn(l, graphs, f, e)
  {
    var gone := Candidates(l, graphs, DEFAULT_INLINE_THRESHOLD);
    forall e ensures e in AllShortcuts(l, gone, order(gone)) <==> exists f :: GoesOn(l, graphs, f, e) {
      InAllShortcuts(l, gone, order(gone), e);
      if c :| c in order(gone) && e in Shortcuts(l, gone, c) {
        CandidatesGo(l, graphs, c);
        ShortcutGoesOn(l, graphs, c, e);
      }
      if f :| GoesOn(l, graphs, f, e) {
        CandidatesGo(l, graphs, f.target);
        ShortcutGoesOn(l, graphs, f.target, e);
        assert f.target in order(gone);
      }
    }
  }

  lemma InlineOneExactly(l: Layer, graphs: map<GraphLayer, DiGraph>, order: set<Id> -> seq<Id>)
    requires IsListing(order)
    ensures InlinesExactly(l, InlineOne(l, graphs, order), graphs)
  {
    var gone := Candidates(l, graphs, DEFAULT_INLINE_THRESHOLD);
    forall v ensures v in gone <==> Goes(l, graphs, v) {
      CandidatesGo(l, graphs, v);
    }
    FilterCongruent(NodeOutside(gone), NodeStays(l, graphs), l.nodes);
    FilterCongruent(EdgeOutside(gone), EdgeStays(l, graphs), l.edges);
    if gone == {} {
      FilterAll(NodeOutside(gone), l.nodes);
      FilterAll(EdgeOutside(gone), l.edges);
    } else {
      AllShortcutsGoOn(l, graphs, order);
    }
  }

  lemma InlineTrivialExactly(g: Software, graphs: map<GraphLayer, DiGraph>, order: set<Id> -> seq<Id>)
    requires IsListing(order)
    ensures forall i | 0 <= i < |g.layers| :: InlinesExactly(g.layers[i], InlineTrivial(g, graphs, order).layers[i], graphs)
  {
    forall i | 0 <= i < |g.layers| ensures InlinesExactly(g.layers[i], InlineTrivial(g, graphs, order).layers[i], graphs) {
      InlineOneExactly(g.layers[i], graphs, order);
    }
  }

  method InlineTrivialNodes(graph: Software, index: GraphIndex, order: set<Id> -> seq<Id>) returns (working: Software)
    ensures working == InlineTrivial(graph, index.graphs, order) && |working.layers| == |graph.layers|
    ensures IsListing(order) ==>
              forall i | 0 <= i < |graph.layers| :: InlinesExactly(graph.layers[i], working.layers[i], index.graphs)
  {
    if IsListing(order) {
      InlineTrivialExactly(graph, index.graphs, order);
    }
    working := graph;
    var graphs := index.graphs;
    for i := 0 to |graph.layers|
      invariant |working.layers| == |graph.layers|
      invariant forall k | 0 <= k < i :: working.layers[k] == InlineOne(graph.layers[k], graphs, order)
      invariant forall k | i <= k < |graph.layers| :: working.layers[k] == graph.layers[k]
    {
      var inlined := InlineInLayer(working.layers[i], graphs, order);
      working := Software(working.layers[i := inlined]);
    }
  }

  // ------------------------------------------------------- what it produces

  /** a bypasses the removed node c. */
  ghost predicate Bypasses(l: Layer, gone: set<Id>, c: Id, a: Arc) {
    c in gone && a.0 !in gone && (a.0, c) in LayerArcs(l) && FirstTarget(l, c) == Some(a.1)
  }

  lemma ShortcutArc(l: Layer, gone: set<Id>, c: Id, a: Arc)
    requires c in gone
    ensures (exists e :: e in Shortcuts(l, gone, c) && a == (e.source, e.target)) <==> Bypasses(l, gone, c, a)
  {
    var entering := Filter(Enters(c, gone), l.edges);
    if e :| e in Shortcuts(l, gone, c) && a == (e.source, e.target) {
      var i :| 0 <= i < |entering| && Shortcuts(l, gone, c)[i] == e;
      assert entering[i] in entering;
      assert (entering[i].source, c) in LayerArcs(l);
    }
    if Bypasses(l, gone, c, a) {
      var e :| e in l.edges && (e.source, e.target) == (a.0, c);
      assert e in entering;
      var i :| 0 <= i < |entering| && entering[i] == e;
      assert Shortcuts(l, gone, c)[i] == Edge(a.0, a.1, e.edgeType);
    }
  }

  /** The output has the arcs between surviving nodes and the bypasses, nothing else. */
  lemma InlineLayerArcs(l: Layer, gone: set<Id>, order: set<Id> -> seq<Id>, a: Arc)
    requires IsListing(order)
    ensures a in LayerArcs(InlineLayer(l, gone, order)) <==>
      || (a in LayerArcs(l) && a.0 !in gone && a.1 !in gone)
      || (exists c :: Bypasses(l, gone, c, a))
  {
    var m := InlineLayer(l, gone, order);
    if gone != {} {
      var direct := Filter(EdgeOutside(gone), l.edges);
      var added := AllShortcuts(l, gone, order(gone));
      if e :| e in m.edges && a == (e.source, e.target) {
        if e !in direct {
          InAllShortcuts(l, gone, order(gone), e);
          var c :| c in order(gone) && e in Shortcuts(l, gone, c);
          ShortcutArc(l, gone, c, a);
        }
      }
      if a in LayerArcs(l) && a.0 !in gone && a.1 !in gone {
        var e :| e in l.edges && a == (e.source, e.target);
        assert e in direct && e in m.edges;
      }
      if c :| Bypasses(l, gone, c, a) {
        ShortcutArc(l, gone, c, a);
        var e :| e in Shortcuts(l, gone, c) && a == (e.source, e.target);
        assert c in order(gone);
        InAllShortcuts(l, gone, order(gone), e);
        assert e in m.edges;
      }
    }
  }

  lemma BypassArc(l: Layer, gone: set<Id>, order: set<Id> -> seq<Id>, c: Id, a: Arc)
    requires IsListing(order) && Bypasses(l, gone, c, a)
    ensures a in LayerArcs(InlineLayer(l, gone, order))
  {
    InlineLayerArcs(l, gone, order, a);
  }

  lemma InlineLayerIds(l: Layer, gone: set<Id>, order: set<Id> -> seq<Id>)
    ensures NodeIds(InlineLayer(l, gone, order)) == NodeIds(l) - gone
  {
    var m := InlineLayer(l, gone, order);
    forall v | v in NodeIds(l) - gone ensures v in NodeIds(m) {
      var n :| n in l.nodes && n.id == v;
      assert n in m.nodes;
    }
  }

  lemma BypassWalk(l: Layer, gone: set<Id>, c: Id, a: Arc)
    requires Bypasses(l, gone, c, a)
    ensures (c, a.1) in LayerArcs(l) && Reach(LayerArcs(l), a.0, a.1)
  {
    var out := Filter(Leaves(c), l.edges);
    assert out[0] in out;
    assert (c, a.1) == (out[0].source, out[0].target);
    ReachArc(LayerArcs(l), c, a.1);
    ReachStep(LayerArcs(l), a.0, c, a.1);
  }

  /** Inlining invents no reachability within a layer. */
  lemma InlineInventsNothing(l: Layer, gone: set<Id>, order: set<Id> -> seq<Id>)
    requires IsListing(order)
    ensures Simulates(LayerArcs(InlineLayer(l, gone, order)), LayerArcs(l), x => x)
  {
    forall a | a in LayerArcs(InlineLayer(l, gone, order)) ensures Reach(LayerArcs(l), a.0, a.1) {
      InlineLayerArcs(l, gone, order, a);
      if a in LayerArcs(l) {
        ReachArc(LayerArcs(l), a.0, a.1);
      } else {
        var c :| Bypasses(l, gone, c, a);
        BypassWalk(l, gone, c, a);
      }
    }
  }

  // --------------------------------------------------- preserving meaning

  ghost predicate ExactFanOut(l: Layer, graphs: map<GraphLayer, DiGraph>) {
    forall n | n in l.nodes :: FanOut(graphs, n.id, l.tag) == OutDegree(LayerGraph(l), n.id)
  }

  /** No surviving node leads to an inlined node that itself leads to an inlined node. */
  ghost predicate NoLiveChain(l: Layer, gone: set<Id>) {
    forall s, c | (s, c) in LayerArcs(l) && s !in gone && c in gone && FirstTarget(l, c).Some? ::
      FirstTarget(l, c).value !in gone
  }

  ghost predicate SoleSuccessors(l: Layer, gone: set<Id>) {
    forall c, w | c in gone && (c, w) in LayerArcs(l) :: FirstTarget(l, c) == Some(w)
  }

  /** Between ids that stay, declared or not, m has the reachability of l. */
  ghost predicate SameReachability(l: Layer, m: Layer, gone: set<Id>) {
    forall u, v | u !in gone && v !in gone :: Reach(LayerArcs(m), u, v) <==> Reach(LayerArcs(l), u, v)
  }

  /** No arc begins or ends at an id that went. */
  ghost predicate Avoids(m: Layer, gone: set<Id>) {
    forall a | a in LayerArcs(m) :: a.0 !in gone && a.1 !in gone
  }

  lemma OneSuccessor(l: Layer, c: Id, w: Id)
    requires OutDegree(LayerGraph(l), c) == 1 && (c, w) in LayerArcs(l)
    ensures FirstTarget(l, c) == Some(w)
  {
    var succ := set a | a in LayerArcs(l) && a.0 == c :: a.1;
    LayerGraphWellFormed(l);
    assert |succ| == 1;
    var e :| e in l.edges && (e.source, e.target) == (c, w);
    var out := Filter(Leaves(c), l.edges);
    assert e in out;
    assert out[0] in out;
    var t := out[0].target;
    assert (c, t) in LayerArcs(l);
    assert (c, t).1 in succ && (c, w).1 in succ;
    OnlyMember(succ, t, w);
  }

  lemma CandidatesHaveOneSuccessor(l: Layer, graphs: map<GraphLayer, DiGraph>, threshold: int)
    requires ExactFanOut(l, graphs)
    ensures SoleSuccessors(l, Candidates(l, graphs, threshold))
  {
    forall c, w | c in Candidates(l, graphs, threshold) && (c, w) in LayerArcs(l)
      ensures FirstTarget(l, c) == Some(w)
    {
      OneSuccessor(l, c, w);
    }
  }

  /** No two nodes in a row on p are in gone. */
  ghost predicate SpacedOut(p: seq<Id>, gone: set<Id>) {
    |p| > 1 ==> (p[0] !in gone || p[1] !in gone) && SpacedOut(p[1..], gone)
  }

  /** Some walk leads from u to v and never passes two nodes of gone in a row. */
  ghost predicate ReachSpaced(E: set<Arc>, gone: set<Id>, u: Id, v: Id) {
    exists p :: PathFromTo(E, p, u, v) && SpacedOut(p, gone)
  }

  /** F keeps the arcs of E between nodes that stay, and bridges each node that goes. */
  ghost predicate Bridges(E: set<Arc>, F: set<Arc>, gone: set<Id>) {
    && (forall a | a in E && a.0 !in gone && a.1 !in gone :: a in F)
    && (forall s, c, t | s !in gone && c in gone && t !in gone && (s, c) in E && (c, t) in E :: (s, t) in F)
  }

  lemma {:induction false} SpacedBridged(E: set<Arc>, F: set<Arc>, gone: set<Id>, p: seq<Id>)
    requires Bridges(E, F, gone) && IsPath(E, p) && SpacedOut(p, gone) && p[0] !in gone && p[|p| - 1] !in gone
    ensures Reach(F, p[0], p[|p| - 1])
    decreases |p|
  {
    if |p| == 1 {
      ReachRefl(F, p[0]);
    } else if p[1] !in gone {
      var a := (p[0], p[1]);
      assert a in E;
      SpacedBridged(E, F, gone, p[1..]);
      ReachStep(F, p[0], p[1], p[|p| - 1]);
    } else {
      assert p[1..][1..] == p[2..];
      SpacedBridged(E, F, gone, p[2..]);
      ReachStep(F, p[0], p[2], p[|p| - 1]);
    }
  }

  lemma InliningBridges(l: Layer, gone: set<Id>, order: set<Id> -> seq<Id>)
    requires IsListing(order) && SoleSuccessors(l, gone)
    ensures Bridges(LayerArcs(l), LayerArcs(InlineLayer(l, gone, order)), gone)
  {
    var E, F := LayerArcs(l), LayerArcs(InlineLayer(l, gone, order));
    forall a | a in E && a.0 !in gone && a.1 !in gone ensures a in F {
      InlineLayerArcs(l, gone, order, a);
    }
    forall s, c, t | s !in gone && c in gone && t !in gone && (s, c) in E && (c, t) in E ensures (s, t) in F {
      assert FirstTarget(l, c) == Some(t);
      BypassArc(l, gone, order, c, (s, t));
    }
  }

  /** Every arc of F into a survivor leaves a survivor, and is an arc of E or passes one node of gone. */
  ghost predicate Unfolds(E: set<Arc>, F: set<Arc>, gone: set<Id>) {
    forall a | a in F && a.1 !in gone :: a.0 !in gone && (a in E || exists c :: c in gone && (a.0, c) in E && (c, a.1) in E)
  }

  lemma InliningUnfolds(l: Layer, gone: set<Id>, order: set<Id> -> seq<Id>)
    requires IsListing(order)
    ensures Unfolds(LayerArcs(l), LayerArcs(InlineLayer(l, gone, order)), gone)
  {
    var E, F := LayerArcs(l), LayerArcs(InlineLayer(l, gone, order));
    forall a | a in F && a.1 !in gone
      ensures a.0 !in gone && (a in E || exists c :: c in gone && (a.0, c) in E && (c, a.1) in E)
    {
      InlineLayerArcs(l, gone, order, a);
      if c :| Bypasses(l, gone, c, a) {
        BypassWalk(l, gone, c, a);
      }
    }
  }

  lemma {:induction false} SpacedWalk(E: set<Arc>, F: set<Arc>, gone: set<Id>, q: seq<Id>) returns (p: seq<Id>)
    requires Unfolds(E, F, gone) && IsPath(F, q) && q[|q| - 1] !in gone
    ensures PathFromTo(E, p, q[0], q[|q| - 1]) && SpacedOut(p, gone) && q[0] !in gone
    decreases |q|
  {
    if |q| == 1 {
      p := q;
    } else {
      var a := (q[0], q[1]);
      var r := SpacedWalk(E, F, gone, q[1..]);
      p := [q[0]] + r;
      assert p[1..] == r;
      if a !in E {
        var c :| c in gone && (a.0, c) in E && (c, a.1) in E;
        var tail := [c] + r;
        assert tail[1..] == r;
        p := [q[0]] + tail;
        assert p[1..] == tail;
      }
    }
  }

  /** Inlining is exact about what it cuts: between ids that stay, reachability afterwards is
      reachability along walks that never pass two inlined nodes in a row. */
  lemma InliningReachability(l: Layer, graphs: map<GraphLayer, DiGraph>, threshold: int, order: set<Id> -> seq<Id>, u: Id, v: Id)
    requires IsListing(order) && ExactFanOut(l, graphs)
    requires u !in Candidates(l, graphs, threshold) && v !in Candidates(l, graphs, threshold)
    ensures var gone := Candidates(l, graphs, threshold);
            Reach(LayerArcs(InlineLayer(l, gone, order)), u, v) <==> ReachSpaced(LayerArcs(l), gone, u, v)
  {
    var gone := Candidates(l, graphs, threshold);
    var F := LayerArcs(InlineLayer(l, gone, order));
    CandidatesHaveOneSuccessor(l, graphs, threshold);
    InliningBridges(l, gone, order);
    if Reach(F, u, v) {
      InliningUnfolds(l, gone, order);
      var q :| PathFromTo(F, q, u, v);
      var p := SpacedWalk(LayerArcs(l), F, gone, q);
    }
    if ReachSpaced(LayerArcs(l), gone, u, v) {
      var p :| PathFromTo(LayerArcs(l), p, u, v) && SpacedOut(p, gone);
      SpacedBridged(LayerArcs(l), F, gone, p);
    }
  }

  /** A walk through gone from d ends outside it, at t. */
  ghost predicate Exits(E: set<Arc>, gone: set<Id>, d: Id, t: Id) {
    t !in gone && exists p :: PathFromTo(E, p, d, t) && forall i | 0 <= i < |p| - 1 :: p[i] in gone
  }

  /** From the survivor s two or more inlined nodes in a row lead to the survivor t. */
  ghost predicate ChainTo(E: set<Arc>, gone: set<Id>, s: Id, t: Id) {
    s !in gone && exists c, d :: c in gone && d in gone && (s, c) in E && (c, d) in E && Exits(E, gone, d, t)
  }

  /** Wherever a chain leads, a walk that passes no two inlined nodes in a row leads too. */
  ghost predicate Detours(E: set<Arc>, gone: set<Id>) {
    forall s, t | ChainTo(E, gone, s, t) :: ReachSpaced(E, gone, s, t)
  }

  lemma ChainWalks(E: set<Arc>, gone: set<Id>, s: Id, t: Id)
    requires ChainTo(E, gone, s, t)
    ensures Reach(E, s, t)
  {
    var c, d :| c in gone && d in gone && (s, c) in E && (c, d) in E && Exits(E, gone, d, t);
    ReachStep(E, c, d, t);
    ReachStep(E, s, c, t);
  }

  lemma {:induction false} NextOutside(p: seq<Id>, gone: set<Id>, i: nat) returns (k: nat)
    requires i < |p| && p[|p| - 1] !in gone
    ensures i <= k < |p| && p[k] !in gone && forall j | i <= j < k :: p[j] in gone
    decreases |p| - i
  {
    if p[i] !in gone {
      k := i;
    } else {
      k := NextOutside(p, gone, i + 1);
    }
  }

  /** The chain that a walk enters with its first step ends where the walk leaves gone. */
  lemma ChainAlong(E: set<Arc>, gone: set<Id>, p: seq<Id>, k: nat)
    requires IsPath(E, p) && 2 < k < |p| && p[0] !in gone && p[k] !in gone && forall j | 1 <= j < k :: p[j] in gone
    ensures ChainTo(E, gone, p[0], p[k])
  {
    var rest := p[2..][..k - 1];
    PathNode(E, p, 0);
    PathNode(E, p, 1);
    PathSuffix(E, p, 2);
    PathPrefix(E, p[2..], k - 1);
    assert PathFromTo(E, rest, p[2], p[k]);
    forall i | 0 <= i < |rest| - 1 ensures rest[i] in gone {
      assert rest[i] == p[i + 2];
    }
    assert Exits(E, gone, p[2], p[k]);
  }

  /** If all chains can be passed by in F, so can all walks. */
  lemma {:induction false} PathDetoured(E: set<Arc>, F: set<Arc>, gone: set<Id>, p: seq<Id>)
    requires Bridges(E, F, gone) && IsPath(E, p) && p[0] !in gone && p[|p| - 1] !in gone
    requires forall s, t | ChainTo(E, gone, s, t) :: Reach(F, s, t)
    ensures Reach(F, p[0], p[|p| - 1])
    decreases |p|
  {
    if |p| == 1 {
      ReachRefl(F, p[0]);
    } else {
      var k := NextOutside(p, gone, 1);
      PathNode(E, p, 0);
      PathNode(E, p, 1);
      PathSuffix(E, p, k);
      PathDetoured(E, F, gone, p[k..]);
      if k <= 2 {
        var a := (p[0], p[k]);
        assert a in F;
        ReachStep(F, p[0], p[k], p[|p| - 1]);
      } else {
        ChainAlong(E, gone, p, k);
        ReachTrans(F, p[0], p[k], p[|p| - 1]);
      }
    }
  }

  /** With exact fan-out, inlining keeps the reachability between ids that stay exactly if every
      chain of two or more inlined nodes between survivors has a detour. */
  lemma InliningKeepsReachabilityExactly(l: Layer, graphs: map<GraphLayer, DiGraph>, threshold: int, order: set<Id> -> seq<Id>)
    requires IsListing(order) && ExactFanOut(l, graphs)
    ensures var gone := Candidates(l, graphs, threshold);
            SameReachability(l, InlineLayer(l, gone, order), gone) <==> Detours(LayerArcs(l), gone)
  {
    var gone := Candidates(l, graphs, threshold);
    var m := InlineLayer(l, gone, order);
    var E, F := LayerArcs(l), LayerArcs(m);
    CandidatesHaveOneSuccessor(l, graphs, threshold);
    InliningBridges(l, gone, order);
    InlineInventsNothing(l, gone, order);
    forall u, v | u !in gone && v !in gone
      ensures Reach(F, u, v) <==> ReachSpaced(E, gone, u, v)
      ensures Reach(F, u, v) ==> Reach(E, u, v)
    {
      InliningReachability(l, graphs, threshold, order, u, v);
      if Reach(F, u, v) {
        ReachSimulated(F, E, x => x, u, v);
      }
    }
    if Detours(E, gone) {
      forall u, v | u !in gone && v !in gone && Reach(E, u, v) ensures Reach(F, u, v) {
        var p :| PathFromTo(E, p, u, v);
        PathDetoured(E, F, gone, p);
      }
    }
    if SameReachability(l, m, gone) {
      forall s, t | ChainTo(E, gone, s, t) ensures ReachSpaced(E, gone, s, t) {
        ChainWalks(E, gone, s, t);
      }
    }
  }

  /** Without a live chain there is nothing to pass by. */
  lemma NoChainNoDetour(l: Layer, gone: set<Id>)
    requires SoleSuccessors(l, gone) && NoLiveChain(l, gone)
    ensures Detours(LayerArcs(l), gone)
  {
    forall s, c, d | s !in gone && c in gone && (s, c) in LayerArcs(l) && (c, d) in LayerArcs(l) ensures d !in gone {
      assert FirstTarget(l, c) == Some(d);
    }
  }

  /** In any layer, no output arc touches an inlined id exactly if no survivor leads to a
      candidate that leads to a candidate. */
  lemma AvoidsExactly(l: Layer, gone: set<Id>, order: set<Id> -> seq<Id>)
    requires IsListing(order)
    ensures Avoids(InlineLayer(l, gone, order), gone) <==> NoLiveChain(l, gone)
  {
    var m := InlineLayer(l, gone, order);
    if NoLiveChain(l, gone) {
      forall a | a in LayerArcs(m) ensures a.0 !in gone && a.1 !in gone {
        InlineLayerArcs(l, gone, order, a);
      }
    }
    if Avoids(m, gone) {
      forall s, c | (s, c) in LayerArcs(l) && s !in gone && c in gone && FirstTarget(l, c).Some?
        ensures FirstTarget(l, c).value !in gone
      {
        BypassArc(l, gone, order, c, (s, FirstTarget(l, c).value));
      }
    }
  }

  lemma DeclaredEnds(l: Layer, a: Arc)
    requires NoDangling(l) && a in LayerArcs(l)
    ensures a.0 in NodeIds(l) && a.1 in NodeIds(l)
  {
    var e :| e in l.edges && a == (e.source, e.target);
  }

  /** No output edge dangles exactly if no live candidate leads to another candidate. */
  lemma DanglingExactly(l: Layer, gone: set<Id>, order: set<Id> -> seq<Id>)
    requires IsListing(order) && NoDangling(l)
    ensures NoDangling(InlineLayer(l, gone, order)) <==> NoLiveChain(l, gone)
  {
    var m := InlineLayer(l, gone, order);
    InlineLayerIds(l, gone, order);
    if NoLiveChain(l, gone) {
      forall e | e in m.edges ensures e.source in NodeIds(m) && e.target in NodeIds(m) {
        var a := (e.source, e.target);
        assert a in LayerArcs(m);
        InlineLayerArcs(l, gone, order, a);
        if a in LayerArcs(l) && a.0 !in gone && a.1 !in gone {
          DeclaredEnds(l, a);
        } else {
          var c :| Bypasses(l, gone, c, a);
          BypassWalk(l, gone, c, a);
          DeclaredEnds(l, (a.0, c));
          DeclaredEnds(l, (c, a.1));
        }
      }
    }
    if NoDangling(m) {
      forall s, c | (s, c) in LayerArcs(l) && s !in gone && c in gone && FirstTarget(l, c).Some?
        ensures FirstTarget(l, c).value !in gone
      {
        var a := (s, FirstTarget(l, c).value);
        assert Bypasses(l, gone, c, a);
        InlineLayerArcs(l, gone, order, a);
        DeclaredEnds(m, a);
      }
    }
  }

  /** Both halves of what inlining promises, each with its exact condition, in every layer with
      exact fan-out: no edge to an inlined node is left exactly if candidates do not chain behind
      a survivor, and reachability is kept exactly if the chains have detours. */
  lemma InliningPreservesMeaningExactly(l: Layer, graphs: map<GraphLayer, DiGraph>, threshold: int, order: set<Id> -> seq<Id>)
    requires IsListing(order) && ExactFanOut(l, graphs)
    ensures var gone := Candidates(l, graphs, threshold); var m := InlineLayer(l, gone, order);
            && (Avoids(m, gone) <==> NoLiveChain(l, gone))
            && (SameReachability(l, m, gone) <==> Detours(LayerArcs(l), gone))
            && (NoLiveChain(l, gone) ==> Detours(LayerArcs(l), gone))
  {
    var gone := Candidates(l, graphs, threshold);
    AvoidsExactly(l, gone, order);
    InliningKeepsReachabilityExactly(l, graphs, threshold, order);
    CandidatesHaveOneSuccessor(l, graphs, threshold);
    if NoLiveChain(l, gone) {
      NoChainNoDetour(l, gone);
    }
  }

  /** So reachability is kept wherever candidates do not chain behind a survivor. */
  lemma InliningKeepsReachability(l: Layer, graphs: map<GraphLayer, DiGraph>, threshold: int, order: set<Id> -> seq<Id>)
    requires IsListing(order) && ExactFanOut(l, graphs) && NoLiveChain(l, Candidates(l, graphs, threshold))
    ensures var gone := Candidates(l, graphs, threshold); SameReachability(l, InlineLayer(l, gone, order), gone)
  {
    InliningPreservesMeaningExactly(l, graphs, threshold, order);
  }
}
