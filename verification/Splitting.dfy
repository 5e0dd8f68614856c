/** passes.py, `reduce_complexity` and `split_node`. */
module Splitting {
  import opened Digraph
  import opened Lists
  import opened Sgir

  const PART_LENGTH: nat := 7

  /** `f"{id}__part{i}"` for the two parts of the default split. */
  function PartId(id: Id, first: bool): Id {
    id + (if first then "__part0" else "__part1")
  }

  predicate NeedsSplit(n: Node) {
    n.complexity.CUBIC? || n.complexity.EXPONENTIAL?
  }

  function SplitNode(n: Node): seq<Node> {
    [n.(id := PartId(n.id, true), complexity := LINEAR), n.(id := PartId(n.id, false), complexity := LINEAR)]
  }

  function SplitNodes(nodes: seq<Node>): seq<Node> {
    if nodes == [] then []
    else
      var last := nodes[|nodes| - 1];
      SplitNodes(nodes[..|nodes| - 1]) + (if NeedsSplit(last) then SplitNode(last) else [last])
  }

  function SplitIds(nodes: seq<Node>): set<Id> {
    set n | n in nodes && NeedsSplit(n) :: n.id
  }

  /** Keys of the `splits` dictionary: split ids in order of first appearance. */
  function SplitOrder(nodes: seq<Node>): (r: seq<Id>)
    ensures Distinct(r) && forall v :: v in r <==> v in SplitIds(nodes)
  {
    if nodes == [] then []
    else
      var last := nodes[|nodes| - 1];
      assert nodes == nodes[..|nodes| - 1] + [last];
      var before := SplitOrder(nodes[..|nodes| - 1]);
      if NeedsSplit(last) && last.id !in before then before + [last.id] else before
  }

  /** Outgoing edges leave the first part, incoming edges enter the last. */
  function Redirect(split: set<Id>, e: Edge): Edge {
    Edge(if e.source in split then PartId(e.source, true) else e.source,
         if e.target in split then PartId(e.target, false) else e.target,
         e.edgeType)
  }

  function RedirectAll(split: set<Id>, edges: seq<Edge>): seq<Edge> {
    seq(|edges|, i requires 0 <= i < |edges| => Redirect(split, edges[i]))
  }

  function Chain(id: Id): Edge {
    Edge(PartId(id, true), PartId(id, false), CONTROL)
  }

  function Chains(ids: seq<Id>): seq<Edge> {
    seq(|ids|, i requires 0 <= i < |ids| => Chain(ids[i]))
  }

  function SplitLayer(l: Layer): Layer {
    var split := SplitIds(l.nodes);
    if split == {} then l else
      Layer(l.tag, SplitNodes(l.nodes), RedirectAll(split, l.edges) + Chains(SplitOrder(l.nodes)))
  }

  function ReduceComplexity(g: Software): Software {
    Software(seq(|g.layers|, i requires 0 <= i < |g.layers| => SplitLayer(g.layers[i])))
  }

  // ------------------------------------------------------------- the pass

  lemma NothingSplit(nodes: seq<Node>)
    requires SplitIds(nodes) == {}
    ensures SplitOrder(nodes) == []
  {
    DistinctSize(SplitOrder(nodes), SplitIds(nodes));
  }

  lemma NoKeys(nodes: seq<Node>)
    requires SplitOrder(nodes) == []
    ensures SplitIds(nodes) == {}
  {
    assert SplitIds(nodes) == Elements(SplitOrder(nodes));
  }

  /** Rewrites the copied edge list in place, position by position. */
  method RewriteEdges(edges: seq<Edge>, splits: seq<Id>) returns (newEdges: seq<Edge>)
    ensures newEdges == RedirectAll(Elements(splits), edges)
  {
    newEdges := edges;
    for i := 0 to |edges|
      invariant |newEdges| == |edges|
      invariant forall k | 0 <= k < i :: newEdges[k] == Redirect(Elements(splits), edges[k])
      invariant forall k | i <= k < |edges| :: newEdges[k] == edges[k]
    {
      var edge := edges[i];
      if edge.source in splits {
        newEdges := newEdges[i := Edge(PartId(edge.source, true), edge.target, edge.edgeType)];
      }
      if edge.target in splits {
        newEdges := newEdges[i := Edge(newEdges[i].source, PartId(edge.target, false), edge.edgeType)];
      }
    }
  }

  method SplitAll(nodes: seq<Node>) returns (newNodes: seq<Node>, splits: seq<Id>)
    ensures newNodes == SplitNodes(nodes) && splits == SplitOrder(nodes)
  {
    newNodes, splits := [], [];
    for i := 0 to |nodes|
      invariant newNodes == SplitNodes(nodes[..i]) && splits == SplitOrder(nodes[..i])
    {
      var node := nodes[i];
      assert nodes[..i + 1][..i] == nodes[..i];
      if !NeedsSplit(node) {
        newNodes := newNodes + [node];
        continue;
      }
      if node.id !in splits {
        splits := splits + [node.id];
      }
      newNodes := newNodes + SplitNode(node);
    }
    assert nodes[..|nodes|] == nodes;
  }

  method AddChains(edges: seq<Edge>, splits: seq<Id>) returns (newEdges: seq<Edge>)
    ensures newEdges == edges + Chains(splits)
  {
    newEdges := edges;
    for j := 0 to |splits|
      invariant newEdges == edges + Chains(splits[..j])
    {
      newEdges := newEdges + [Chain(splits[j])];
    }
    assert splits[..|splits|] == splits;
  }

  method SplitOneLayer(l: Layer) returns (r: Layer)
    ensures r == SplitLayer(l)
  {
    var newNodes, splits := SplitAll(l.nodes);
    if splits == [] {
      NoKeys(l.nodes);
      return l;
    }
    var newEdges := RewriteEdges(l.edges, splits);
    assert Elements(splits) == SplitIds(l.nodes);
    newEdges := AddChains(newEdges, splits);
    assert splits[0] in splits;
    r := Layer(l.tag, newNodes, newEdges);
  }

  /** Maps a part of a split node back to the node, and every other id to itself. */
  function Contract(split: set<Id>, id: Id): Id {
    if |id| >= PART_LENGTH && id[|id| - PART_LENGTH..] in ["__part0", "__part1"] && id[..|id| - PART_LENGTH] in split
    then id[..|id| - PART_LENGTH] else id
  }

  lemma ContractPart(split: set<Id>, id: Id, first: bool)
    ensures PartId(id, first)[..|PartId(id, first)| - PART_LENGTH] == id
    ensures id in split ==> Contract(split, PartId(id, first)) == id
  {
    var p := PartId(id, first);
    assert p[|p| - PART_LENGTH..] == if first then "__part0" else "__part1";
  }

  /** Part ids determine the node and the part. */
  lemma PartIdInjective(x: Id, y: Id, first: bool, second: bool)
    ensures PartId(x, first) == PartId(y, second) ==> x == y && first == second
  {
    ContractPart({}, x, first);
    ContractPart({}, y, second);
    var p, q := PartId(x, first), PartId(y, second);
    assert p[|p| - 1] == if first then '0' else '1';
    assert q[|q| - 1] == if second then '0' else '1';
  }

  /** The edges of the split layer: the input edges redirected, then the chains. */
  lemma SplitLayerEdges(l: Layer)
    ensures SplitLayer(l).edges == RedirectAll(SplitIds(l.nodes), l.edges) + Chains(SplitOrder(l.nodes))
  {
    if SplitIds(l.nodes) == {} {
      NothingSplit(l.nodes);
      assert RedirectAll({}, l.edges) == l.edges;
    }
  }

  // ------------------------------------------ the pass, in terms of nodes

  predicate TooDear(n: Node) {
    n.complexity.CUBIC? || n.complexity.EXPONENTIAL?
  }

  ghost predicate IsSplit(l: Layer, v: Id) {
    exists n :: n in l.nodes && n.id == v && TooDear(n)
  }

  /** x stands for n afterwards: n itself, or one of its two linear parts. */
  predicate StandsFor(x: Node, n: Node) {
    if TooDear(n)
    then x == Node(n.id + "__part0", n.nodeType, LINEAR, n.sideEffects, n.failureModes)
         || x == Node(n.id + "__part1", n.nodeType, LINEAR, n.sideEffects, n.failureModes)
    else x == n
  }

  /** Where an edge leaves from, or arrives, afterwards. */
  ghost function LeavesFrom(l: Layer, v: Id): Id {
    if IsSplit(l, v) then v + "__part0" else v
  }

  ghost function ArrivesAt(l: Layer, v: Id): Id {
    if IsSplit(l, v) then v + "__part1" else v
  }

  /** Every node is kept or replaced by its two parts; every edge keeps its place and its type
      and is moved to the parts; behind them each split node has one edge between its parts. */
  ghost predicate SplitsExactly(l: Layer, m: Layer) {
    && m.tag == l.tag
    && (forall x :: x in m.nodes <==> exists n :: n in l.nodes && StandsFor(x, n))
    && |m.nodes| == |l.nodes| + |Filter(TooDear, l.nodes)|
    && |m.edges| >= |l.edges|
    && (forall k | 0 <= k < |l.edges| ::
          m.edges[k] == Edge(LeavesFrom(l, l.edges[k].source), ArrivesAt(l, l.edges[k].target), l.edges[k].edgeType))
    && Distinct(m.edges[|l.edges|..])
    && (forall e :: e in m.edges[|l.edges|..] <==>
          exists v :: IsSplit(l, v) && e == Edge(v + "__part0", v + "__part1", CONTROL))
  }

  lemma {:induction false} InSplitNodes(nodes: seq<Node>, m: Node)
    ensures m in SplitNodes(nodes) <==>
      || (m in nodes && !NeedsSplit(m))
      || (exists n :: n in nodes && NeedsSplit(n) && m in SplitNode(n))
  {
    if nodes != [] {
      var k := |nodes| - 1;
      assert nodes == nodes[..k] + [nodes[k]];
      InSplitNodes(nodes[..k], m);
      if NeedsSplit(nodes[k]) {
        assert nodes[k] in nodes;
      }
    }
  }

  lemma SplitNodesStand(nodes: seq<Node>, x: Node)
    ensures x in SplitNodes(nodes) <==> exists n :: n in nodes && StandsFor(x, n)
  {
    InSplitNodes(nodes, x);
    forall n ensures NeedsSplit(n) ==> (x in SplitNode(n) <==> StandsFor(x, n)) {
    }
    if x in nodes && !NeedsSplit(x) {
      assert StandsFor(x, x);
    }
  }

  lemma {:induction false} SplitNodesCount(nodes: seq<Node>)
    ensures |SplitNodes(nodes)| == |nodes| + |Filter(TooDear, nodes)|
    decreases |nodes|
  {
    if nodes != [] {
      var k := |nodes| - 1;
      SplitNodesCount(nodes[..k]);
      assert nodes == nodes[..k] + [nodes[k]];
      FilterSnoc(TooDear, nodes[..k], nodes[k]);
    }
  }

  lemma ChainsStand(l: Layer)
    ensures Distinct(Chains(SplitOrder(l.nodes)))
    ensures forall e :: e in Chains(SplitOrder(l.nodes)) <==>
              exists v :: IsSplit(l, v) && e == Edge(v + "__part0", v + "__part1", CONTROL)
  {
    var keys := SplitOrder(l.nodes);
    forall v ensures v in keys <==> IsSplit(l, v) {
    }
    forall i, j | 0 <= i < j < |keys| ensures Chains(keys)[i] != Chains(keys)[j] {
      PartIdInjective(keys[i], keys[j], true, true);
    }
    forall e | e in Chains(keys) ensures exists v :: IsSplit(l, v) && e == Edge(v + "__part0", v + "__part1", CONTROL) {
      var i :| 0 <= i < |keys| && Chains(keys)[i] == e;
      assert keys[i] in keys;
    }
    forall v | IsSplit(l, v) ensures Edge(v + "__part0", v + "__part1", CONTROL) in Chains(keys) {
      var i :| 0 <= i < |keys| && keys[i] == v;
      assert Chains(keys)[i] == Chain(v);
    }
  }

  lemma {:induction false} SplitNothing(nodes: seq<Node>)
    requires forall n | n in nodes :: !NeedsSplit(n)
    ensures SplitNodes(nodes) == nodes
    decreases |nodes|
  {
    if nodes != [] {
      SplitNothing(nodes[..|nodes| - 1]);
      assert nodes == nodes[..|nodes| - 1] + [nodes[|nodes| - 1]];
    }
  }

  lemma SplitLayerNodes(l: Layer)
    ensures SplitLayer(l).nodes == SplitNodes(l.nodes) && SplitLayer(l).tag == l.tag
  {
    if SplitIds(l.nodes) == {} {
      forall n | n in l.nodes ensures !NeedsSplit(n) {
        assert NeedsSplit(n) ==> n.id in SplitIds(l.nodes);
      }
      SplitNothing(l.nodes);
    }
  }

  lemma SplitNodesExactly(l: Layer)
    ensures forall x :: x in SplitLayer(l).nodes <==> exists n :: n in l.nodes && StandsFor(x, n)
    ensures SplitLayer(l).tag == l.tag && |SplitLayer(l).nodes| == |l.nodes| + |Filter(TooDear, l.nodes)|
  {
    SplitLayerNodes(l);
    SplitNodesCount(l.nodes);
    forall x ensures x in SplitLayer(l).nodes <==> exists n :: n in l.nodes && StandsFor(x, n) {
      SplitNodesStand(l.nodes, x);
    }
  }

  lemma RedirectExactly(l: Layer, e: Edge)
    ensures Redirect(SplitIds(l.nodes), e) == Edge(LeavesFrom(l, e.source), ArrivesAt(l, e.target), e.edgeType)
  {
    forall v ensures v in SplitIds(l.nodes) <==> IsSplit(l, v) {
    }
  }

  lemma SplitEdgesExactly(l: Layer)
    ensures var edges := SplitLayer(l).edges;
            && |edges| >= |l.edges| && edges[|l.edges|..] == Chains(SplitOrder(l.nodes))
            && forall k | 0 <= k < |l.edges| ::
                 edges[k] == Edge(LeavesFrom(l, l.edges[k].source), ArrivesAt(l, l.edges[k].target), l.edges[k].edgeType)
  {
    SplitLayerEdges(l);
    forall k | 0 <= k < |l.edges|
      ensures SplitLayer(l).edges[k] == Edge(LeavesFrom(l, l.edges[k].source), ArrivesAt(l, l.edges[k].target), l.edges[k].edgeType)
    {
      RedirectExactly(l, l.edges[k]);
    }
  }

  lemma SplitLayerExactly(l: Layer)
    ensures SplitsExactly(l, SplitLayer(l))
  {
    SplitNodesExactly(l);
    SplitEdgesExactly(l);
    ChainsStand(l);
  }

  lemma ReduceComplexityExactly(g: Software)
    ensures forall i | 0 <= i < |g.layers| :: SplitsExactly(g.layers[i], ReduceComplexity(g).layers[i])
  {
    forall i | 0 <= i < |g.layers| ensures SplitsExactly(g.layers[i], ReduceComplexity(g).layers[i]) {
      SplitLayerExactly(g.layers[i]);
    }
  }

  method ReduceComplexityPass(graph: Software) returns (working: Software)
    ensures working == ReduceComplexity(graph) && |working.layers| == |graph.layers|
    ensures forall i | 0 <= i < |graph.layers| :: SplitsExactly(graph.layers[i], working.layers[i])
  {
    ReduceComplexityExactly(graph);
    working := graph;
    for i := 0 to |graph.layers|
      invariant |working.layers| == |graph.layers|
      invariant forall k | 0 <= k < i :: working.layers[k] == SplitLayer(graph.layers[k])
      invariant forall k | i <= k < |graph.layers| :: working.layers[k] == graph.layers[k]
    {
      var split := SplitOneLayer(working.layers[i]);
      working := Software(working.layers[i := split]);
    }
  }

  // ----------------------------------------------------------- contraction

  /** No id of `ids` looks like a part of a split node. */
  ghost predicate PartsFresh(split: set<Id>, ids: set<Id>) {
    forall x, first | x in split :: PartId(x, first) !in ids
  }

  lemma ContractFresh(split: set<Id>, ids: set<Id>, v: Id)
    requires PartsFresh(split, ids) && v in ids
    ensures Contract(split, v) == v
  {
    if |v| >= PART_LENGTH {
      var x := v[..|v| - PART_LENGTH];
      assert v == x + v[|v| - PART_LENGTH..];
      assert x in split ==> PartId(x, true) != v && PartId(x, false) != v;
    }
  }

  /** The edge at position i. */
  lemma SplitEdgeAt(l: Layer, i: nat)
    requires i < |SplitLayer(l).edges|
    ensures |SplitLayer(l).edges| == |l.edges| + |SplitOrder(l.nodes)|
    ensures SplitLayer(l).edges[i] == if i < |l.edges| then Redirect(SplitIds(l.nodes), l.edges[i])
                                      else Chain(SplitOrder(l.nodes)[i - |l.edges|])
  {
    SplitLayerEdges(l);
  }

  lemma ContractRedirected(own: set<Id>, split: set<Id>, ids: set<Id>, e: Edge)
    requires own <= split && PartsFresh(split, ids) && e.source in ids && e.target in ids
    ensures Contract(split, Redirect(own, e).source) == e.source
    ensures Contract(split, Redirect(own, e).target) == e.target
  {
    ContractFresh(split, ids, e.source);
    ContractFresh(split, ids, e.target);
    ContractPart(split, e.source, true);
    ContractPart(split, e.target, false);
  }

  /** Contracting the parts gives back the input edges in order, then one self-edge per
      split node. `split` may hold the split ids of other layers too. */
  lemma SplitContracts(l: Layer, split: set<Id>, i: nat)
    requires SplitIds(l.nodes) <= split && PartsFresh(split, LayerGraph(l).nodes)
    requires i < |SplitLayer(l).edges|
    ensures var e := SplitLayer(l).edges[i]; var keys := SplitOrder(l.nodes);
            && |SplitLayer(l).edges| == |l.edges| + |keys|
            && (i < |l.edges| ==>
                  && (Contract(split, e.source), Contract(split, e.target)) == (l.edges[i].source, l.edges[i].target)
                  && e.edgeType == l.edges[i].edgeType)
            && (|l.edges| <= i ==>
                  (Contract(split, e.source), Contract(split, e.target)) == (keys[i - |l.edges|], keys[i - |l.edges|]))
  {
    SplitEdgeAt(l, i);
    if i < |l.edges| {
      assert l.edges[i] in l.edges;
      ContractRedirected(SplitIds(l.nodes), split, LayerGraph(l).nodes, l.edges[i]);
    } else {
      var x := SplitOrder(l.nodes)[i - |l.edges|];
      assert x in SplitOrder(l.nodes);
      ContractPart(split, x, true);
      ContractPart(split, x, false);
    }
  }

  /** Arc by arc: every arc of the split layer contracts to an input arc or to a self-arc. */
  lemma SplitLayerArc(l: Layer, split: set<Id>, a: Arc)
    requires SplitIds(l.nodes) <= split && PartsFresh(split, LayerGraph(l).nodes)
    requires a in LayerArcs(SplitLayer(l))
    ensures var b := (Contract(split, a.0), Contract(split, a.1)); b in LayerArcs(l) || b.0 == b.1
  {
    var m := SplitLayer(l);
    var e :| e in m.edges && a == (e.source, e.target);
    var i :| 0 <= i < |m.edges| && m.edges[i] == e;
    SplitContracts(l, split, i);
    if i < |l.edges| {
      assert l.edges[i] in l.edges;
    }
  }

  // ---------------------------------------------- what splitting cuts off

  function Avoiding(E: set<Arc>, split: set<Id>): set<Arc> {
    set a | a in E && a.0 !in split && a.1 !in split
  }

  function RedirectArc(split: set<Id>, a: Arc): Arc {
    (if a.0 in split then PartId(a.0, true) else a.0, if a.1 in split then PartId(a.1, false) else a.1)
  }

  lemma SplitArcShape(l: Layer, a: Arc)
    ensures a in LayerArcs(SplitLayer(l)) <==>
      || (exists b :: b in LayerArcs(l) && a == RedirectArc(SplitIds(l.nodes), b))
      || (exists x :: x in SplitIds(l.nodes) && a == (PartId(x, true), PartId(x, false)))
  {
    var m := SplitLayer(l);
    var split := SplitIds(l.nodes);
    var keys := SplitOrder(l.nodes);
    var redirected := RedirectAll(split, l.edges);
    SplitLayerEdges(l);
    if a in LayerArcs(m) {
      var e :| e in m.edges && a == (e.source, e.target);
      if e in redirected {
        var i :| 0 <= i < |l.edges| && redirected[i] == e;
        assert (l.edges[i].source, l.edges[i].target) in LayerArcs(l);
      } else {
        var i :| 0 <= i < |keys| && Chains(keys)[i] == e;
        assert keys[i] in keys;
      }
    }
    if b :| b in LayerArcs(l) && a == RedirectArc(split, b) {
      var e :| e in l.edges && b == (e.source, e.target);
      var i :| 0 <= i < |l.edges| && l.edges[i] == e;
      assert redirected[i] == Redirect(split, e) && redirected[i] in m.edges;
    }
    if x :| x in split && a == (PartId(x, true), PartId(x, false)) {
      assert x in keys;
      var i :| 0 <= i < |keys| && keys[i] == x;
      assert Chains(keys)[i] == Chain(x) && Chains(keys)[i] in m.edges;
    }
  }

  /** An arc leaving an ordinary node of the split layer either avoids the split nodes
      or ends in a last part; a last part leads nowhere. */
  lemma SplitStep(l: Layer, a: Arc)
    requires PartsFresh(SplitIds(l.nodes), LayerGraph(l).nodes)
    requires a in LayerArcs(SplitLayer(l))
    ensures forall x | x in SplitIds(l.nodes) :: a.0 != PartId(x, false)
    ensures a.0 in LayerGraph(l).nodes ==>
              a in Avoiding(LayerArcs(l), SplitIds(l.nodes)) || exists x :: x in SplitIds(l.nodes) && a.1 == PartId(x, false)
  {
    var split := SplitIds(l.nodes);
    SplitArcShape(l, a);
    LayerGraphWellFormed(l);
    forall x | x in split ensures a.0 != PartId(x, false) {
      forall y { PartIdInjective(y, x, true, false); }
    }
    if b :| b in LayerArcs(l) && a == RedirectArc(split, b) {
      assert b.0 in LayerGraph(l).nodes && b.1 in LayerGraph(l).nodes;
    }
  }

  lemma {:induction false} SplitPath(l: Layer, p: seq<Id>)
    requires PartsFresh(SplitIds(l.nodes), LayerGraph(l).nodes)
    requires IsPath(LayerArcs(SplitLayer(l)), p) && p[0] in LayerGraph(l).nodes && p[|p| - 1] in LayerGraph(l).nodes
    ensures Reach(Avoiding(LayerArcs(l), SplitIds(l.nodes)), p[0], p[|p| - 1])
    decreases |p|
  {
    var E := Avoiding(LayerArcs(l), SplitIds(l.nodes));
    if |p| == 1 {
      ReachRefl(E, p[0]);
    } else {
      var a := (p[0], p[1]);
      SplitStep(l, a);
      if a in E {
        LayerGraphWellFormed(l);
        assert a in LayerArcs(l);
        SplitPath(l, p[1..]);
        ReachStep(E, p[0], p[1], p[|p| - 1]);
      } else if |p| > 2 {
        PathNode(LayerArcs(SplitLayer(l)), p, 1);
        SplitStep(l, (p[1], p[2]));
      }
    }
  }

  /** Splitting is exact about what it cuts: between nodes that are not split, reachability
      afterwards is reachability along walks that pass no split node. */
  lemma SplitReachability(l: Layer, u: Id, v: Id)
    requires PartsFresh(SplitIds(l.nodes), LayerGraph(l).nodes)
    requires u in LayerGraph(l).nodes - SplitIds(l.nodes) && v in LayerGraph(l).nodes - SplitIds(l.nodes)
    ensures Reach(LayerArcs(SplitLayer(l)), u, v) <==> Reach(Avoiding(LayerArcs(l), SplitIds(l.nodes)), u, v)
  {
    var F := LayerArcs(SplitLayer(l));
    var E := Avoiding(LayerArcs(l), SplitIds(l.nodes));
    if Reach(F, u, v) {
      var p :| PathFromTo(F, p, u, v);
      SplitPath(l, p);
    }
    if Reach(E, u, v) {
      forall a | a in E ensures a in F {
        assert RedirectArc(SplitIds(l.nodes), a) == a;
        SplitArcShape(l, a);
      }
      ReachMonotone(E, F, u, v);
    }
  }

  /** Nothing enters a first part and nothing leaves a last part. */
  lemma PartsAreEnds(l: Layer, a: Arc)
    requires PartsFresh(SplitIds(l.nodes), LayerGraph(l).nodes) && a in LayerArcs(SplitLayer(l))
    ensures forall x | x in SplitIds(l.nodes) :: a.1 != PartId(x, true) && a.0 != PartId(x, false)
  {
    var split := SplitIds(l.nodes);
    SplitArcShape(l, a);
    SplitStep(l, a);
    LayerGraphWellFormed(l);
    forall x | x in split ensures a.1 != PartId(x, true) {
      forall y { PartIdInjective(y, x, false, true); }
      if b :| b in LayerArcs(l) && a == RedirectArc(split, b) {
        assert b.1 in LayerGraph(l).nodes;
      }
    }
  }

  /** What enters a last part: the first part, and whatever led to the node. */
  lemma IntoLastPart(l: Layer, w: Id, x: Id)
    requires PartsFresh(SplitIds(l.nodes), LayerGraph(l).nodes) && x in SplitIds(l.nodes)
    ensures (w, PartId(x, false)) in LayerArcs(SplitLayer(l)) <==>
      || w == PartId(x, true)
      || (w in LayerGraph(l).nodes - SplitIds(l.nodes) && (w, x) in LayerArcs(l))
      || exists y :: y in SplitIds(l.nodes) && w == PartId(y, true) && (y, x) in LayerArcs(l)
  {
    var split, a := SplitIds(l.nodes), (w, PartId(x, false));
    SplitArcShape(l, a);
    LayerGraphWellFormed(l);
    forall y { PartIdInjective(y, x, false, false); }
    if b :| b in LayerArcs(l) && a == RedirectArc(split, b) {
      assert b.0 in LayerGraph(l).nodes && b.1 in LayerGraph(l).nodes;
      assert b.1 == x && b == (b.0, x);
    }
    if w in LayerGraph(l).nodes - split && (w, x) in LayerArcs(l) {
      assert RedirectArc(split, (w, x)) == a;
    }
    if y :| y in split && w == PartId(y, true) && (y, x) in LayerArcs(l) {
      assert RedirectArc(split, (y, x)) == a;
    }
  }

  /** What a first part leads to: the last part, and whatever the node led to. */
  lemma FromFirstPart(l: Layer, x: Id, w: Id)
    requires PartsFresh(SplitIds(l.nodes), LayerGraph(l).nodes) && x in SplitIds(l.nodes)
    ensures (PartId(x, true), w) in LayerArcs(SplitLayer(l)) <==>
      || w == PartId(x, false)
      || (w in LayerGraph(l).nodes - SplitIds(l.nodes) && (x, w) in LayerArcs(l))
      || exists y :: y in SplitIds(l.nodes) && w == PartId(y, false) && (x, y) in LayerArcs(l)
  {
    var split, a := SplitIds(l.nodes), (PartId(x, true), w);
    SplitArcShape(l, a);
    LayerGraphWellFormed(l);
    forall y { PartIdInjective(y, x, true, true); }
    if b :| b in LayerArcs(l) && a == RedirectArc(split, b) {
      assert b.0 in LayerGraph(l).nodes && b.1 in LayerGraph(l).nodes;
      assert b.0 == x && b == (x, b.1);
    }
    if w in LayerGraph(l).nodes - split && (x, w) in LayerArcs(l) {
      assert RedirectArc(split, (x, w)) == a;
    }
    if y :| y in split && w == PartId(y, false) && (x, y) in LayerArcs(l) {
      assert RedirectArc(split, (x, y)) == a;
    }
  }

  /** A walk that avoids split nodes leads from u to a predecessor of x. */
  ghost predicate ReachesBefore(l: Layer, u: Id, x: Id) {
    exists w :: w in LayerGraph(l).nodes - SplitIds(l.nodes) && Reach(Avoiding(LayerArcs(l), SplitIds(l.nodes)), u, w)
                && (w, x) in LayerArcs(l)
  }

  lemma NoWayToFirstPart(l: Layer, u: Id, x: Id)
    requires PartsFresh(SplitIds(l.nodes), LayerGraph(l).nodes) && x in SplitIds(l.nodes) && u in LayerGraph(l).nodes
    ensures !Reach(LayerArcs(SplitLayer(l)), u, PartId(x, true))
  {
    var F := LayerArcs(SplitLayer(l));
    if Reach(F, u, PartId(x, true)) {
      var w := ReachLast(F, u, PartId(x, true));
      PartsAreEnds(l, (w, PartId(x, true)));
    }
  }

  /** An unsplit node reaches the last part of x exactly if a walk that avoids split nodes leads
      to a predecessor of x; of the first part it reaches none. */
  lemma SplitReachesParts(l: Layer, u: Id, x: Id)
    requires PartsFresh(SplitIds(l.nodes), LayerGraph(l).nodes) && x in SplitIds(l.nodes)
    requires u in LayerGraph(l).nodes - SplitIds(l.nodes)
    ensures !Reach(LayerArcs(SplitLayer(l)), u, PartId(x, true))
    ensures Reach(LayerArcs(SplitLayer(l)), u, PartId(x, false)) <==> ReachesBefore(l, u, x)
  {
    var F, split := LayerArcs(SplitLayer(l)), SplitIds(l.nodes);
    NoWayToFirstPart(l, u, x);
    if Reach(F, u, PartId(x, false)) {
      assert u != PartId(x, false);
      var w := ReachLast(F, u, PartId(x, false));
      IntoLastPart(l, w, x);
      if y :| y in split && w == PartId(y, true) {
        NoWayToFirstPart(l, u, y);
      }
      SplitReachability(l, u, w);
    }
    if ReachesBefore(l, u, x) {
      var w :| w in LayerGraph(l).nodes - split && Reach(Avoiding(LayerArcs(l), split), u, w) && (w, x) in LayerArcs(l);
      SplitReachability(l, u, w);
      IntoLastPart(l, w, x);
      ReachArc(F, w, PartId(x, false));
      ReachTrans(F, u, w, PartId(x, false));
    }
  }

  lemma NoWayFromLastPart(l: Layer, x: Id, v: Id)
    requires PartsFresh(SplitIds(l.nodes), LayerGraph(l).nodes) && x in SplitIds(l.nodes) && v in LayerGraph(l).nodes
    ensures !Reach(LayerArcs(SplitLayer(l)), PartId(x, false), v)
  {
    var F := LayerArcs(SplitLayer(l));
    if Reach(F, PartId(x, false), v) {
      var w := ReachFirst(F, PartId(x, false), v);
      PartsAreEnds(l, (PartId(x, false), w));
    }
  }

  /** And the first part of x reaches an unsplit node exactly if a walk that avoids split nodes
      leads there from a successor of x. */
  lemma SplitReachesFromParts(l: Layer, x: Id, v: Id)
    requires PartsFresh(SplitIds(l.nodes), LayerGraph(l).nodes) && x in SplitIds(l.nodes)
    requires v in LayerGraph(l).nodes - SplitIds(l.nodes)
    ensures !Reach(LayerArcs(SplitLayer(l)), PartId(x, false), v)
    ensures Reach(LayerArcs(SplitLayer(l)), PartId(x, true), v) <==>
      exists w :: w in LayerGraph(l).nodes - SplitIds(l.nodes) && (x, w) in LayerArcs(l)
                  && Reach(Avoiding(LayerArcs(l), SplitIds(l.nodes)), w, v)
  {
    var F, E, split := LayerArcs(SplitLayer(l)), Avoiding(LayerArcs(l), SplitIds(l.nodes)), SplitIds(l.nodes);
    NoWayFromLastPart(l, x, v);
    if Reach(F, PartId(x, true), v) {
      assert v != PartId(x, true);
      var w := ReachFirst(F, PartId(x, true), v);
      FromFirstPart(l, x, w);
      if y :| y in split && w == PartId(y, false) {
        NoWayFromLastPart(l, y, v);
      }
      SplitReachability(l, w, v);
    }
    if w :| w in LayerGraph(l).nodes - split && (x, w) in LayerArcs(l) && Reach(E, w, v) {
      SplitReachability(l, w, v);
      FromFirstPart(l, x, w);
      ReachStep(F, PartId(x, true), w, v);
    }
  }

  lemma OnlyItself(l: Layer, x: Id, v: Id)
    requires PartsFresh(SplitIds(l.nodes), LayerGraph(l).nodes) && x in SplitIds(l.nodes)
    requires Reach(LayerArcs(SplitLayer(l)), PartId(x, false), v)
    ensures v == PartId(x, false)
  {
    var F := LayerArcs(SplitLayer(l));
    if v != PartId(x, false) {
      var w := ReachFirst(F, PartId(x, false), v);
      PartsAreEnds(l, (PartId(x, false), w));
    }
  }

  /** Between a first part and a last part only the chain, an edge between the nodes, or a walk
      that avoids split nodes leads. */
  lemma SplitReachesBetweenParts(l: Layer, x: Id, y: Id)
    requires PartsFresh(SplitIds(l.nodes), LayerGraph(l).nodes) && x in SplitIds(l.nodes) && y in SplitIds(l.nodes)
    ensures Reach(LayerArcs(SplitLayer(l)), PartId(x, true), PartId(y, false)) <==>
      || x == y || (x, y) in LayerArcs(l)
      || exists w :: w in LayerGraph(l).nodes - SplitIds(l.nodes) && (x, w) in LayerArcs(l) && ReachesBefore(l, w, y)
  {
    var F, split, last := LayerArcs(SplitLayer(l)), SplitIds(l.nodes), PartId(y, false);
    PartIdInjective(x, y, true, false);
    if Reach(F, PartId(x, true), last) {
      var w := ReachFirst(F, PartId(x, true), last);
      FromFirstPart(l, x, w);
      if w in LayerGraph(l).nodes - split {
        SplitReachesParts(l, w, y);
      } else {
        var z :| z in split && w == PartId(z, false) && (z == x || (x, z) in LayerArcs(l));
        PartIdInjective(z, y, false, false);
        OnlyItself(l, z, last);
      }
    }
    if x == y || (x, y) in LayerArcs(l) {
      FromFirstPart(l, x, last);
      ReachArc(F, PartId(x, true), last);
    } else if w :| w in LayerGraph(l).nodes - split && (x, w) in LayerArcs(l) && ReachesBefore(l, w, y) {
      SplitReachesParts(l, w, y);
      FromFirstPart(l, x, w);
      ReachStep(F, PartId(x, true), w, last);
    }
  }

  // -------------------------------------------------------- well-formedness

  lemma PartDeclared(l: Layer, x: Id, first: bool)
    requires x in SplitIds(l.nodes)
    ensures PartId(x, first) in NodeIds(SplitLayer(l))
  {
    var n :| n in l.nodes && NeedsSplit(n) && n.id == x;
    var m := SplitNode(n)[if first then 0 else 1];
    assert m in SplitNode(n);
    InSplitNodes(l.nodes, m);
    assert m in SplitLayer(l).nodes;
  }

  lemma UnsplitDeclared(l: Layer, v: Id)
    requires v in NodeIds(l) - SplitIds(l.nodes)
    ensures v in NodeIds(SplitLayer(l))
  {
    var n :| n in l.nodes && n.id == v;
    InSplitNodes(l.nodes, n);
    assert SplitIds(l.nodes) != {} ==> n in SplitLayer(l).nodes;
  }

  /** An id stays declared or is a part of a split node. */
  lemma SplitLayerIds(l: Layer, v: Id)
    requires v in NodeIds(SplitLayer(l))
    ensures v in NodeIds(l) || exists x, first :: x in SplitIds(l.nodes) && v == PartId(x, first)
  {
    if SplitIds(l.nodes) != {} {
      var m :| m in SplitLayer(l).nodes && m.id == v;
      InSplitNodes(l.nodes, m);
      if n :| n in l.nodes && NeedsSplit(n) && m in SplitNode(n) {
        assert n.id in SplitIds(l.nodes);
        assert v == PartId(n.id, true) || v == PartId(n.id, false);
      }
    }
  }

  function UnsplitIds(nodes: seq<Node>): set<Id> {
    set n | n in nodes && !NeedsSplit(n) :: n.id
  }

  lemma PartsDiffer(l: Layer, k: nat, m: Node, m': Node)
    requires UniqueIds(l) && PartsFresh(SplitIds(l.nodes), UnsplitIds(l.nodes)) && k == |l.nodes| - 1
    requires (m in l.nodes[..k] && !NeedsSplit(m)) || exists n :: n in l.nodes[..k] && NeedsSplit(n) && m in SplitNode(n)
    requires m' in if NeedsSplit(l.nodes[k]) then SplitNode(l.nodes[k]) else [l.nodes[k]]
    ensures m.id != m'.id
  {
    var last := l.nodes[k];
    if m in l.nodes[..k] && !NeedsSplit(m) {
      assert m.id in UnsplitIds(l.nodes);
      assert NeedsSplit(last) ==> last.id in SplitIds(l.nodes);
    } else {
      var n :| n in l.nodes[..k] && NeedsSplit(n) && m in SplitNode(n);
      assert n.id in SplitIds(l.nodes) && n.id != last.id;
      assert !NeedsSplit(last) ==> last.id in UnsplitIds(l.nodes);
      PartIdInjective(n.id, last.id, true, true);
      PartIdInjective(n.id, last.id, true, false);
      PartIdInjective(n.id, last.id, false, true);
      PartIdInjective(n.id, last.id, false, false);
    }
  }

  lemma {:induction false} SplitUnique(l: Layer)
    requires UniqueIds(l) && PartsFresh(SplitIds(l.nodes), UnsplitIds(l.nodes))
    ensures UniqueIds(l.(nodes := SplitNodes(l.nodes)))
    decreases |l.nodes|
  {
    if l.nodes != [] {
      var k := |l.nodes| - 1;
      var before := l.(nodes := l.nodes[..k]);
      assert l.nodes == l.nodes[..k] + [l.nodes[k]];
      SplitUnique(before);
      var added := if NeedsSplit(l.nodes[k]) then SplitNode(l.nodes[k]) else [l.nodes[k]];
      forall m, m' | m in SplitNodes(before.nodes) && m' in added ensures m.id != m'.id {
        InSplitNodes(before.nodes, m);
        PartsDiffer(l, k, m, m');
      }
      if NeedsSplit(l.nodes[k]) {
        PartIdInjective(l.nodes[k].id, l.nodes[k].id, true, false);
      }
    }
  }

  /** The id stands at two places of the list. */
  ghost predicate Twice(nodes: seq<Node>, id: Id) {
    exists i, j :: 0 <= i < j < |nodes| && nodes[i].id == id && nodes[j].id == id
  }

  lemma TwiceAppended(a: seq<Node>, b: seq<Node>, m: Node, m': Node)
    requires m in a && m' in b && m.id == m'.id
    ensures Twice(a + b, m.id)
  {
    var i :| 0 <= i < |a| && a[i] == m;
    var j :| 0 <= j < |b| && b[j] == m';
    assert (a + b)[i] == m && (a + b)[|a| + j] == m';
  }

  lemma TwiceBefore(a: seq<Node>, b: seq<Node>, id: Id)
    requires Twice(a, id)
    ensures Twice(a + b, id)
  {
    var i, j :| 0 <= i < j < |a| && a[i].id == id && a[j].id == id;
    assert (a + b)[i] == a[i] && (a + b)[j] == a[j];
  }

  lemma PartInList(nodes: seq<Node>, n: Node, first: bool) returns (m: Node)
    requires n in nodes && NeedsSplit(n)
    ensures m in SplitNode(n) && m in SplitNodes(nodes) && m.id == PartId(n.id, first)
  {
    m := SplitNode(n)[if first then 0 else 1];
    InSplitNodes(nodes, m);
  }

  /** A part with the id of an unsplit node stands beside it. */
  lemma {:induction false} PartClashes(nodes: seq<Node>, n: Node, first: bool, u: Node)
    requires n in nodes && NeedsSplit(n) && u in nodes && !NeedsSplit(u) && u.id == PartId(n.id, first)
    ensures Twice(SplitNodes(nodes), u.id)
    decreases |nodes|
  {
    var k := |nodes| - 1;
    var before, last := nodes[..k], nodes[k];
    assert nodes == before + [last];
    var added := if NeedsSplit(last) then SplitNode(last) else [last];
    if n in before && u in before {
      PartClashes(before, n, first, u);
      TwiceBefore(SplitNodes(before), added, u.id);
    } else if n in before {
      var m := PartInList(before, n, first);
      TwiceAppended(SplitNodes(before), added, m, u);
    } else {
      InSplitNodes(before, u);
      var m := SplitNode(n)[if first then 0 else 1];
      TwiceAppended(SplitNodes(before), added, u, m);
    }
  }

  lemma RedirectedDeclared(l: Layer, b: Arc)
    requires NoDangling(l) && b in LayerArcs(l)
    ensures var a := RedirectArc(SplitIds(l.nodes), b); a.0 in NodeIds(SplitLayer(l)) && a.1 in NodeIds(SplitLayer(l))
  {
    var e :| e in l.edges && b == (e.source, e.target);
    if b.0 in SplitIds(l.nodes) { PartDeclared(l, b.0, true); } else { UnsplitDeclared(l, b.0); }
    if b.1 in SplitIds(l.nodes) { PartDeclared(l, b.1, false); } else { UnsplitDeclared(l, b.1); }
  }

  lemma SplitDeclares(l: Layer)
    requires NoDangling(l)
    ensures NoDangling(SplitLayer(l))
  {
    var m := SplitLayer(l);
    var split := SplitIds(l.nodes);
    if split != {} {
      forall e | e in m.edges ensures e.source in NodeIds(m) && e.target in NodeIds(m) {
        var a := (e.source, e.target);
        assert a in LayerArcs(m);
        SplitArcShape(l, a);
        if x :| x in split && a == (PartId(x, true), PartId(x, false)) {
          PartDeclared(l, x, true);
          PartDeclared(l, x, false);
        } else {
          var b :| b in LayerArcs(l) && a == RedirectArc(split, b);
          RedirectedDeclared(l, b);
        }
      }
    }
  }

  /** Splitting keeps a layer well-formed exactly if no part id is the id of an unsplit node. */
  lemma SplitKeepsWellFormedExactly(l: Layer)
    requires WellFormedLayer(l)
    ensures WellFormedLayer(SplitLayer(l)) <==> PartsFresh(SplitIds(l.nodes), UnsplitIds(l.nodes))
  {
    var split, unsplit := SplitIds(l.nodes), UnsplitIds(l.nodes);
    SplitDeclares(l);
    if PartsFresh(split, unsplit) && split != {} {
      SplitUnique(l);
    }
    if UniqueIds(SplitLayer(l)) {
      forall x, first | x in split ensures PartId(x, first) !in unsplit {
        if PartId(x, first) in unsplit {
          var n :| n in l.nodes && NeedsSplit(n) && n.id == x;
          var u :| u in l.nodes && !NeedsSplit(u) && u.id == PartId(x, first);
          PartClashes(l.nodes, n, first, u);
        }
      }
    }
  }
}
