/** The Software Graph IR: typed nodes and edges in up to eight layers, and the
    directed graphs that a layer and the merged layers stand for. */
module Sgir {
  import opened Digraph
  import opened Lists

  datatype EdgeType = CALL | DATA | CONTROL | DEPENDENCY | EVENT | NETWORK | DATABASE
                    | STATE_TRANSITION | IMPORT | INHERIT | IMPLEMENT | COMPOSE

  datatype GraphLayer = CallLayer | DataFlowLayer | ControlFlowLayer | DependencyLayer
                      | StateTransitionLayer | ResourceLayer | SecurityLayer | DeploymentLayer

  datatype NodeType = FUNCTION | METHOD | CLASS | MODULE | PACKAGE | SERVICE | ENDPOINT | EVENT_HANDLER
                    | MIDDLEWARE | DATAMODEL | CONFIG | INFRASTRUCTURE | UNKNOWN_TYPE

  datatype Complexity = CONSTANT | LOGARITHMIC | LINEAR | LINEARITHMIC | QUADRATIC | CUBIC | EXPONENTIAL
                      | UNKNOWN_COMPLEXITY
  {
    /** COMPLEXITY_ORDER */
    function Rank(): nat {
      match this
      case CONSTANT => 0
      case LOGARITHMIC => 1
      case LINEAR => 2
      case LINEARITHMIC => 3
      case QUADRATIC => 4
      case CUBIC => 5
      case EXPONENTIAL => 6
      case UNKNOWN_COMPLEXITY => 7
    }
  }

  /** From cheapest to dearest; a node of unknown complexity counts as dearer than any. */
  lemma RankOrder()
    ensures CONSTANT.Rank() < LOGARITHMIC.Rank() < LINEAR.Rank() < LINEARITHMIC.Rank()
    ensures LINEARITHMIC.Rank() < QUADRATIC.Rank() < CUBIC.Rank() < EXPONENTIAL.Rank() < UNKNOWN_COMPLEXITY.Rank()
  {
  }

  datatype Node = Node(id: Id, nodeType: NodeType, complexity: Complexity,
                       sideEffects: seq<string>, failureModes: seq<string>)

  /** A node no pass has a reason to keep or to split. */
  function Plain(id: Id): Node {
    Node(id, FUNCTION, CONSTANT, [], [])
  }

  datatype Edge = Edge(source: Id, target: Id, edgeType: EdgeType)

  datatype Layer = Layer(tag: GraphLayer, nodes: seq<Node>, edges: seq<Edge>)

  /** The dictionary of layers in insertion order; `Keyed` says its keys are distinct. */
  datatype Software = Software(layers: seq<Layer>) {
    ghost predicate Keyed() {
      forall i, j | 0 <= i < j < |layers| :: layers[i].tag != layers[j].tag
    }
  }

  // ------------------------------------------------------------ one layer

  function NodeIds(l: Layer): set<Id> {
    set n | n in l.nodes :: n.id
  }

  function LayerArcs(l: Layer): set<Arc> {
    set e | e in l.edges :: (e.source, e.target)
  }

  /** Edge endpoints become nodes even when the layer does not declare them. */
  function LayerGraph(l: Layer): DiGraph {
    DiGraph(NodeIds(l) + (set e | e in l.edges :: e.source) + (set e | e in l.edges :: e.target),
            LayerArcs(l))
  }

  ghost predicate NoDangling(l: Layer) {
    forall e | e in l.edges :: e.source in NodeIds(l) && e.target in NodeIds(l)
  }

  ghost predicate UniqueIds(l: Layer) {
    forall i, j | 0 <= i < j < |l.nodes| :: l.nodes[i].id != l.nodes[j].id
  }

  /** What the layer builders establish and the passes are meant to keep. */
  ghost predicate WellFormedLayer(l: Layer) {
    UniqueIds(l) && NoDangling(l)
  }

  lemma LayerGraphWellFormed(l: Layer)
    ensures LayerGraph(l).WellFormed()
  {
    forall a | a in LayerArcs(l) ensures a.0 in LayerGraph(l).nodes && a.1 in LayerGraph(l).nodes {
      var e :| e in l.edges && a == (e.source, e.target);
    }
  }

  // ----------------------------------------------------------- all layers

  /** Ids declared by some layer (verification.py's `node_ids`). */
  ghost function Declared(g: Software): set<Id> {
    set i, n | 0 <= i < |g.layers| && n in g.layers[i].nodes :: n.id
  }

  /** (source, target) pairs of every layer (verification.py's `edge_keys`). */
  ghost function Arcs(g: Software): set<Arc> {
    set i, e | 0 <= i < |g.layers| && e in g.layers[i].edges :: (e.source, e.target)
  }

  /** All layers merged into one directed graph. */
  ghost function Merged(g: Software): DiGraph {
    DiGraph(set i, v | 0 <= i < |g.layers| && v in LayerGraph(g.layers[i]).nodes :: v, Arcs(g))
  }

  /** One graph per layer, keyed by layer. */
  ghost function LayerGraphs(layers: seq<Layer>): map<GraphLayer, DiGraph> {
    if layers == [] then map[]
    else var l := layers[|layers| - 1]; LayerGraphs(layers[..|layers| - 1])[l.tag := LayerGraph(l)]
  }

  lemma {:induction false} LayerGraphsAt(g: Software, n: nat, i: nat)
    requires g.Keyed() && i < n <= |g.layers|
    ensures var gs := LayerGraphs(g.layers[..n]); g.layers[i].tag in gs && gs[g.layers[i].tag] == LayerGraph(g.layers[i])
  {
    assert g.layers[..n][..n - 1] == g.layers[..n - 1];
    if i < n - 1 {
      LayerGraphsAt(g, n - 1, i);
    }
  }

  lemma ArcFromLayer(g: Software, i: nat, a: Arc)
    requires i < |g.layers| && a in LayerArcs(g.layers[i])
    ensures a in Arcs(g)
  {
    var e :| e in g.layers[i].edges && a == (e.source, e.target);
  }

  lemma LayerOfArc(g: Software, a: Arc) returns (i: nat, e: Edge)
    requires a in Arcs(g)
    ensures i < |g.layers| && e in g.layers[i].edges && a == (e.source, e.target)
    ensures a in LayerArcs(g.layers[i])
  {
    i, e :| 0 <= i < |g.layers| && e in g.layers[i].edges && a == (e.source, e.target);
  }

  lemma LayerOfId(g: Software, v: Id) returns (i: nat)
    requires v in Declared(g)
    ensures i < |g.layers| && v in NodeIds(g.layers[i])
  {
    var j, n :| 0 <= j < |g.layers| && n in g.layers[j].nodes && n.id == v;
    i := j;
  }

  lemma MergedWellFormed(g: Software)
    ensures Merged(g).WellFormed()
    ensures Declared(g) <= Merged(g).nodes
  {
    forall a | a in Arcs(g) ensures a.0 in Merged(g).nodes && a.1 in Merged(g).nodes {
      var i, e := LayerOfArc(g, a);
      LayerGraphWellFormed(g.layers[i]);
    }
    forall v | v in Declared(g) ensures v in Merged(g).nodes {
      var i := LayerOfId(g, v);
      assert v in LayerGraph(g.layers[i]).nodes;
    }
  }

  // ---------------------------------------------- order of a Python set

  /** The order in which Python walks a set: some listing of its elements,
      a fixed function of the set. */
  ghost predicate IsListing(order: set<Id> -> seq<Id>) {
    forall s: set<Id> :: Distinct(order(s)) && (forall v :: v in order(s) <==> v in s)
  }
}
