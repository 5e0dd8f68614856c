/** layers/security_graph.py: the security layer of a list of entities. Python's `lower` and
    the order in which it walks the pattern set are parameters. */
module SecurityGraph {
  import opened Digraph
  import opened Lists
  import opened Sgir
  import opened Wrappers
  import opened Entities

  const SENSITIVE_DATA_PATTERNS: set<string> :=
    {"password", "secret", "token", "key", "credential", "private", "ssn", "credit_card", "email", "pii", "phi"}

  predicate OccursAt(text: string, part: string, i: int) {
    0 <= i <= |text| - |part| && text[i..i + |part|] == part
  }

  predicate Contains(text: string, part: string) {
    exists i :: 0 <= i <= |text| && OccursAt(text, part, i)
  }

  function SecurityId(pattern: string): Id {
    "security::" + pattern
  }

  function SensitiveId(name: string): Id {
    "sensitive::" + name
  }

  predicate IsSensitiveData(name: string, lower: string -> string) {
    exists p :: p in SENSITIVE_DATA_PATTERNS && Contains(lower(name), p)
  }

  /** The first pattern walked that the text contains. */
  function FirstPattern(patterns: seq<string>, text: string): Option<string> {
    if patterns == [] then None
    else if Contains(text, patterns[0]) then Some(patterns[0])
    else FirstPattern(patterns[1..], text)
  }

  /** The patterns found among the names, each once, in order of first appearance. */
  function Found(names: seq<string>, patterns: seq<string>, lower: string -> string): seq<string> {
    if names == [] then []
    else
      var before := Found(names[..|names| - 1], patterns, lower);
      match FirstPattern(patterns, lower(names[|names| - 1]))
      case Some(p) => if p in before then before else before + [p]
      case None => before
  }

  function AuthPatterns(e: Entity, patterns: seq<string>, lower: string -> string): seq<string> {
    Found(e.calls + e.references + e.decorators, patterns, lower)
  }

  method DetectAuthPatterns(e: Entity, patterns: seq<string>, lower: string -> string) returns (found: seq<string>)
    ensures found == AuthPatterns(e, patterns, lower)
  {
    found := [];
    var names := e.calls + e.references + e.decorators;
    for i := 0 to |names|
      invariant found == Found(names[..i], patterns, lower)
    {
      assert names[..i + 1][..i] == names[..i];
      ghost var before := found;
      var text := lower(names[i]);
      for j := 0 to |patterns|
        invariant found == before && FirstPattern(patterns, text) == FirstPattern(patterns[j..], text)
      {
        if Contains(text, patterns[j]) {
          if patterns[j] !in found {
            found := found + [patterns[j]];
          }
          break;
        }
      }
    }
    assert names[..|names|] == names;
  }

  /** Each found pattern is the first that some name contains, and is found once. */
  lemma {:induction false} FoundMeans(names: seq<string>, patterns: seq<string>, lower: string -> string)
    ensures Distinct(Found(names, patterns, lower))
    ensures forall p :: p in Found(names, patterns, lower) <==>
              exists name :: name in names && FirstPattern(patterns, lower(name)) == Some(p)
    decreases |names|
  {
    if names != [] {
      var rest := names[..|names| - 1];
      FoundMeans(rest, patterns, lower);
      assert names == rest + [names[|names| - 1]];
    }
  }

  // ----------------------------------------------------------------- build

  ghost predicate IsConcernEdge(x: Edge, e: Entity, patterns: seq<string>, lower: string -> string) {
    x.source == IdOf(e) && x.edgeType == EVENT && exists p :: p in AuthPatterns(e, patterns, lower) && x.target == SecurityId(p)
  }

  ghost predicate IsAccessEdge(x: Edge, e: Entity, lower: string -> string) {
    x.source == IdOf(e) && x.edgeType == DATA && exists r :: r in e.references && IsSensitiveData(r, lower) && x.target == SensitiveId(r)
  }

  function EntityIds(e: Entity, patterns: seq<string>, lower: string -> string): set<Id> {
    {IdOf(e)} + (set p | p in AuthPatterns(e, patterns, lower) :: SecurityId(p))
    + (set r | r in e.references && IsSensitiveData(r, lower) :: SensitiveId(r))
  }

  function ConcernNode(pattern: string): Node {
    Node(SecurityId(pattern), MIDDLEWARE, UNKNOWN_COMPLEXITY, [], [])
  }

  function AccessNode(name: string): Node {
    Node(SensitiveId(name), DATAMODEL, UNKNOWN_COMPLEXITY, [], [])
  }

  function ConcernNodes(found: seq<string>): seq<Node> {
    if found == [] then [] else ConcernNodes(found[..|found| - 1]) + [ConcernNode(found[|found| - 1])]
  }

  function ConcernEdges(e: Entity, found: seq<string>): seq<Edge> {
    if found == [] then []
    else ConcernEdges(e, found[..|found| - 1]) + [Edge(IdOf(e), SecurityId(found[|found| - 1]), EVENT)]
  }

  function AccessNodes(references: seq<string>, lower: string -> string): seq<Node> {
    if references == [] then []
    else
      var r := references[|references| - 1];
      AccessNodes(references[..|references| - 1], lower)
      + (if IsSensitiveData(r, lower) then [AccessNode(r)] else [])
  }

  function AccessEdges(e: Entity, references: seq<string>, lower: string -> string): seq<Edge> {
    if references == [] then []
    else
      var r := references[|references| - 1];
      AccessEdges(e, references[..|references| - 1], lower)
      + (if IsSensitiveData(r, lower) then [Edge(IdOf(e), SensitiveId(r), DATA)] else [])
  }

  function EntityNodes(e: Entity, patterns: seq<string>, lower: string -> string): seq<Node> {
    [Node(IdOf(e), CallableType(e), UNKNOWN_COMPLEXITY, AuthPatterns(e, patterns, lower), [])]
    + ConcernNodes(AuthPatterns(e, patterns, lower)) + AccessNodes(e.references, lower)
  }

  /** The nodes every callable entity brings, in order; repeated ids and all. */
  function SecurityNodes(entities: seq<Entity>, patterns: seq<string>, lower: string -> string): seq<Node> {
    if entities == [] then []
    else
      var e := entities[|entities| - 1];
      SecurityNodes(entities[..|entities| - 1], patterns, lower) + (if Callable(e) then EntityNodes(e, patterns, lower) else [])
  }

  lemma ConcernEdgesSnoc(e: Entity, found: seq<string>, p: string)
    ensures ConcernEdges(e, found + [p]) == ConcernEdges(e, found) + [Edge(IdOf(e), SecurityId(p), EVENT)]
  {
    assert (found + [p])[..|found|] == found;
  }

  lemma ConcernNodesSnoc(nodes: seq<Node>, found: seq<string>, p: string)
    ensures JoinAll(nodes, ConcernNodes(found + [p])) == Joined(JoinAll(nodes, ConcernNodes(found)), ConcernNode(p))
  {
    assert (found + [p])[..|found|] == found;
    JoinSnoc(nodes, ConcernNodes(found), ConcernNode(p));
  }

  lemma {:induction false} ConcernEdgesAre(e: Entity, found: seq<string>, x: Edge)
    ensures x in ConcernEdges(e, found) <==>
              x.source == IdOf(e) && x.edgeType == EVENT && exists p :: p in found && x.target == SecurityId(p)
    decreases |found|
  {
    if found != [] {
      var k := |found| - 1;
      ConcernEdgesAre(e, found[..k], x);
      assert found == found[..k] + [found[k]];
    }
  }

  lemma {:induction false} AccessEdgesAre(e: Entity, references: seq<string>, lower: string -> string, x: Edge)
    ensures x in AccessEdges(e, references, lower) <==>
              x.source == IdOf(e) && x.edgeType == DATA
              && exists r :: r in references && IsSensitiveData(r, lower) && x.target == SensitiveId(r)
    decreases |references|
  {
    if references != [] {
      var k := |references| - 1;
      AccessEdgesAre(e, references[..k], lower, x);
      assert references == references[..k] + [references[k]];
    }
  }

  lemma AccessEdgesSnoc(e: Entity, references: seq<string>, r: string, lower: string -> string)
    ensures AccessEdges(e, references + [r], lower)
         == if IsSensitiveData(r, lower) then AccessEdges(e, references, lower) + [Edge(IdOf(e), SensitiveId(r), DATA)]
            else AccessEdges(e, references, lower)
  {
    assert (references + [r])[..|references|] == references;
  }

  lemma AccessNodesSnoc(nodes: seq<Node>, references: seq<string>, r: string, lower: string -> string)
    ensures JoinAll(nodes, AccessNodes(references + [r], lower))
         == if IsSensitiveData(r, lower) then Joined(JoinAll(nodes, AccessNodes(references, lower)), AccessNode(r))
            else JoinAll(nodes, AccessNodes(references, lower))
  {
    var before := AccessNodes(references, lower);
    assert (references + [r])[..|references|] == references;
    assert before + [] == before;
    JoinSnoc(nodes, before, AccessNode(r));
  }

  lemma SecurityNodesSnoc(entities: seq<Entity>, e: Entity, patterns: seq<string>, lower: string -> string)
    ensures FirstEach(SecurityNodes(entities + [e], patterns, lower))
         == if Callable(e) then JoinAll(FirstEach(SecurityNodes(entities, patterns, lower)), EntityNodes(e, patterns, lower))
            else FirstEach(SecurityNodes(entities, patterns, lower))
  {
    var before := SecurityNodes(entities, patterns, lower);
    assert (entities + [e])[..|entities|] == entities;
    assert before + [] == before;
    JoinTwice([], before, EntityNodes(e, patterns, lower));
  }

  lemma JoinThrice(nodes: seq<Node>, node: Node, a: seq<Node>, b: seq<Node>)
    ensures JoinAll(JoinAll(Joined(nodes, node), a), b) == JoinAll(nodes, [node] + a + b)
  {
    assert JoinAll(nodes, [node]) == Joined(nodes, node) by {
      assert [node][..0] == [];
    }
    JoinTwice(nodes, [node], a);
    JoinTwice(nodes, [node] + a, b);
  }

  lemma {:induction false} AccessNodesIds(references: seq<string>, lower: string -> string, v: Id)
    ensures Taken(AccessNodes(references, lower), v) <==> exists r :: r in references && IsSensitiveData(r, lower) && v == SensitiveId(r)
    decreases |references|
  {
    if references != [] {
      var k := |references| - 1;
      AccessNodesIds(references[..k], lower, v);
      TakenSnoc(AccessNodes(references[..k], lower), AccessNode(references[k]), v);
      assert AccessNodes(references[..k], lower) + [] == AccessNodes(references[..k], lower);
      assert references == references[..k] + [references[k]];
    }
  }

  lemma {:induction false} ConcernNodesIds(found: seq<string>, v: Id)
    ensures Taken(ConcernNodes(found), v) <==> exists p :: p in found && v == SecurityId(p)
    decreases |found|
  {
    if found != [] {
      var k := |found| - 1;
      ConcernNodesIds(found[..k], v);
      TakenSnoc(ConcernNodes(found[..k]), ConcernNode(found[k]), v);
      assert found == found[..k] + [found[k]];
    }
  }

  lemma EntityNodesIds(e: Entity, patterns: seq<string>, lower: string -> string, v: Id)
    ensures Taken(EntityNodes(e, patterns, lower), v) <==> v in EntityIds(e, patterns, lower)
  {
    var found := AuthPatterns(e, patterns, lower);
    var node := Node(IdOf(e), CallableType(e), UNKNOWN_COMPLEXITY, found, []);
    assert [node][0].id == IdOf(e);
    TakenAppend([node], ConcernNodes(found), v);
    TakenAppend([node] + ConcernNodes(found), AccessNodes(e.references, lower), v);
    ConcernNodesIds(found, v);
    AccessNodesIds(e.references, lower, v);
  }

  lemma SecurityNodesTaken(entities: seq<Entity>, e: Entity, patterns: seq<string>, lower: string -> string, v: Id)
    ensures Taken(SecurityNodes(entities + [e], patterns, lower), v)
       <==> Taken(SecurityNodes(entities, patterns, lower), v) || (Callable(e) && v in EntityIds(e, patterns, lower))
  {
    var before := SecurityNodes(entities, patterns, lower);
    assert (entities + [e])[..|entities|] == entities;
    assert before + [] == before;
    EntityNodesIds(e, patterns, lower, v);
    TakenAppend(before, EntityNodes(e, patterns, lower), v);
  }

  lemma {:induction false} SecurityNodesIds(entities: seq<Entity>, patterns: seq<string>, lower: string -> string, v: Id)
    ensures Taken(SecurityNodes(entities, patterns, lower), v)
       <==> exists e :: e in entities && Callable(e) && v in EntityIds(e, patterns, lower)
    decreases |entities|
  {
    if entities != [] {
      var k := |entities| - 1;
      SecurityNodesIds(entities[..k], patterns, lower, v);
      SecurityNodesTaken(entities[..k], entities[k], patterns, lower, v);
      assert entities == entities[..k] + [entities[k]];
    }
  }

  method AddConcerns(e: Entity, found: seq<string>, nodes: seq<Node>, ids: set<Id>)
    returns (nodes': seq<Node>, ids': set<Id>, edges: seq<Edge>)
    requires Drafted(nodes, ids) && IdOf(e) in ids
    ensures Drafted(nodes', ids') && nodes' == JoinAll(nodes, ConcernNodes(found))
    ensures ids <= ids' && Within(edges, ids')
    ensures edges == ConcernEdges(e, found)
  {
    nodes', ids', edges := nodes, ids, [];
    for i := 0 to |found|
      invariant Drafted(nodes', ids') && nodes' == JoinAll(nodes, ConcernNodes(found[..i]))
      invariant ids <= ids' && Within(edges, ids') && edges == ConcernEdges(e, found[..i])
    {
      assert found[..i + 1] == found[..i] + [found[i]];
      ConcernNodesSnoc(nodes, found[..i], found[i]);
      ConcernEdgesSnoc(e, found[..i], found[i]);
      nodes', ids' := Declare(nodes', ids', ConcernNode(found[i]));
      edges := edges + [Edge(IdOf(e), SecurityId(found[i]), EVENT)];
    }
    assert found[..|found|] == found;
  }

  method AddAccesses(e: Entity, lower: string -> string, nodes: seq<Node>, ids: set<Id>)
    returns (nodes': seq<Node>, ids': set<Id>, edges: seq<Edge>)
    requires Drafted(nodes, ids) && IdOf(e) in ids
    ensures Drafted(nodes', ids') && nodes' == JoinAll(nodes, AccessNodes(e.references, lower))
    ensures ids <= ids' && Within(edges, ids')
    ensures edges == AccessEdges(e, e.references, lower)
  {
    nodes', ids', edges := nodes, ids, [];
    for i := 0 to |e.references|
      invariant Drafted(nodes', ids') && nodes' == JoinAll(nodes, AccessNodes(e.references[..i], lower))
      invariant ids <= ids' && Within(edges, ids')
      invariant edges == AccessEdges(e, e.references[..i], lower)
    {
      var r := e.references[i];
      assert e.references[..i + 1] == e.references[..i] + [r];
      AccessNodesSnoc(nodes, e.references[..i], r, lower);
      AccessEdgesSnoc(e, e.references[..i], r, lower);
      if IsSensitiveData(r, lower) {
        nodes', ids' := Declare(nodes', ids', AccessNode(r));
        edges := edges + [Edge(IdOf(e), SensitiveId(r), DATA)];
      }
    }
    assert e.references[..|e.references|] == e.references;
  }

  function EntityEdges(e: Entity, patterns: seq<string>, lower: string -> string): seq<Edge> {
    ConcernEdges(e, AuthPatterns(e, patterns, lower)) + AccessEdges(e, e.references, lower)
  }

  function Exposures(patterns: seq<string>, lower: string -> string): Entity -> seq<Edge> {
    (e: Entity) => if Callable(e) then EntityEdges(e, patterns, lower) else []
  }

  lemma InExposures(entities: seq<Entity>, patterns: seq<string>, lower: string -> string, x: Edge)
    ensures x in EdgesOver(Exposures(patterns, lower), entities)
       <==> exists e :: e in entities && Callable(e) && (IsConcernEdge(x, e, patterns, lower) || IsAccessEdge(x, e, lower))
  {
    var exposures := Exposures(patterns, lower);
    InEdgesOver(exposures, entities, x);
    forall e ensures x in exposures(e) <==> Callable(e) && (IsConcernEdge(x, e, patterns, lower) || IsAccessEdge(x, e, lower)) {
      ConcernEdgesAre(e, AuthPatterns(e, patterns, lower), x);
      AccessEdgesAre(e, e.references, lower, x);
    }
  }

  method AddEntity(e: Entity, patterns: seq<string>, lower: string -> string, nodes: seq<Node>, ids: set<Id>)
    returns (nodes': seq<Node>, ids': set<Id>, edges: seq<Edge>)
    requires Drafted(nodes, ids)
    ensures Drafted(nodes', ids') && nodes' == JoinAll(nodes, EntityNodes(e, patterns, lower))
    ensures ids <= ids' && Within(edges, ids')
    ensures edges == EntityEdges(e, patterns, lower)
  {
    var found := DetectAuthPatterns(e, patterns, lower);
    var node := Node(IdOf(e), CallableType(e), UNKNOWN_COMPLEXITY, found, []);
    nodes', ids' := Declare(nodes, ids, node);
    var concerns, accesses;
    nodes', ids', concerns := AddConcerns(e, found, nodes', ids');
    nodes', ids', accesses := AddAccesses(e, lower, nodes', ids');
    JoinThrice(nodes, node, ConcernNodes(found), AccessNodes(e.references, lower));
    edges := concerns + accesses;
  }

  lemma SecurityNodesNext(entities: seq<Entity>, i: nat, patterns: seq<string>, lower: string -> string)
    requires i < |entities|
    ensures FirstEach(SecurityNodes(entities[..i + 1], patterns, lower))
         == if Callable(entities[i])
            then JoinAll(FirstEach(SecurityNodes(entities[..i], patterns, lower)), EntityNodes(entities[i], patterns, lower))
            else FirstEach(SecurityNodes(entities[..i], patterns, lower))
  {
    assert entities[..i + 1] == entities[..i] + [entities[i]];
    SecurityNodesSnoc(entities[..i], entities[i], patterns, lower);
  }

  /** The entity at position i, if it is callable. */
  method AddNext(entities: seq<Entity>, i: nat, patterns: seq<string>, lower: string -> string,
                 nodes: seq<Node>, ids: set<Id>, edges: seq<Edge>)
    returns (nodes': seq<Node>, ids': set<Id>, edges': seq<Edge>)
    requires i < |entities| && Drafted(nodes, ids) && nodes == FirstEach(SecurityNodes(entities[..i], patterns, lower))
    requires Within(edges, ids) && edges == EdgesOver(Exposures(patterns, lower), entities[..i])
    ensures Drafted(nodes', ids') && nodes' == FirstEach(SecurityNodes(entities[..i + 1], patterns, lower))
    ensures Within(edges', ids') && edges' == EdgesOver(Exposures(patterns, lower), entities[..i + 1])
  {
    nodes', ids', edges' := nodes, ids, edges;
    SecurityNodesNext(entities, i, patterns, lower);
    EdgesOverNext(Exposures(patterns, lower), entities, i);
    if Callable(entities[i]) {
      var more;
      nodes', ids', more := AddEntity(entities[i], patterns, lower, nodes, ids);
      edges' := edges + more;
    }
  }

  method AddEntities(entities: seq<Entity>, patterns: seq<string>, lower: string -> string)
    returns (nodes: seq<Node>, ids: set<Id>, edges: seq<Edge>)
    ensures Drafted(nodes, ids) && nodes == FirstEach(SecurityNodes(entities, patterns, lower))
    ensures Within(edges, ids) && edges == EdgesOver(Exposures(patterns, lower), entities)
  {
    nodes, ids, edges := [], {}, [];
    for i := 0 to |entities|
      invariant Drafted(nodes, ids) && nodes == FirstEach(SecurityNodes(entities[..i], patterns, lower))
      invariant Within(edges, ids) && edges == EdgesOver(Exposures(patterns, lower), entities[..i])
    {
      nodes, ids, edges := AddNext(entities, i, patterns, lower, nodes, ids, edges);
    }
    assert entities[..|entities|] == entities;
  }

  /** A well-formed layer with exactly the nodes and edges of its callable entities, found
      concerns and sensitive references, in order. */
  method Build(entities: seq<Entity>, patterns: seq<string>, lower: string -> string) returns (l: Layer)
    ensures l.tag == SecurityLayer && WellFormedLayer(l) && l.nodes == FirstEach(SecurityNodes(entities, patterns, lower))
    ensures forall v :: v in NodeIds(l) <==> exists e :: e in entities && Callable(e) && v in EntityIds(e, patterns, lower)
    ensures l.edges == EdgesOver(Exposures(patterns, lower), entities)
    ensures forall x :: x in l.edges <==>
              exists e :: e in entities && Callable(e) && (IsConcernEdge(x, e, patterns, lower) || IsAccessEdge(x, e, lower))
  {
    var nodes, ids, edges := AddEntities(entities, patterns, lower);
    forall v ensures v in ids <==> exists e :: e in entities && Callable(e) && v in EntityIds(e, patterns, lower) {
      FirstTaken(SecurityNodes(entities, patterns, lower), v);
      SecurityNodesIds(entities, patterns, lower, v);
    }
    forall x ensures x in edges <==>
                       exists e :: e in entities && Callable(e) && (IsConcernEdge(x, e, patterns, lower) || IsAccessEdge(x, e, lower)) {
      InExposures(entities, patterns, lower, x);
    }
    DraftWellFormed(SecurityLayer, nodes, edges, ids);
    l := Layer(SecurityLayer, nodes, edges);
  }
}
