/** layers/call_graph.py: the call layer of a list of entities. */
module CallGraph {
  import opened Digraph
  import opened Sgir
  import opened Wrappers
  import opened Entities

  /** The first declared entity with the name. */
  function FirstNamed(name: string, entities: seq<Entity>, ids: set<Id>): Option<Id> {
    if entities == [] then None
    else if entities[0].name == name && IdOf(entities[0]) in ids then Some(IdOf(entities[0]))
    else FirstNamed(name, entities[1..], ids)
  }

  function CallTarget(name: string, caller: Entity, entities: seq<Entity>, ids: set<Id>): Option<Id> {
    if FirstNamed(name, entities, ids).Some? then FirstNamed(name, entities, ids)
    else
      var id := MakeNodeId(caller.filePath, caller.parent + "." + name);
      if caller.parent != "" && id in ids then Some(id) else None
  }

  ghost predicate NamedAt(name: string, entities: seq<Entity>, ids: set<Id>, k: int, v: Id)
    requires 0 <= k < |entities|
  {
    && entities[k].name == name && v == entities[k].filePath + "::" + entities[k].name && v in ids
    && forall j | 0 <= j < k && entities[j].name == name :: entities[j].filePath + "::" + entities[j].name !in ids
  }

  /** v is the declared id of the first entity of the name that is declared. */
  ghost predicate NamedFirst(name: string, entities: seq<Entity>, ids: set<Id>, v: Id) {
    exists k :: 0 <= k < |entities| && NamedAt(name, entities, ids, k, v)
  }

  lemma {:induction false} FirstNamedIs(name: string, entities: seq<Entity>, ids: set<Id>, v: Id)
    ensures FirstNamed(name, entities, ids) == Some(v) <==> NamedFirst(name, entities, ids, v)
  {
    if entities != [] {
      var rest := entities[1..];
      FirstNamedIs(name, rest, ids, v);
      if entities[0].name == name && IdOf(entities[0]) in ids {
        assert IdOf(entities[0]) == v ==> NamedAt(name, entities, ids, 0, v);
      } else {
        if k :| 0 <= k < |rest| && NamedAt(name, rest, ids, k, v) {
          forall j | 0 <= j < k + 1 && entities[j].name == name ensures entities[j].filePath + "::" + entities[j].name !in ids {
            assert j > 0 ==> entities[j] == rest[j - 1];
          }
          assert NamedAt(name, entities, ids, k + 1, v);
        }
        if k :| 0 <= k < |entities| && NamedAt(name, entities, ids, k, v) {
          assert forall j | 0 <= j < k - 1 :: rest[j] == entities[j + 1];
          assert NamedAt(name, rest, ids, k - 1, v);
        }
      }
    }
  }

  /** A declared entity of the name comes before a member of the caller's class. */
  lemma CallTargetMeans(name: string, caller: Entity, entities: seq<Entity>, ids: set<Id>)
    ensures forall v :: CallTarget(name, caller, entities, ids) == Some(v) <==>
              || NamedFirst(name, entities, ids, v)
              || ((forall w :: !NamedFirst(name, entities, ids, w)) && caller.parent != "" && v in ids
                  && v == caller.filePath + "::" + (caller.parent + "." + name))
  {
    forall v ensures FirstNamed(name, entities, ids) == Some(v) <==> NamedFirst(name, entities, ids, v) {
      FirstNamedIs(name, entities, ids, v);
    }
    if FirstNamed(name, entities, ids).Some? {
      assert NamedFirst(name, entities, ids, FirstNamed(name, entities, ids).value);
    }
  }

  method FindCallTarget(name: string, caller: Entity, entities: seq<Entity>, ids: set<Id>) returns (target: Option<Id>)
    ensures target == CallTarget(name, caller, entities, ids)
    ensures forall v :: target == Some(v) <==>
              || NamedFirst(name, entities, ids, v)
              || ((forall w :: !NamedFirst(name, entities, ids, w)) && caller.parent != "" && v in ids
                  && v == caller.filePath + "::" + (caller.parent + "." + name))
  {
    CallTargetMeans(name, caller, entities, ids);
    for i := 0 to |entities|
      invariant FirstNamed(name, entities, ids) == FirstNamed(name, entities[i..], ids)
    {
      if entities[i].name == name {
        var id := IdOf(entities[i]);
        if id in ids {
          return Some(id);
        }
      }
    }
    if caller.parent != "" {
      var id := MakeNodeId(caller.filePath, caller.parent + "." + name);
      if id in ids {
        return Some(id);
      }
    }
    return None;
  }

  /** A call resolves, always to a declared node, exactly if some entity of that name is
      declared or the caller's class declares it. */
  lemma {:induction false} FirstNamedMeans(name: string, entities: seq<Entity>, ids: set<Id>)
    ensures FirstNamed(name, entities, ids).Some? ==> FirstNamed(name, entities, ids).value in ids
    ensures FirstNamed(name, entities, ids).Some? <==> exists e :: e in entities && e.name == name && IdOf(e) in ids
  {
    if entities != [] {
      FirstNamedMeans(name, entities[1..], ids);
      if e :| e in entities && e.name == name && IdOf(e) in ids && e != entities[0] {
        assert e in entities[1..];
      }
    }
  }

  ghost predicate Resolved(x: Edge, name: string, e: Entity, entities: seq<Entity>, ids: set<Id>) {
    x.source == IdOf(e) && CallTarget(name, e, entities, ids) == Some(x.target) && x.target != x.source && x.edgeType == CALL
  }

  /** An edge for one of the entity's calls that resolves to another node. */
  ghost predicate IsCallEdge(x: Edge, e: Entity, entities: seq<Entity>, ids: set<Id>) {
    exists name :: name in e.calls && Resolved(x, name, e, entities, ids)
  }

  /** The edges of some calls, in order. */
  function CallList(e: Entity, calls: seq<string>, entities: seq<Entity>, ids: set<Id>): seq<Edge> {
    if calls == [] then []
    else
      var target := CallTarget(calls[|calls| - 1], e, entities, ids);
      CallList(e, calls[..|calls| - 1], entities, ids)
      + (if target.Some? && target.value != IdOf(e) then [Edge(IdOf(e), target.value, CALL)] else [])
  }

  function CallsFrom(entities: seq<Entity>, ids: set<Id>): Entity -> seq<Edge> {
    (e: Entity) => if Callable(e) then CallList(e, e.calls, entities, ids) else []
  }

  lemma {:induction false} InCallList(e: Entity, calls: seq<string>, entities: seq<Entity>, ids: set<Id>, x: Edge)
    ensures x in CallList(e, calls, entities, ids) <==> exists name :: name in calls && Resolved(x, name, e, entities, ids)
    decreases |calls|
  {
    if calls != [] {
      var k := |calls| - 1;
      InCallList(e, calls[..k], entities, ids, x);
      assert calls[k] in calls && forall name :: name in calls ==> name in calls[..k] || name == calls[k];
      assert x in CallList(e, calls, entities, ids) <==>
             x in CallList(e, calls[..k], entities, ids) || Resolved(x, calls[k], e, entities, ids);
    }
  }

  method CallEdges(e: Entity, entities: seq<Entity>, ids: set<Id>) returns (edges: seq<Edge>)
    ensures edges == CallList(e, e.calls, entities, ids)
  {
    edges := [];
    for j := 0 to |e.calls|
      invariant edges == CallList(e, e.calls[..j], entities, ids)
    {
      assert e.calls[..j + 1][..j] == e.calls[..j];
      var target := FindCallTarget(e.calls[j], e, entities, ids);
      if target.Some? && target.value != IdOf(e) {
        edges := edges + [Edge(IdOf(e), target.value, CALL)];
      }
    }
    assert e.calls[..|e.calls|] == e.calls;
  }

  /** The nodes of the callable entities, in order; repeated ids and all. */
  function CallNodes(entities: seq<Entity>): seq<Node> {
    if entities == [] then []
    else
      var e := entities[|entities| - 1];
      CallNodes(entities[..|entities| - 1]) + (if Callable(e) then [Node(IdOf(e), CallableType(e), e.complexity, [], [])] else [])
  }

  lemma CallNodesSnoc(entities: seq<Entity>, e: Entity)
    ensures CallNodes(entities + [e])
         == if Callable(e) then CallNodes(entities) + [Node(IdOf(e), CallableType(e), e.complexity, [], [])] else CallNodes(entities)
  {
    assert (entities + [e])[..|entities|] == entities;
  }

  lemma {:induction false} CallNodesIds(entities: seq<Entity>, v: Id)
    ensures Taken(CallNodes(entities), v) <==> exists e :: e in entities && Callable(e) && IdOf(e) == v
    decreases |entities|
  {
    if entities != [] {
      var k := |entities| - 1;
      CallNodesIds(entities[..k], v);
      assert entities == entities[..k] + [entities[k]];
      TakenSnoc(CallNodes(entities[..k]), Node(IdOf(entities[k]), CallableType(entities[k]), entities[k].complexity, [], []), v);
      assert CallNodes(entities[..k]) + [] == CallNodes(entities[..k]);
    }
  }

  method DeclareCallables(entities: seq<Entity>) returns (nodes: seq<Node>, ids: set<Id>)
    ensures Drafted(nodes, ids) && ids == set e | e in entities && Callable(e) :: IdOf(e)
    ensures nodes == FirstEach(CallNodes(entities))
  {
    nodes, ids := [], {};
    for i := 0 to |entities|
      invariant Drafted(nodes, ids) && nodes == FirstEach(CallNodes(entities[..i]))
    {
      var e := entities[i];
      CallNodesSnoc(entities[..i], e);
      assert entities[..i + 1] == entities[..i] + [e];
      if !Callable(e) {
        continue;
      }
      var node := Node(IdOf(e), CallableType(e), e.complexity, [], []);
      JoinSnoc([], CallNodes(entities[..i]), node);
      nodes, ids := Declare(nodes, ids, node);
    }
    assert entities[..|entities|] == entities;
    forall v ensures v in ids <==> exists e :: e in entities && Callable(e) && IdOf(e) == v {
      FirstTaken(CallNodes(entities), v);
      CallNodesIds(entities, v);
    }
  }

  lemma CallEdgeWithin(x: Edge, e: Entity, entities: seq<Entity>, ids: set<Id>)
    requires IsCallEdge(x, e, entities, ids)
    ensures x.source == IdOf(e) && x.target in ids
  {
    var name :| name in e.calls && Resolved(x, name, e, entities, ids);
    FirstNamedMeans(name, entities, ids);
  }

  lemma InCalls(entities: seq<Entity>, ids: set<Id>, x: Edge)
    ensures x in EdgesOver(CallsFrom(entities, ids), entities)
       <==> exists e :: e in entities && Callable(e) && IsCallEdge(x, e, entities, ids)
  {
    var calls := CallsFrom(entities, ids);
    InEdgesOver(calls, entities, x);
    forall e ensures x in calls(e) <==> Callable(e) && IsCallEdge(x, e, entities, ids) {
      InCallList(e, e.calls, entities, ids, x);
    }
  }

  /** A well-formed layer that declares the callable entities, each id as first met, and has
      exactly the edges of the calls that resolve, in the order of the calls. */
  method Build(entities: seq<Entity>) returns (l: Layer)
    ensures l.tag == CallLayer && WellFormedLayer(l)
    ensures l.nodes == FirstEach(CallNodes(entities))
    ensures NodeIds(l) == set e | e in entities && Callable(e) :: IdOf(e)
    ensures l.edges == EdgesOver(CallsFrom(entities, NodeIds(l)), entities)
    ensures forall x :: x in l.edges <==> exists e :: e in entities && Callable(e) && IsCallEdge(x, e, entities, NodeIds(l))
  {
    var nodes, ids := DeclareCallables(entities);
    var edges: seq<Edge> := [];
    for i := 0 to |entities|
      invariant edges == EdgesOver(CallsFrom(entities, ids), entities[..i])
    {
      EdgesOverNext(CallsFrom(entities, ids), entities, i);
      if !Callable(entities[i]) {
        continue;
      }
      var more := CallEdges(entities[i], entities, ids);
      edges := edges + more;
    }
    assert entities[..|entities|] == entities;
    forall x ensures x in edges <==> exists e :: e in entities && Callable(e) && IsCallEdge(x, e, entities, ids) {
      InCalls(entities, ids, x);
    }
    forall x | x in edges ensures x.source in ids && x.target in ids {
      var e :| e in entities && Callable(e) && IsCallEdge(x, e, entities, ids);
      CallEdgeWithin(x, e, entities, ids);
    }
    DraftWellFormed(CallLayer, nodes, edges, ids);
    l := Layer(CallLayer, nodes, edges);
  }
}
