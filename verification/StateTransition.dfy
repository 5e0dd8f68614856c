/** layers/state_transition.py: the state-transition layer of a list of entities. */
module StateTransition {
  import opened Digraph
  import opened Lists
  import opened Sgir
  import opened Wrappers
  import opened Entities

  const LIFECYCLE_DECORATORS: set<string> :=
    {"init", "__init__", "__post_init__", "__enter__", "__exit__", "__del__", "__new__", "setup", "teardown",
     "before_connect", "after_connect", "on_startup", "on_shutdown"}

  const EVENT_DECORATORS: set<string> := {"on", "event", "handler", "listener", "subscribe", "signal", "callback"}

  datatype Kind = Lifecycle | EventHandling | Other

  predicate Marked(m: Entity, names: set<string>, lower: string -> string) {
    m.name in names || exists i :: 0 <= i < |m.decorators| && lower(m.decorators[i]) in names
  }

  function KindOf(m: Entity, lower: string -> string): Kind {
    if Marked(m, LIFECYCLE_DECORATORS, lower) then Lifecycle
    else if Marked(m, EVENT_DECORATORS, lower) then EventHandling
    else Other
  }

  function KindBy(lower: string -> string): Entity -> Kind {
    (m: Entity) => KindOf(m, lower)
  }

  function OfKind(k: Kind, kind: Entity -> Kind): Entity -> bool {
    (m: Entity) => kind(m) == k
  }

  predicate IsMethod(e: Entity) {
    e.entityType == "method" && e.parent != ""
  }

  // ------------------------------------------------------------- resolving

  /** Every declared entity of the name, in order. */
  function Resolved(name: string, entities: seq<Entity>, ids: set<Id>): seq<Id> {
    if entities == [] then []
    else
      var last := entities[|entities| - 1];
      Resolved(name, entities[..|entities| - 1], ids) + (if last.name == name && IdOf(last) in ids then [IdOf(last)] else [])
  }

  method ResolveIds(name: string, entities: seq<Entity>, ids: set<Id>) returns (results: seq<Id>)
    ensures results == Resolved(name, entities, ids)
    ensures forall v | v in results :: v in ids
  {
    results := [];
    for i := 0 to |entities|
      invariant results == Resolved(name, entities[..i], ids) && forall v | v in results :: v in ids
    {
      assert entities[..i + 1][..i] == entities[..i];
      if entities[i].name == name {
        var id := IdOf(entities[i]);
        if id in ids {
          results := results + [id];
        }
      }
    }
    assert entities[..|entities|] == entities;
  }

  /** The first declared class of the name. */
  function ClassId(name: string, entities: seq<Entity>, ids: set<Id>): Option<Id> {
    if entities == [] then None
    else if entities[0].entityType == "class" && entities[0].name == name && IdOf(entities[0]) in ids then Some(IdOf(entities[0]))
    else ClassId(name, entities[1..], ids)
  }

  method FindClassId(name: string, entities: seq<Entity>, ids: set<Id>) returns (id: Option<Id>)
    ensures id == ClassId(name, entities, ids)
    ensures id.Some? ==> id.value in ids
  {
    for i := 0 to |entities|
      invariant ClassId(name, entities, ids) == ClassId(name, entities[i..], ids)
    {
      if entities[i].entityType == "class" && entities[i].name == name {
        var found := IdOf(entities[i]);
        if found in ids {
          return Some(found);
        }
      }
    }
    return None;
  }

  // ------------------------------------------------- classes and their methods

  /** The dictionary of methods by class, with its keys in insertion order. */
  datatype ClassMethods = ClassMethods(order: seq<string>, methods: map<string, seq<Entity>>) {
    function Of(c: string): seq<Entity> {
      if c in methods then methods[c] else []
    }
  }

  /** Every method of a parent is filed, under its parent and nowhere else. */
  ghost predicate Files(cm: ClassMethods, entities: seq<Entity>) {
    && (forall c :: c in cm.order <==> c in cm.methods)
    && (forall c, m :: c in cm.methods && m in cm.methods[c] <==> m in entities && IsMethod(m) && m.parent == c)
  }

  function Filed(cm: ClassMethods, m: Entity): ClassMethods {
    if !IsMethod(m) then cm
    else if m.parent in cm.methods then cm.(methods := cm.methods[m.parent := cm.methods[m.parent] + [m]])
    else ClassMethods(cm.order + [m.parent], cm.methods[m.parent := [m]])
  }

  function FileAll(entities: seq<Entity>): ClassMethods {
    if entities == [] then ClassMethods([], map[])
    else Filed(FileAll(entities[..|entities| - 1]), entities[|entities| - 1])
  }

  lemma {:induction false} FileAllFiles(entities: seq<Entity>)
    ensures Files(FileAll(entities), entities)
    decreases |entities|
  {
    if entities != [] {
      FileAllFiles(entities[..|entities| - 1]);
      assert entities == entities[..|entities| - 1] + [entities[|entities| - 1]];
    }
  }

  // ------------------------------------------------------------- the nodes

  function ClassNodes(entities: seq<Entity>): seq<Node> {
    if entities == [] then []
    else
      var e := entities[|entities| - 1];
      ClassNodes(entities[..|entities| - 1])
      + (if e.entityType == "class" then [Node(IdOf(e), CLASS, UNKNOWN_COMPLEXITY, [], [])] else [])
  }

  function MethodNode(m: Entity, t: NodeType): Node {
    Node(IdOf(m), t, UNKNOWN_COMPLEXITY, [], [])
  }

  function MethodNodes(methods: seq<Entity>, t: NodeType): seq<Node> {
    seq(|methods|, i requires 0 <= i < |methods| => MethodNode(methods[i], t))
  }

  lemma MethodNodesSnoc(nodes: seq<Node>, methods: seq<Entity>, m: Entity, t: NodeType)
    ensures JoinAll(nodes, MethodNodes(methods + [m], t)) == Joined(JoinAll(nodes, MethodNodes(methods, t)), MethodNode(m, t))
  {
    assert MethodNodes(methods + [m], t) == MethodNodes(methods, t) + [MethodNode(m, t)];
    JoinSnoc(nodes, MethodNodes(methods, t), MethodNode(m, t));
  }

  /** What a class brings: its lifecycle methods, then its event handlers. */
  function NodesOfClass(methods: seq<Entity>, kind: Entity -> Kind): seq<Node> {
    MethodNodes(Filter(OfKind(Lifecycle, kind), methods), METHOD)
    + MethodNodes(Filter(OfKind(EventHandling, kind), methods), EVENT_HANDLER)
  }

  function NodesOfClasses(cm: ClassMethods, order: seq<string>, kind: Entity -> Kind): seq<Node> {
    if order == [] then []
    else
      var c := order[|order| - 1];
      NodesOfClasses(cm, order[..|order| - 1], kind) + NodesOfClass(cm.Of(c), kind)
  }

  /** The nodes in the order the builder meets them; repeated ids and all. */
  function StateNodes(entities: seq<Entity>, lower: string -> string): seq<Node> {
    ClassNodes(entities) + NodesOfClasses(FileAll(entities), FileAll(entities).order, KindBy(lower))
  }

  lemma ClassNodesSnoc(entities: seq<Entity>, e: Entity)
    ensures ClassNodes(entities + [e])
         == if e.entityType == "class" then ClassNodes(entities) + [Node(IdOf(e), CLASS, UNKNOWN_COMPLEXITY, [], [])] else ClassNodes(entities)
    ensures FileAll(entities + [e]) == Filed(FileAll(entities), e)
  {
    assert (entities + [e])[..|entities|] == entities;
  }

  lemma {:induction false} ClassNodesIds(entities: seq<Entity>, v: Id)
    ensures Taken(ClassNodes(entities), v) <==> exists e :: e in entities && e.entityType == "class" && IdOf(e) == v
    decreases |entities|
  {
    if entities != [] {
      var k := |entities| - 1;
      ClassNodesIds(entities[..k], v);
      assert entities == entities[..k] + [entities[k]];
      TakenSnoc(ClassNodes(entities[..k]), Node(IdOf(entities[k]), CLASS, UNKNOWN_COMPLEXITY, [], []), v);
      assert ClassNodes(entities[..k]) + [] == ClassNodes(entities[..k]);
    }
  }

  method DeclareClasses(entities: seq<Entity>) returns (nodes: seq<Node>, ids: set<Id>, cm: ClassMethods)
    ensures Drafted(nodes, ids) && nodes == FirstEach(ClassNodes(entities))
    ensures ids == set e | e in entities && e.entityType == "class" :: IdOf(e)
    ensures cm == FileAll(entities)
  {
    nodes, ids, cm := [], {}, ClassMethods([], map[]);
    for i := 0 to |entities|
      invariant Drafted(nodes, ids) && nodes == FirstEach(ClassNodes(entities[..i]))
      invariant cm == FileAll(entities[..i])
    {
      var e := entities[i];
      assert entities[..i + 1] == entities[..i] + [e];
      ClassNodesSnoc(entities[..i], e);
      if e.entityType == "class" {
        var node := Node(IdOf(e), CLASS, UNKNOWN_COMPLEXITY, [], []);
        JoinSnoc([], ClassNodes(entities[..i]), node);
        nodes, ids := Declare(nodes, ids, node);
      }
      cm := Filed(cm, e);
    }
    assert entities[..|entities|] == entities;
    forall v ensures v in ids <==> exists e :: e in entities && e.entityType == "class" && IdOf(e) == v {
      FirstTaken(ClassNodes(entities), v);
      ClassNodesIds(entities, v);
    }
  }

  // ---------------------------------------------------------- one class

  function MethodIds(methods: seq<Entity>): set<Id> {
    set m | m in methods :: IdOf(m)
  }

  lemma MethodNodesIds(methods: seq<Entity>, t: NodeType, v: Id)
    ensures Taken(MethodNodes(methods, t), v) <==> v in MethodIds(methods)
  {
    if m :| m in methods && IdOf(m) == v {
      var i :| 0 <= i < |methods| && methods[i] == m;
      assert MethodNodes(methods, t)[i].id == v;
    }
  }

  lemma JoinedMethods(nodes: seq<Node>, methods: seq<Entity>, t: NodeType, ids: set<Id>)
    requires Drafted(JoinAll(nodes, MethodNodes(methods, t)), ids)
    ensures MethodIds(methods) <= ids
  {
    forall v | v in MethodIds(methods) ensures v in ids {
      MethodNodesIds(methods, t, v);
      TakenJoinAll(nodes, MethodNodes(methods, t), v);
    }
  }

  /** The class of the name, in the method's own file. */
  function ClassIn(className: string): Entity -> Id {
    (m: Entity) => MakeNodeId(m.filePath, className)
  }

  function Joining(nodes: seq<Node>, methods: seq<Entity>, t: NodeType): seq<Node> {
    JoinAll(nodes, MethodNodes(methods, t))
  }

  /** Each method is entered from its class, if that is declared by then. */
  function EnterEdges(nodes: seq<Node>, classIn: Entity -> Id, methods: seq<Entity>): seq<Edge> {
    if methods == [] then []
    else
      var m := methods[|methods| - 1];
      EnterEdges(nodes, classIn, methods[..|methods| - 1])
      + (if Taken(Joining(nodes, methods, METHOD), classIn(m)) then [Edge(classIn(m), IdOf(m), STATE_TRANSITION)] else [])
  }

  lemma EnterEdgesSnoc(nodes: seq<Node>, classIn: Entity -> Id, methods: seq<Entity>, m: Entity)
    ensures EnterEdges(nodes, classIn, methods + [m])
         == if Taken(Joining(nodes, methods + [m], METHOD), classIn(m))
            then EnterEdges(nodes, classIn, methods) + [Edge(classIn(m), IdOf(m), STATE_TRANSITION)]
            else EnterEdges(nodes, classIn, methods)
  {
    assert (methods + [m])[..|methods|] == methods;
  }

  lemma {:induction false} EnterEdgesTaken(nodes: seq<Node>, classIn: Entity -> Id, methods: seq<Entity>, x: Edge)
    requires x in EnterEdges(nodes, classIn, methods)
    ensures x.edgeType == STATE_TRANSITION
    ensures Taken(Joining(nodes, methods, METHOD), x.source) && Taken(Joining(nodes, methods, METHOD), x.target)
    decreases |methods|
  {
    var before, m := methods[..|methods| - 1], methods[|methods| - 1];
    assert methods == before + [m];
    MethodNodesSnoc(nodes, before, m, METHOD);
    TakenJoined(Joining(nodes, before, METHOD), MethodNode(m, METHOD), x.source);
    TakenJoined(Joining(nodes, before, METHOD), MethodNode(m, METHOD), x.target);
    if x in EnterEdges(nodes, classIn, before) {
      EnterEdgesTaken(nodes, classIn, before, x);
    }
  }

  /** Declares the lifecycle methods, each entered from its class if that is declared. */
  method AddLifecycle(classIn: Entity -> Id, methods: seq<Entity>, nodes: seq<Node>, ids: set<Id>)
    returns (nodes': seq<Node>, ids': set<Id>, edges: seq<Edge>)
    requires Drafted(nodes, ids)
    ensures Drafted(nodes', ids') && nodes' == JoinAll(nodes, MethodNodes(methods, METHOD))
    ensures edges == EnterEdges(nodes, classIn, methods)
  {
    nodes', ids', edges := nodes, ids, [];
    for i := 0 to |methods|
      invariant Drafted(nodes', ids') && nodes' == Joining(nodes, methods[..i], METHOD)
      invariant edges == EnterEdges(nodes, classIn, methods[..i])
    {
      var m := methods[i];
      assert methods[..i + 1] == methods[..i] + [m];
      MethodNodesSnoc(nodes, methods[..i], m, METHOD);
      EnterEdgesSnoc(nodes, classIn, methods[..i], m);
      nodes', ids' := Declare(nodes', ids', MethodNode(m, METHOD));
      var classId := classIn(m);
      if classId in ids' {
        edges := edges + [Edge(classId, IdOf(m), STATE_TRANSITION)];
      }
    }
    assert methods[..|methods|] == methods;
  }

  function ChainEdges(methods: seq<Entity>): seq<Edge> {
    if |methods| <= 1 then []
    else
      var k := |methods| - 1;
      ChainEdges(methods[..k]) + [Edge(IdOf(methods[k - 1]), IdOf(methods[k]), STATE_TRANSITION)]
  }

  lemma {:induction false} ChainEdgesWithin(methods: seq<Entity>, x: Edge)
    requires x in ChainEdges(methods)
    ensures x.edgeType == STATE_TRANSITION && x.source in MethodIds(methods) && x.target in MethodIds(methods)
    decreases |methods|
  {
    var k := |methods| - 1;
    assert methods[k - 1] in methods && methods[k] in methods;
    if x in ChainEdges(methods[..k]) {
      ChainEdgesWithin(methods[..k], x);
    }
  }

  /** Consecutive lifecycle methods, all declared by now, follow each other. */
  method ChainLifecycle(methods: seq<Entity>, ids: set<Id>) returns (edges: seq<Edge>)
    requires MethodIds(methods) <= ids
    ensures edges == ChainEdges(methods)
  {
    edges := [];
    for i := 0 to |methods|
      invariant edges == ChainEdges(methods[..i])
    {
      assert methods[..i + 1][..i] == methods[..i];
      if i > 0 {
        var prevId, currId := IdOf(methods[i - 1]), IdOf(methods[i]);
        assert methods[i - 1] in methods && methods[i] in methods;
        if prevId in ids && currId in ids {
          edges := edges + [Edge(prevId, currId, STATE_TRANSITION)];
        }
      }
    }
    assert methods[..|methods|] == methods;
  }

  function ToOthers(source: Id, targets: seq<Id>): seq<Edge> {
    if targets == [] then []
    else
      var target := targets[|targets| - 1];
      ToOthers(source, targets[..|targets| - 1]) + (if target != source then [Edge(source, target, EVENT)] else [])
  }

  lemma {:induction false} ToOthersAre(source: Id, targets: seq<Id>, x: Edge)
    ensures x in ToOthers(source, targets) <==>
              x.source == source && x.edgeType == EVENT && x.target != source && x.target in targets
    decreases |targets|
  {
    if targets != [] {
      var k := |targets| - 1;
      ToOthersAre(source, targets[..k], x);
      assert targets == targets[..k] + [targets[k]];
    }
  }

  /** An edge to everything declared that a name called resolves to, except the caller. */
  function CalledEdges(source: Id, calls: seq<string>, entities: seq<Entity>, ids: set<Id>): seq<Edge> {
    if calls == [] then []
    else
      CalledEdges(source, calls[..|calls| - 1], entities, ids)
      + ToOthers(source, Resolved(calls[|calls| - 1], entities, ids))
  }

  lemma {:induction false} ResolvedIn(name: string, entities: seq<Entity>, ids: set<Id>)
    ensures forall v | v in Resolved(name, entities, ids) :: v in ids
    decreases |entities|
  {
    if entities != [] {
      ResolvedIn(name, entities[..|entities| - 1], ids);
    }
  }

  lemma {:induction false} CalledEdgesWithin(source: Id, calls: seq<string>, entities: seq<Entity>, ids: set<Id>, x: Edge)
    requires x in CalledEdges(source, calls, entities, ids)
    ensures x.source == source && x.edgeType == EVENT && x.target in ids
    decreases |calls|
  {
    var k := |calls| - 1;
    if x in CalledEdges(source, calls[..k], entities, ids) {
      CalledEdgesWithin(source, calls[..k], entities, ids, x);
    } else {
      ToOthersAre(source, Resolved(calls[k], entities, ids), x);
      ResolvedIn(calls[k], entities, ids);
    }
  }

  method EdgesToOthers(source: Id, targets: seq<Id>) returns (edges: seq<Edge>)
    ensures edges == ToOthers(source, targets)
  {
    edges := [];
    for j := 0 to |targets|
      invariant edges == ToOthers(source, targets[..j])
    {
      assert targets[..j + 1][..j] == targets[..j];
      if targets[j] != source {
        edges := edges + [Edge(source, targets[j], EVENT)];
      }
    }
    assert targets[..|targets|] == targets;
  }

  method EventEdges(m: Entity, entities: seq<Entity>, ids: set<Id>) returns (edges: seq<Edge>)
    ensures edges == CalledEdges(IdOf(m), m.calls, entities, ids)
  {
    edges := [];
    for i := 0 to |m.calls|
      invariant edges == CalledEdges(IdOf(m), m.calls[..i], entities, ids)
    {
      assert m.calls[..i + 1][..i] == m.calls[..i];
      var targets := ResolveIds(m.calls[i], entities, ids);
      var more := EdgesToOthers(IdOf(m), targets);
      edges := edges + more;
    }
    assert m.calls[..|m.calls|] == m.calls;
  }

  ghost function IdsOf(nodes: seq<Node>): set<Id> {
    set n | n in nodes :: n.id
  }

  lemma DraftedIds(nodes: seq<Node>, ids: set<Id>)
    requires Drafted(nodes, ids)
    ensures ids == IdsOf(nodes)
  {
    forall v | v in IdsOf(nodes) ensures v in ids {
      var n :| n in nodes && n.id == v;
      var i :| 0 <= i < |nodes| && nodes[i] == n;
      assert Taken(nodes, v);
    }
  }

  lemma IdsTaken(nodes: seq<Node>, v: Id)
    requires v in IdsOf(nodes)
    ensures Taken(nodes, v)
  {
    var n :| n in nodes && n.id == v;
    var i :| 0 <= i < |nodes| && nodes[i] == n;
  }

  /** What each handler calls, as far as it is declared by then. */
  ghost function HandlerEdges(nodes: seq<Node>, methods: seq<Entity>, entities: seq<Entity>): seq<Edge> {
    if methods == [] then []
    else
      var m := methods[|methods| - 1];
      HandlerEdges(nodes, methods[..|methods| - 1], entities)
      + CalledEdges(IdOf(m), m.calls, entities, IdsOf(Joining(nodes, methods, EVENT_HANDLER)))
  }

  lemma HandlerEdgesSnoc(nodes: seq<Node>, methods: seq<Entity>, m: Entity, entities: seq<Entity>)
    ensures HandlerEdges(nodes, methods + [m], entities)
         == HandlerEdges(nodes, methods, entities)
            + CalledEdges(IdOf(m), m.calls, entities, IdsOf(Joining(nodes, methods + [m], EVENT_HANDLER)))
  {
    assert (methods + [m])[..|methods|] == methods;
  }

  lemma {:induction false} HandlerEdgesTaken(nodes: seq<Node>, methods: seq<Entity>, entities: seq<Entity>, x: Edge)
    requires x in HandlerEdges(nodes, methods, entities)
    ensures x.edgeType == EVENT
    ensures Taken(Joining(nodes, methods, EVENT_HANDLER), x.source) && Taken(Joining(nodes, methods, EVENT_HANDLER), x.target)
    decreases |methods|
  {
    var before, m := methods[..|methods| - 1], methods[|methods| - 1];
    assert methods == before + [m];
    MethodNodesSnoc(nodes, before, m, EVENT_HANDLER);
    TakenJoined(Joining(nodes, before, EVENT_HANDLER), MethodNode(m, EVENT_HANDLER), x.source);
    TakenJoined(Joining(nodes, before, EVENT_HANDLER), MethodNode(m, EVENT_HANDLER), x.target);
    if x in HandlerEdges(nodes, before, entities) {
      HandlerEdgesTaken(nodes, before, entities, x);
    } else {
      CalledEdgesWithin(IdOf(m), m.calls, entities, IdsOf(Joining(nodes, methods, EVENT_HANDLER)), x);
      IdsTaken(Joining(nodes, methods, EVENT_HANDLER), x.target);
    }
  }

  method AddEvents(methods: seq<Entity>, entities: seq<Entity>, nodes: seq<Node>, ids: set<Id>)
    returns (nodes': seq<Node>, ids': set<Id>, edges: seq<Edge>)
    requires Drafted(nodes, ids)
    ensures Drafted(nodes', ids') && nodes' == JoinAll(nodes, MethodNodes(methods, EVENT_HANDLER))
    ensures edges == HandlerEdges(nodes, methods, entities)
  {
    nodes', ids', edges := nodes, ids, [];
    for i := 0 to |methods|
      invariant Drafted(nodes', ids') && nodes' == Joining(nodes, methods[..i], EVENT_HANDLER)
      invariant edges == HandlerEdges(nodes, methods[..i], entities)
    {
      var m := methods[i];
      assert methods[..i + 1] == methods[..i] + [m];
      MethodNodesSnoc(nodes, methods[..i], m, EVENT_HANDLER);
      HandlerEdgesSnoc(nodes, methods[..i], m, entities);
      nodes', ids' := Declare(nodes', ids', MethodNode(m, EVENT_HANDLER));
      DraftedIds(nodes', ids');
      var more := EventEdges(m, entities, ids');
      edges := edges + more;
    }
    assert methods[..|methods|] == methods;
  }

  /** What one class adds, given the nodes so far: the ways into its lifecycle methods, their
      order, and what its handlers call. */
  ghost function ClassEdges(nodes: seq<Node>, className: string, methods: seq<Entity>, entities: seq<Entity>,
                            kind: Entity -> Kind): seq<Edge> {
    var lifecycle := Filter(OfKind(Lifecycle, kind), methods);
    EnterEdges(nodes, ClassIn(className), lifecycle) + ChainEdges(lifecycle)
    + HandlerEdges(Joining(nodes, lifecycle, METHOD), Filter(OfKind(EventHandling, kind), methods), entities)
  }

  /** Edges between nodes, none of them of inheritance. */
  ghost predicate Steps(edges: seq<Edge>, nodes: seq<Node>) {
    forall x | x in edges :: x.edgeType != INHERIT && Taken(nodes, x.source) && Taken(nodes, x.target)
  }

  lemma StepsJoin(a: seq<Edge>, b: seq<Edge>, nodes: seq<Node>, more: seq<Node>)
    requires Steps(a, nodes) && Steps(b, JoinAll(nodes, more))
    ensures Steps(a + b, JoinAll(nodes, more))
  {
    forall x | x in a ensures Taken(JoinAll(nodes, more), x.source) && Taken(JoinAll(nodes, more), x.target) {
      TakenJoinAll(nodes, more, x.source);
      TakenJoinAll(nodes, more, x.target);
    }
  }

  lemma LifecycleSteps(nodes: seq<Node>, classIn: Entity -> Id, methods: seq<Entity>)
    ensures Steps(EnterEdges(nodes, classIn, methods) + ChainEdges(methods), Joining(nodes, methods, METHOD))
  {
    forall x | x in EnterEdges(nodes, classIn, methods)
      ensures x.edgeType != INHERIT && Taken(Joining(nodes, methods, METHOD), x.source) && Taken(Joining(nodes, methods, METHOD), x.target) {
      EnterEdgesTaken(nodes, classIn, methods, x);
    }
    forall x | x in ChainEdges(methods)
      ensures x.edgeType != INHERIT && Taken(Joining(nodes, methods, METHOD), x.source) && Taken(Joining(nodes, methods, METHOD), x.target) {
      ChainEdgesWithin(methods, x);
      forall v | v in MethodIds(methods) ensures Taken(Joining(nodes, methods, METHOD), v) {
        MethodNodesIds(methods, METHOD, v);
        TakenJoinAll(nodes, MethodNodes(methods, METHOD), v);
      }
    }
  }

  lemma HandlerSteps(nodes: seq<Node>, methods: seq<Entity>, entities: seq<Entity>)
    ensures Steps(HandlerEdges(nodes, methods, entities), Joining(nodes, methods, EVENT_HANDLER))
  {
    forall x | x in HandlerEdges(nodes, methods, entities)
      ensures x.edgeType != INHERIT && Taken(Joining(nodes, methods, EVENT_HANDLER), x.source)
              && Taken(Joining(nodes, methods, EVENT_HANDLER), x.target) {
      HandlerEdgesTaken(nodes, methods, entities, x);
    }
  }

  lemma ClassSteps(nodes: seq<Node>, className: string, methods: seq<Entity>, entities: seq<Entity>, kind: Entity -> Kind)
    ensures Steps(ClassEdges(nodes, className, methods, entities, kind), JoinAll(nodes, NodesOfClass(methods, kind)))
  {
    var lifecycle := Filter(OfKind(Lifecycle, kind), methods);
    var events := Filter(OfKind(EventHandling, kind), methods);
    var mid := Joining(nodes, lifecycle, METHOD);
    LifecycleSteps(nodes, ClassIn(className), lifecycle);
    HandlerSteps(mid, events, entities);
    StepsJoin(EnterEdges(nodes, ClassIn(className), lifecycle) + ChainEdges(lifecycle), HandlerEdges(mid, events, entities),
              mid, MethodNodes(events, EVENT_HANDLER));
    JoinTwice(nodes, MethodNodes(lifecycle, METHOD), MethodNodes(events, EVENT_HANDLER));
  }

  /** What one class adds: its lifecycle and event methods, nothing for the others. */
  method AddClass(className: string, methods: seq<Entity>, entities: seq<Entity>, kind: Entity -> Kind,
                  nodes: seq<Node>, ids: set<Id>)
    returns (nodes': seq<Node>, ids': set<Id>, edges: seq<Edge>)
    requires Drafted(nodes, ids)
    ensures Drafted(nodes', ids') && nodes' == JoinAll(nodes, NodesOfClass(methods, kind))
    ensures edges == ClassEdges(nodes, className, methods, entities, kind)
  {
    var lifecycle := Filter(OfKind(Lifecycle, kind), methods);
    var events := Filter(OfKind(EventHandling, kind), methods);
    var entering, handling;
    nodes', ids', entering := AddLifecycle(ClassIn(className), lifecycle, nodes, ids);
    JoinedMethods(nodes, lifecycle, METHOD, ids');
    var chain := ChainLifecycle(lifecycle, ids');
    nodes', ids', handling := AddEvents(events, entities, nodes', ids');
    JoinTwice(nodes, MethodNodes(lifecycle, METHOD), MethodNodes(events, EVENT_HANDLER));
    edges := entering + chain + handling;
  }

  // ------------------------------------------------------------ inheritance

  ghost predicate IsInheritEdge(x: Edge, e: Entity, entities: seq<Entity>, ids: set<Id>) {
    x.source == IdOf(e) && x.edgeType == INHERIT && exists base :: base in e.bases && ClassId(base, entities, ids) == Some(x.target)
  }

  /** The edges to some bases, in order. */
  function InheritList(e: Entity, bases: seq<string>, entities: seq<Entity>, ids: set<Id>): seq<Edge> {
    if bases == [] then []
    else
      var target := ClassId(bases[|bases| - 1], entities, ids);
      InheritList(e, bases[..|bases| - 1], entities, ids)
      + (if target.Some? then [Edge(IdOf(e), target.value, INHERIT)] else [])
  }

  function Inherits(entities: seq<Entity>, ids: set<Id>): Entity -> seq<Edge> {
    (e: Entity) => if e.entityType == "class" then InheritList(e, e.bases, entities, ids) else []
  }

  lemma {:induction false} InInheritList(e: Entity, bases: seq<string>, entities: seq<Entity>, ids: set<Id>, x: Edge)
    ensures x in InheritList(e, bases, entities, ids) <==>
              x.source == IdOf(e) && x.edgeType == INHERIT
              && exists base :: base in bases && ClassId(base, entities, ids) == Some(x.target)
    decreases |bases|
  {
    if bases != [] {
      var k := |bases| - 1;
      InInheritList(e, bases[..k], entities, ids, x);
      assert bases[k] in bases && forall base :: base in bases ==> base in bases[..k] || base == bases[k];
      assert x in InheritList(e, bases, entities, ids) <==>
             x in InheritList(e, bases[..k], entities, ids)
             || (x.source == IdOf(e) && x.edgeType == INHERIT && ClassId(bases[k], entities, ids) == Some(x.target));
    }
  }

  lemma {:induction false} ClassIdIn(name: string, entities: seq<Entity>, ids: set<Id>)
    ensures ClassId(name, entities, ids).Some? ==> ClassId(name, entities, ids).value in ids
  {
    if entities != [] {
      ClassIdIn(name, entities[1..], ids);
    }
  }

  method InheritEdges(e: Entity, entities: seq<Entity>, ids: set<Id>) returns (edges: seq<Edge>)
    ensures edges == InheritList(e, e.bases, entities, ids)
  {
    edges := [];
    for i := 0 to |e.bases|
      invariant edges == InheritList(e, e.bases[..i], entities, ids)
    {
      assert e.bases[..i + 1][..i] == e.bases[..i];
      var baseId := FindClassId(e.bases[i], entities, ids);
      if baseId.Some? {
        edges := edges + [Edge(IdOf(e), baseId.value, INHERIT)];
      }
    }
    assert e.bases[..|e.bases|] == e.bases;
  }

  lemma InInherits(entities: seq<Entity>, ids: set<Id>, x: Edge)
    ensures x in EdgesOver(Inherits(entities, ids), entities)
       <==> exists e :: e in entities && e.entityType == "class" && IsInheritEdge(x, e, entities, ids)
  {
    var inherits := Inherits(entities, ids);
    InEdgesOver(inherits, entities, x);
    forall e ensures x in inherits(e) <==> e.entityType == "class" && IsInheritEdge(x, e, entities, ids) {
      InInheritList(e, e.bases, entities, ids, x);
    }
  }

  lemma InheritsWithin(entities: seq<Entity>, ids: set<Id>)
    requires forall e | e in entities && e.entityType == "class" :: IdOf(e) in ids
    ensures Within(EdgesOver(Inherits(entities, ids), entities), ids)
  {
    forall x | x in EdgesOver(Inherits(entities, ids), entities) ensures x.source in ids && x.target in ids {
      InInherits(entities, ids, x);
      var e :| e in entities && e.entityType == "class" && IsInheritEdge(x, e, entities, ids);
      var base :| base in e.bases && ClassId(base, entities, ids) == Some(x.target);
      ClassIdIn(base, entities, ids);
    }
  }

  method AddInheritance(entities: seq<Entity>, ids: set<Id>) returns (edges: seq<Edge>)
    ensures edges == EdgesOver(Inherits(entities, ids), entities)
  {
    edges := [];
    for i := 0 to |entities|
      invariant edges == EdgesOver(Inherits(entities, ids), entities[..i])
    {
      EdgesOverNext(Inherits(entities, ids), entities, i);
      if entities[i].entityType == "class" {
        var more := InheritEdges(entities[i], entities, ids);
        edges := edges + more;
      }
    }
    assert entities[..|entities|] == entities;
  }

  // ----------------------------------------------------------------- build

  function Declares(entities: seq<Entity>, lower: string -> string): set<Id> {
    (set e | e in entities && e.entityType == "class" :: IdOf(e))
    + (set m | m in entities && IsMethod(m) && KindOf(m, lower) != Other :: IdOf(m))
  }

  lemma NodesOfClassesSnoc(nodes: seq<Node>, cm: ClassMethods, order: seq<string>, c: string, kind: Entity -> Kind)
    ensures JoinAll(nodes, NodesOfClasses(cm, order + [c], kind))
         == JoinAll(JoinAll(nodes, NodesOfClasses(cm, order, kind)), NodesOfClass(cm.Of(c), kind))
  {
    assert (order + [c])[..|order|] == order;
    JoinTwice(nodes, NodesOfClasses(cm, order, kind), NodesOfClass(cm.Of(c), kind));
  }

  /** Some lifecycle or event method has the id. */
  ghost predicate Declaring(methods: seq<Entity>, kind: Entity -> Kind, v: Id) {
    exists m :: m in methods && kind(m) != Other && IdOf(m) == v
  }

  lemma NodesOfClassIds(methods: seq<Entity>, kind: Entity -> Kind, v: Id)
    ensures Taken(NodesOfClass(methods, kind), v) <==> Declaring(methods, kind, v)
  {
    var lifecycle := Filter(OfKind(Lifecycle, kind), methods);
    var events := Filter(OfKind(EventHandling, kind), methods);
    TakenAppend(MethodNodes(lifecycle, METHOD), MethodNodes(events, EVENT_HANDLER), v);
    MethodNodesIds(lifecycle, METHOD, v);
    MethodNodesIds(events, EVENT_HANDLER, v);
    if m :| m in methods && kind(m) != Other && IdOf(m) == v {
      assert m in lifecycle || m in events;
    }
  }

  lemma NodesOfLastClass(cm: ClassMethods, order: seq<string>, kind: Entity -> Kind, v: Id)
    requires order != []
    ensures Taken(NodesOfClasses(cm, order, kind), v) <==>
              Taken(NodesOfClasses(cm, order[..|order| - 1], kind), v) || Declaring(cm.Of(order[|order| - 1]), kind, v)
  {
    var k := |order| - 1;
    NodesOfClassIds(cm.Of(order[k]), kind, v);
    TakenAppend(NodesOfClasses(cm, order[..k], kind), NodesOfClass(cm.Of(order[k]), kind), v);
  }

  lemma {:induction false} NodesOfClassesIds(cm: ClassMethods, order: seq<string>, kind: Entity -> Kind, v: Id)
    ensures Taken(NodesOfClasses(cm, order, kind), v) <==> exists c :: c in order && Declaring(cm.Of(c), kind, v)
    decreases |order|
  {
    if order != [] {
      var k := |order| - 1;
      NodesOfClassesIds(cm, order[..k], kind, v);
      NodesOfLastClass(cm, order, kind, v);
      assert order[k] in order && forall c :: c in order ==> c in order[..k] || c == order[k];
    }
  }

  lemma FiledUnderParent(cm: ClassMethods, entities: seq<Entity>, m: Entity)
    requires Files(cm, entities) && m in entities && IsMethod(m)
    ensures m.parent in cm.order && m in cm.Of(m.parent)
  {
  }

  lemma StateNodesIds(entities: seq<Entity>, lower: string -> string, v: Id)
    ensures Taken(StateNodes(entities, lower), v) <==> v in Declares(entities, lower)
  {
    var cm := FileAll(entities);
    FileAllFiles(entities);
    TakenAppend(ClassNodes(entities), NodesOfClasses(cm, cm.order, KindBy(lower)), v);
    ClassNodesIds(entities, v);
    NodesOfClassesIds(cm, cm.order, KindBy(lower), v);
    if m :| m in entities && IsMethod(m) && KindOf(m, lower) != Other && IdOf(m) == v {
      FiledUnderParent(cm, entities, m);
      assert m.parent in cm.order && Declaring(cm.Of(m.parent), KindBy(lower), v);
    }
  }

  /** The lifecycle and event edges of the classes, in order. */
  ghost function EdgesOfClasses(nodes: seq<Node>, cm: ClassMethods, order: seq<string>, entities: seq<Entity>,
                                kind: Entity -> Kind): seq<Edge> {
    if order == [] then []
    else
      var c, before := order[|order| - 1], order[..|order| - 1];
      EdgesOfClasses(nodes, cm, before, entities, kind)
      + ClassEdges(JoinAll(nodes, NodesOfClasses(cm, before, kind)), c, cm.Of(c), entities, kind)
  }

  lemma EdgesOfClassesSnoc(nodes: seq<Node>, cm: ClassMethods, order: seq<string>, c: string, entities: seq<Entity>,
                           kind: Entity -> Kind)
    ensures EdgesOfClasses(nodes, cm, order + [c], entities, kind)
         == EdgesOfClasses(nodes, cm, order, entities, kind)
            + ClassEdges(JoinAll(nodes, NodesOfClasses(cm, order, kind)), c, cm.Of(c), entities, kind)
  {
    assert (order + [c])[..|order|] == order;
  }

  lemma ClassesNext(first: seq<Node>, cm: ClassMethods, k: nat, entities: seq<Entity>, kind: Entity -> Kind)
    requires k < |cm.order|
    ensures var c, nodes := cm.order[k], JoinAll(first, NodesOfClasses(cm, cm.order[..k], kind));
            && JoinAll(first, NodesOfClasses(cm, cm.order[..k + 1], kind)) == JoinAll(nodes, NodesOfClass(cm.Of(c), kind))
            && EdgesOfClasses(first, cm, cm.order[..k + 1], entities, kind)
               == EdgesOfClasses(first, cm, cm.order[..k], entities, kind) + ClassEdges(nodes, c, cm.Of(c), entities, kind)
  {
    assert cm.order[..k + 1] == cm.order[..k] + [cm.order[k]];
    NodesOfClassesSnoc(first, cm, cm.order[..k], cm.order[k], kind);
    EdgesOfClassesSnoc(first, cm, cm.order[..k], cm.order[k], entities, kind);
  }

  /** The class at position k. */
  method AddNext(cm: ClassMethods, k: nat, entities: seq<Entity>, kind: Entity -> Kind,
                 ghost first: seq<Node>, nodes: seq<Node>, ids: set<Id>, edges: seq<Edge>)
    returns (nodes': seq<Node>, ids': set<Id>, edges': seq<Edge>)
    requires k < |cm.order| && Drafted(nodes, ids) && Steps(edges, nodes) && nodes == JoinAll(first, NodesOfClasses(cm, cm.order[..k], kind))
    requires edges == EdgesOfClasses(first, cm, cm.order[..k], entities, kind)
    ensures Drafted(nodes', ids') && Steps(edges', nodes') && nodes' == JoinAll(first, NodesOfClasses(cm, cm.order[..k + 1], kind))
    ensures edges' == EdgesOfClasses(first, cm, cm.order[..k + 1], entities, kind)
  {
    var c := cm.order[k];
    ClassesNext(first, cm, k, entities, kind);
    var more;
    nodes', ids', more := AddClass(c, cm.Of(c), entities, kind, nodes, ids);
    ClassSteps(nodes, c, cm.Of(c), entities, kind);
    StepsJoin(edges, more, nodes, NodesOfClass(cm.Of(c), kind));
    edges' := edges + more;
  }

  method AddClasses(cm: ClassMethods, entities: seq<Entity>, kind: Entity -> Kind, nodes: seq<Node>, ids: set<Id>)
    returns (nodes': seq<Node>, ids': set<Id>, edges: seq<Edge>)
    requires Drafted(nodes, ids)
    ensures Drafted(nodes', ids') && Steps(edges, nodes') && nodes' == JoinAll(nodes, NodesOfClasses(cm, cm.order, kind))
    ensures edges == EdgesOfClasses(nodes, cm, cm.order, entities, kind)
  {
    nodes', ids', edges := nodes, ids, [];
    for i := 0 to |cm.order|
      invariant Drafted(nodes', ids') && Steps(edges, nodes') && nodes' == JoinAll(nodes, NodesOfClasses(cm, cm.order[..i], kind))
      invariant edges == EdgesOfClasses(nodes, cm, cm.order[..i], entities, kind)
    {
      nodes', ids', edges := AddNext(cm, i, entities, kind, nodes, nodes', ids', edges);
    }
    assert cm.order[..|cm.order|] == cm.order;
  }

  /** The lifecycle and event edges, with the classes declared first. */
  ghost function StepEdges(entities: seq<Entity>, lower: string -> string): seq<Edge> {
    EdgesOfClasses(FirstEach(ClassNodes(entities)), FileAll(entities), FileAll(entities).order, entities, KindBy(lower))
  }

  lemma StepsWithin(edges: seq<Edge>, nodes: seq<Node>, ids: set<Id>)
    requires Drafted(nodes, ids) && Steps(edges, nodes)
    ensures Within(edges, ids)
  {
  }

  lemma ClassesDeclared(entities: seq<Entity>, lower: string -> string)
    ensures forall e | e in entities && e.entityType == "class" :: IdOf(e) in Declares(entities, lower)
  {
  }

  /** A well-formed layer that declares exactly the classes and the lifecycle and event
      methods. Its edges are the lifecycle and event edges, in order, and then exactly the
      inheritance edges that resolve to a declared class. */
  method Build(entities: seq<Entity>, lower: string -> string) returns (l: Layer)
    ensures l.tag == StateTransitionLayer && WellFormedLayer(l) && NodeIds(l) == Declares(entities, lower)
    ensures l.nodes == FirstEach(StateNodes(entities, lower))
    ensures l.edges == StepEdges(entities, lower) + EdgesOver(Inherits(entities, NodeIds(l)), entities)
    ensures forall x: Edge | x.edgeType == INHERIT ::
              x in l.edges <==> exists e :: e in entities && e.entityType == "class" && IsInheritEdge(x, e, entities, NodeIds(l))
  {
    var nodes, ids, cm := DeclareClasses(entities);
    var steps;
    nodes, ids, steps := AddClasses(cm, entities, KindBy(lower), nodes, ids);
    StepsWithin(steps, nodes, ids);
    JoinTwice([], ClassNodes(entities), NodesOfClasses(cm, cm.order, KindBy(lower)));
    forall v ensures v in ids <==> v in Declares(entities, lower) {
      FirstTaken(StateNodes(entities, lower), v);
      StateNodesIds(entities, lower, v);
    }
    ClassesDeclared(entities, lower);
    var inherits := AddInheritance(entities, ids);
    InheritsWithin(entities, ids);
    forall x: Edge ensures x in inherits <==> exists e :: e in entities && e.entityType == "class" && IsInheritEdge(x, e, entities, ids) {
      InInherits(entities, ids, x);
    }
    DraftWellFormed(StateTransitionLayer, nodes, steps + inherits, ids);
    l := Layer(StateTransitionLayer, nodes, steps + inherits);
  }
}
