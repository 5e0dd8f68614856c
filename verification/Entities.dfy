/** What the layer builders share: parsed entities, node ids, and drafts of a layer. */
module Entities {
  import opened Digraph
  import opened Sgir

  /** An empty parent stands for none: the builders only ask whether it is there. */
  datatype Entity = Entity(entityType: string, filePath: string, name: string, parent: string, decorators: seq<string>,
                           bases: seq<string>, calls: seq<string>, references: seq<string>, complexity: Complexity)

  function MakeNodeId(filePath: string, name: string): Id {
    filePath + "::" + name
  }

  function IdOf(e: Entity): Id {
    MakeNodeId(e.filePath, e.name)
  }

  predicate Callable(e: Entity) {
    e.entityType == "function" || e.entityType == "method" || e.entityType == "class"
  }

  function CallableType(e: Entity): NodeType {
    if e.entityType == "method" then METHOD else if e.entityType == "class" then CLASS else FUNCTION
  }

  predicate Taken(nodes: seq<Node>, id: Id) {
    exists i :: 0 <= i < |nodes| && nodes[i].id == id
  }

  /** A node joins unless its id is taken. */
  function Joined(nodes: seq<Node>, node: Node): seq<Node> {
    if Taken(nodes, node.id) then nodes else nodes + [node]
  }

  /** Nodes join one after another. */
  function JoinAll(nodes: seq<Node>, more: seq<Node>): seq<Node> {
    if more == [] then nodes else Joined(JoinAll(nodes, more[..|more| - 1]), more[|more| - 1])
  }

  /** What is left of a list of nodes when each id keeps its first. */
  function FirstEach(all: seq<Node>): seq<Node> {
    JoinAll([], all)
  }

  lemma JoinSnoc(nodes: seq<Node>, more: seq<Node>, node: Node)
    ensures JoinAll(nodes, more + [node]) == Joined(JoinAll(nodes, more), node)
  {
    assert (more + [node])[..|more|] == more;
  }

  lemma {:induction false} JoinTwice(nodes: seq<Node>, a: seq<Node>, b: seq<Node>)
    ensures JoinAll(JoinAll(nodes, a), b) == JoinAll(nodes, a + b)
    decreases |b|
  {
    if b == [] {
      assert a + b == a;
    } else {
      var k := |b| - 1;
      JoinTwice(nodes, a, b[..k]);
      JoinSnoc(nodes, a + b[..k], b[k]);
      assert a + b == a + b[..k] + [b[k]];
    }
  }

  lemma TakenJoined(nodes: seq<Node>, node: Node, id: Id)
    ensures Taken(Joined(nodes, node), id) <==> Taken(nodes, id) || node.id == id
  {
    var joined := Joined(nodes, node);
    if i :| 0 <= i < |nodes| && nodes[i].id == id {
      assert joined[i].id == id;
    }
    if node.id == id && !Taken(nodes, id) {
      assert joined[|nodes|].id == id;
    }
  }

  lemma TakenSnoc(all: seq<Node>, node: Node, id: Id)
    ensures Taken(all + [node], id) <==> Taken(all, id) || node.id == id
  {
    if i :| 0 <= i < |all| && all[i].id == id {
      assert (all + [node])[i].id == id;
    }
    assert (all + [node])[|all|] == node;
  }

  lemma {:induction false} TakenJoinAll(nodes: seq<Node>, more: seq<Node>, id: Id)
    ensures Taken(JoinAll(nodes, more), id) <==> Taken(nodes, id) || Taken(more, id)
    decreases |more|
  {
    if more != [] {
      var k := |more| - 1;
      TakenJoinAll(nodes, more[..k], id);
      TakenJoined(JoinAll(nodes, more[..k]), more[k], id);
      TakenSnoc(more[..k], more[k], id);
      assert more == more[..k] + [more[k]];
    }
  }

  /** An id is kept exactly if the list has it. */
  lemma FirstTaken(all: seq<Node>, id: Id)
    ensures Taken(FirstEach(all), id) <==> Taken(all, id)
  {
    TakenJoinAll([], all, id);
  }

  ghost predicate First(all: seq<Node>, i: nat)
    requires i < |all|
  {
    forall j | 0 <= j < i :: all[j].id != all[i].id
  }

  ghost predicate FirstOf(all: seq<Node>, n: Node) {
    exists i: nat :: i < |all| && all[i] == n && First(all, i)
  }

  lemma FirstOfPrefix(all: seq<Node>, node: Node, i: nat)
    requires i < |all|
    ensures (all + [node])[i] == all[i] && (First(all + [node], i) <==> First(all, i))
  {
    var more := all + [node];
    forall j | 0 <= j < i ensures more[j] == all[j] {
    }
  }

  lemma FirstOfLast(all: seq<Node>, node: Node)
    ensures First(all + [node], |all|) <==> !Taken(all, node.id)
  {
    var more := all + [node];
    forall j | 0 <= j < |all| ensures more[j] == all[j] {
    }
  }

  lemma FirstOfSnoc(all: seq<Node>, node: Node, n: Node)
    ensures FirstOf(all + [node], n) <==> FirstOf(all, n) || (n == node && !Taken(all, node.id))
  {
    var more := all + [node];
    FirstOfLast(all, node);
    assert more[|all|] == node;
    if i: nat :| i < |all| && all[i] == n && First(all, i) {
      FirstOfPrefix(all, node, i);
    }
    if i: nat :| i < |more| && more[i] == n && First(more, i) {
      if i < |all| {
        FirstOfPrefix(all, node, i);
      }
    }
  }

  /** Every id keeps exactly the first of its nodes. */
  lemma {:induction false} FirstEachMeans(all: seq<Node>)
    ensures forall i, j | 0 <= i < j < |FirstEach(all)| :: FirstEach(all)[i].id != FirstEach(all)[j].id
    ensures forall n :: n in FirstEach(all) <==> FirstOf(all, n)
    decreases |all|
  {
    if all != [] {
      var k := |all| - 1;
      FirstEachMeans(all[..k]);
      FirstTaken(all[..k], all[k].id);
      assert all == all[..k] + [all[k]];
      forall n ensures n in FirstEach(all) <==> FirstOf(all, n) {
        FirstOfSnoc(all[..k], all[k], n);
      }
    }
  }

  /** The nodes so far have distinct ids, and these are the ids. */
  ghost predicate Drafted(nodes: seq<Node>, ids: set<Id>) {
    && (forall i, j | 0 <= i < j < |nodes| :: nodes[i].id != nodes[j].id)
    && (forall v :: v in ids <==> Taken(nodes, v))
  }

  ghost predicate Within(edges: seq<Edge>, ids: set<Id>) {
    forall e | e in edges :: e.source in ids && e.target in ids
  }

  /** Adds a node unless its id is taken. */
  method Declare(nodes: seq<Node>, ids: set<Id>, node: Node) returns (nodes': seq<Node>, ids': set<Id>)
    requires Drafted(nodes, ids)
    ensures Drafted(nodes', ids') && ids' == ids + {node.id} && nodes' == Joined(nodes, node)
  {
    nodes', ids' := nodes, ids;
    if node.id !in ids {
      ids' := ids + {node.id};
      nodes' := nodes + [node];
    }
    forall v ensures v in ids' <==> Taken(nodes', v) {
      TakenJoined(nodes, node, v);
    }
  }

  lemma TakenAppend(a: seq<Node>, b: seq<Node>, v: Id)
    ensures Taken(a + b, v) <==> Taken(a, v) || Taken(b, v)
  {
    if i :| 0 <= i < |a| && a[i].id == v {
      assert (a + b)[i].id == v;
    }
    if i :| 0 <= i < |b| && b[i].id == v {
      assert (a + b)[|a| + i].id == v;
    }
    if i :| 0 <= i < |a + b| && (a + b)[i].id == v {
      assert i < |a| ==> a[i].id == v;
      assert i >= |a| ==> b[i - |a|].id == v;
    }
  }

  lemma DraftWellFormed(tag: GraphLayer, nodes: seq<Node>, edges: seq<Edge>, ids: set<Id>)
    requires Drafted(nodes, ids) && Within(edges, ids)
    ensures WellFormedLayer(Layer(tag, nodes, edges)) && NodeIds(Layer(tag, nodes, edges)) == ids
  {
    forall v ensures v in NodeIds(Layer(tag, nodes, edges)) <==> v in ids {
      if n :| n in nodes && n.id == v {
        var i :| 0 <= i < |nodes| && nodes[i] == n;
        assert Taken(nodes, v);
      }
    }
  }

  /** The edges each entity brings, one entity after another. */
  function EdgesOver(brings: Entity -> seq<Edge>, entities: seq<Entity>): seq<Edge> {
    if entities == [] then [] else EdgesOver(brings, entities[..|entities| - 1]) + brings(entities[|entities| - 1])
  }

  lemma EdgesOverNext(brings: Entity -> seq<Edge>, entities: seq<Entity>, i: nat)
    requires i < |entities|
    ensures EdgesOver(brings, entities[..i + 1]) == EdgesOver(brings, entities[..i]) + brings(entities[i])
  {
    assert entities[..i + 1][..i] == entities[..i];
  }

  lemma {:induction false} InEdgesOver(brings: Entity -> seq<Edge>, entities: seq<Entity>, x: Edge)
    ensures x in EdgesOver(brings, entities) <==> exists e :: e in entities && x in brings(e)
    decreases |entities|
  {
    if entities != [] {
      var k := |entities| - 1;
      InEdgesOver(brings, entities[..k], x);
      assert entities == entities[..k] + [entities[k]];
    }
  }
}
