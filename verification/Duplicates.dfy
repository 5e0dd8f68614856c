/** passes.py, `detect_duplicates`. */
module Duplicates {
  import opened Digraph
  import opened Lists
  import opened Sgir
  import opened CycleBreaking
  import opened Signatures

  const MIN_DUPLICATE_COMPONENT_SIZE := 2

  /** The forward-reachable set of a start node within its layer. */
  ghost function ComponentOf(l: Layer, start: Id): set<Id> {
    set v | v in LayerGraph(l).nodes + {start} && Reach(LayerArcs(l), start, v)
  }

  /** No node listed before position k reaches node k. */
  ghost predicate Starts(l: Layer, k: nat)
    requires k < |l.nodes|
  {
    forall j | 0 <= j < k :: !Reach(LayerArcs(l), l.nodes[j].id, l.nodes[k].id)
  }

  /** A component the scan takes a signature of. */
  datatype Entry = Entry(start: Id, signature: seq<string>)

  /** At most one entry: the component that node k starts. */
  ghost function NodeEntries(l: Layer, k: nat): seq<Entry>
    requires k < |l.nodes|
  {
    var start := l.nodes[k].id;
    if Starts(l, k) && |ComponentOf(l, start)| >= MIN_DUPLICATE_COMPONENT_SIZE
    then [Entry(start, Signature(l, ComponentOf(l, start)))] else []
  }

  ghost function EntriesFrom(l: Layer): nat -> seq<Entry> {
    (k: nat) => if k < |l.nodes| then NodeEntries(l, k) else []
  }

  ghost function Concat<T>(f: nat -> seq<T>, n: nat): seq<T> {
    if n == 0 then [] else Concat(f, n - 1) + f(n - 1)
  }

  ghost function LayerEntries(l: Layer): seq<Entry> {
    Concat(EntriesFrom(l), |l.nodes|)
  }

  ghost function EntriesOfLayers(layers: seq<Layer>): nat -> seq<Entry> {
    (i: nat) => if i < |layers| then LayerEntries(layers[i]) else []
  }

  /** The scanned components, layer by layer, in the order the scan meets them. */
  ghost function Entries(layers: seq<Layer>): seq<Entry> {
    Concat(EntriesOfLayers(layers), |layers|)
  }

  /** Where two members of a concatenation come from. */
  lemma {:induction false} ConcatOrder<T>(f: nat -> seq<T>, n: nat, p: nat, q: nat) returns (i: nat, r: nat, j: nat, s: nat)
    requires p <= q < |Concat(f, n)|
    ensures i <= j < n && r < |f(i)| && s < |f(j)|
    ensures Concat(f, n)[p] == f(i)[r] && Concat(f, n)[q] == f(j)[s]
    ensures i == j ==> q - p == s - r
    decreases n
  {
    var m := |Concat(f, n - 1)|;
    if q < m {
      i, r, j, s := ConcatOrder(f, n - 1, p, q);
    } else {
      j, s := n - 1, q - m;
      if p < m {
        var i', r';
        i, r, i', r' := ConcatOrder(f, n - 1, p, p);
      } else {
        i, r := n - 1, p - m;
      }
    }
  }

  /** The start of the first entry with each signature. */
  ghost function FirstStarts(entries: seq<Entry>): map<seq<string>, Id> {
    if entries == [] then map[]
    else
      var last := entries[|entries| - 1];
      var before := FirstStarts(entries[..|entries| - 1]);
      if last.signature in before then before else before[last.signature := last.start]
  }

  /** Each entry whose signature was met before, paired with the first that had it. */
  ghost function Pairs(entries: seq<Entry>): seq<(Id, Id)> {
    if entries == [] then []
    else
      var last := entries[|entries| - 1];
      var before := entries[..|entries| - 1];
      if last.signature in FirstStarts(before) then Pairs(before) + [(FirstStarts(before)[last.signature], last.start)]
      else Pairs(before)
  }

  // ------------------------------------------------------------ the method

  lemma ArcsAdded(adjacency: map<Id, set<Id>>, s: Id, t: Id)
    ensures ArcsOf(adjacency[s := Neighbours(adjacency, s) + {t}]) == ArcsOf(adjacency) + {(s, t)}
  {
    var after := adjacency[s := Neighbours(adjacency, s) + {t}];
    forall a | a in ArcsOf(adjacency) + {(s, t)} ensures a in ArcsOf(after) {
      assert a.0 in after && a.1 in after[a.0];
    }
  }

  method BuildAdjacency(l: Layer) returns (adjacency: map<Id, set<Id>>)
    ensures ArcsOf(adjacency) == LayerArcs(l)
  {
    adjacency := map[];
    for i := 0 to |l.edges|
      invariant forall u, v :: (u, v) in ArcsOf(adjacency) <==> exists k :: 0 <= k < i && l.edges[k].source == u && l.edges[k].target == v
    {
      var e := l.edges[i];
      var targets := Neighbours(adjacency, e.source) + {e.target};
      ArcsAdded(adjacency, e.source, e.target);
      adjacency := adjacency[e.source := targets];
    }
    forall a | a in LayerArcs(l) ensures a in ArcsOf(adjacency) {
      var e :| e in l.edges && a == (e.source, e.target);
      var k :| 0 <= k < |l.edges| && l.edges[k] == e;
      assert (a.0, a.1) in ArcsOf(adjacency);
    }
    forall a | a in ArcsOf(adjacency) ensures a in LayerArcs(l) {
      assert (a.0, a.1) in ArcsOf(adjacency);
      var k :| 0 <= k < |l.edges| && l.edges[k].source == a.0 && l.edges[k].target == a.1;
      assert l.edges[k] in l.edges;
    }
  }

  lemma ComponentMeans(l: Layer, start: Id, v: Id)
    ensures v in ComponentOf(l, start) <==> Reach(LayerArcs(l), start, v)
  {
    LayerGraphWellFormed(l);
    if Reach(LayerArcs(l), start, v) && v != start {
      var w := ReachLast(LayerArcs(l), start, v);
      assert (w, v) in LayerGraph(l).arcs;
    }
  }

  /** The forward search from a start, as a component of its layer. */
  method Component(l: Layer, adjacency: map<Id, set<Id>>, start: Id) returns (component: set<Id>)
    requires ArcsOf(adjacency) == LayerArcs(l)
    ensures component == ComponentOf(l, start)
  {
    component := BfsComponent(start, adjacency);
    forall v ensures v in component <==> v in ComponentOf(l, start) {
      ComponentMeans(l, start, v);
    }
  }

  /** What the scan holds once it has met the entries. */
  ghost predicate Recorded(duplicates: seq<(Id, Id)>, seen: map<seq<string>, Id>, entries: seq<Entry>) {
    duplicates == Pairs(entries) && seen == FirstStarts(entries)
  }

  lemma RecordedSnoc(duplicates: seq<(Id, Id)>, seen: map<seq<string>, Id>, entries: seq<Entry>, e: Entry)
    requires Recorded(duplicates, seen, entries)
    ensures e.signature in seen ==> Recorded(duplicates + [(seen[e.signature], e.start)], seen, entries + [e])
    ensures e.signature !in seen ==> Recorded(duplicates, seen[e.signature := e.start], entries + [e])
  {
    assert (entries + [e])[..|entries|] == entries;
  }

  /** Everything reached from the nodes before position k. */
  ghost function Visited(l: Layer, k: nat): set<Id>
    requires k <= |l.nodes|
  {
    if k == 0 then {} else Visited(l, k - 1) + ComponentOf(l, l.nodes[k - 1].id)
  }

  lemma {:induction false} VisitedMeans(l: Layer, k: nat, v: Id)
    requires k <= |l.nodes|
    ensures v in Visited(l, k) <==> exists j :: 0 <= j < k && Reach(LayerArcs(l), l.nodes[j].id, v)
    decreases k
  {
    if k > 0 {
      VisitedMeans(l, k - 1, v);
      ComponentMeans(l, l.nodes[k - 1].id, v);
    }
  }

  /** A node is skipped exactly if an earlier one reaches it, and then adds nothing. */
  lemma VisitedStep(l: Layer, k: nat)
    requires k < |l.nodes|
    ensures l.nodes[k].id in Visited(l, k) <==> !Starts(l, k)
    ensures l.nodes[k].id in Visited(l, k) ==> Visited(l, k + 1) == Visited(l, k)
  {
    var start := l.nodes[k].id;
    VisitedMeans(l, k, start);
    if j :| 0 <= j < k && Reach(LayerArcs(l), l.nodes[j].id, start) {
      forall v | v in ComponentOf(l, start) ensures v in Visited(l, k) {
        ReachTrans(LayerArcs(l), l.nodes[j].id, start, v);
        VisitedMeans(l, k, v);
      }
    }
  }

  /** One turn of the scan: skip a visited node, otherwise search forward from it. */
  method ScanNode(l: Layer, k: nat, adjacency: map<Id, set<Id>>, ghost before: seq<Entry>,
                  duplicates: seq<(Id, Id)>, seen: map<seq<string>, Id>, visited: set<Id>)
    returns (duplicates': seq<(Id, Id)>, seen': map<seq<string>, Id>, visited': set<Id>)
    requires k < |l.nodes| && ArcsOf(adjacency) == LayerArcs(l)
    requires Recorded(duplicates, seen, before) && visited == Visited(l, k)
    ensures Recorded(duplicates', seen', before + NodeEntries(l, k))
    ensures visited' == Visited(l, k + 1)
  {
    duplicates', seen', visited' := duplicates, seen, visited;
    var start := l.nodes[k].id;
    assert before + [] == before;
    VisitedStep(l, k);
    if start in visited {
      return;
    }
    var component := Component(l, adjacency, start);
    visited' := visited + component;
    if |component| < MIN_DUPLICATE_COMPONENT_SIZE {
      return;
    }
    var sig := SubgraphSignature(l, component);
    RecordedSnoc(duplicates, seen, before, Entry(start, sig));
    if sig in seen {
      duplicates' := duplicates + [(seen[sig], start)];
    } else {
      seen' := seen[sig := start];
    }
  }

  lemma ConcatStep(before: seq<Entry>, l: Layer, k: nat)
    requires k < |l.nodes|
    ensures before + Concat(EntriesFrom(l), k) + NodeEntries(l, k) == before + Concat(EntriesFrom(l), k + 1)
  {
    var f := EntriesFrom(l);
    assert Concat(f, k + 1) == Concat(f, k) + f(k);
  }

  method ScanLayer(l: Layer, ghost before: seq<Entry>, duplicates: seq<(Id, Id)>, seen: map<seq<string>, Id>)
    returns (duplicates': seq<(Id, Id)>, seen': map<seq<string>, Id>)
    requires Recorded(duplicates, seen, before)
    ensures Recorded(duplicates', seen', before + LayerEntries(l))
  {
    duplicates', seen' := duplicates, seen;
    var adjacency := BuildAdjacency(l);
    var visited: set<Id> := {};
    ghost var entries := before;
    for k := 0 to |l.nodes|
      invariant entries == before + Concat(EntriesFrom(l), k)
      invariant Recorded(duplicates', seen', entries) && visited == Visited(l, k)
    {
      duplicates', seen', visited := ScanNode(l, k, adjacency, entries, duplicates', seen', visited);
      ConcatStep(before, l, k);
      entries := entries + NodeEntries(l, k);
    }
  }

  method DetectDuplicates(graph: Software) returns (duplicates: seq<(Id, Id)>)
    ensures duplicates == Pairs(Entries(graph.layers))
  {
    var seen: map<seq<string>, Id> := map[];
    duplicates := [];
    ghost var entries: seq<Entry> := [];
    for i := 0 to |graph.layers|
      invariant entries == Concat(EntriesOfLayers(graph.layers), i)
      invariant Recorded(duplicates, seen, entries)
    {
      duplicates, seen := ScanLayer(graph.layers[i], entries, duplicates, seen);
      entries := entries + LayerEntries(graph.layers[i]);
    }
  }

  // ------------------------------------------------------------ exactness

  /** In a component of two or more nodes every node is an end of an edge inside it. */
  lemma ComponentFromEdges(l: Layer, start: Id, v: Id)
    requires |ComponentOf(l, start)| >= 2
    ensures var s := ComponentOf(l, start);
            v in s <==> exists e :: e in EdgesInside(l, s) && (e.source == v || e.target == v)
  {
    var s := ComponentOf(l, start);
    var E := LayerArcs(l);
    var inside := Filter(Inside(s), l.edges);
    forall e ensures e in EdgesInside(l, s) <==> e in inside {
      assert e in multiset(EdgesInside(l, s)) <==> e in multiset(inside);
    }
    LayerGraphWellFormed(l);
    if v in s {
      var a: Arc;
      if v == start {
        var x := Another(s, start);
        var w := ReachFirst(E, start, x);
        ReachArc(E, start, w);
        a := (start, w);
      } else {
        var w := ReachLast(E, start, v);
        a := (w, v);
      }
      assert a in LayerGraph(l).arcs;
      var e :| e in l.edges && a == (e.source, e.target);
      ReachRefl(E, start);
      assert e in inside;
    }
  }

  /** Equal signatures of scanned components mean equal typed edges, in order, and equal
      node sets. */
  lemma EqualSignatures(l: Layer, m: Layer, a: Id, b: Id)
    requires |ComponentOf(l, a)| >= 2 && |ComponentOf(m, b)| >= 2
    requires Signature(l, ComponentOf(l, a)) == Signature(m, ComponentOf(m, b))
    ensures ComponentOf(l, a) == ComponentOf(m, b)
    ensures EdgesInside(l, ComponentOf(l, a)) == EdgesInside(m, ComponentOf(m, b))
    ensures forall v | v in ComponentOf(l, a) :: Label(l, v) == Label(m, v)
  {
    PartsInjective(l, m, EdgesInside(l, ComponentOf(l, a)), EdgesInside(m, ComponentOf(m, b)));
    forall v | v in ComponentOf(l, a) ensures Label(l, v) == Label(m, v) {
      ComponentFromEdges(l, a, v);
    }
    forall v ensures v in ComponentOf(l, a) <==> v in ComponentOf(m, b) {
      ComponentFromEdges(l, a, v);
      ComponentFromEdges(m, b, v);
    }
  }

  /** An entry describes the component its start has in the layer. */
  ghost predicate Describes(l: Layer, e: Entry) {
    && e.start in NodeIds(l)
    && |ComponentOf(l, e.start)| >= 2
    && e.signature == Signature(l, ComponentOf(l, e.start))
  }

  lemma NodeEntryDescribes(l: Layer, k: nat)
    requires k < |l.nodes|
    ensures forall e | e in NodeEntries(l, k) :: e.start == l.nodes[k].id && Starts(l, k) && Describes(l, e)
  {
    assert l.nodes[k] in l.nodes;
  }

  /** A start not reached from an earlier one has another signature. */
  lemma StartsDistinct(l: Layer, j: nat, k: nat, e: Entry, f: Entry)
    requires j < k < |l.nodes| && Starts(l, k)
    requires Describes(l, e) && Describes(l, f) && e.start == l.nodes[j].id && f.start == l.nodes[k].id
    ensures e.signature != f.signature
  {
    ReachRefl(LayerArcs(l), f.start);
    assert f.start in ComponentOf(l, f.start) && f.start !in ComponentOf(l, e.start);
    if e.signature == f.signature {
      EqualSignatures(l, l, e.start, f.start);
    }
  }

  lemma NodeEntriesDistinct(l: Layer, j: nat, k: nat, e: Entry, f: Entry)
    requires j < k < |l.nodes| && e in NodeEntries(l, j) && f in NodeEntries(l, k)
    ensures e.signature != f.signature
  {
    NodeEntryDescribes(l, j);
    NodeEntryDescribes(l, k);
    StartsDistinct(l, j, k, e, f);
  }

  /** Within one layer every entry describes its component, and no signature is met twice. */
  lemma LayerEntriesFacts(l: Layer, p: nat, q: nat)
    requires p <= q < |LayerEntries(l)|
    ensures Describes(l, LayerEntries(l)[p])
    ensures p < q ==> LayerEntries(l)[p].signature != LayerEntries(l)[q].signature
  {
    var f := EntriesFrom(l);
    var i, r, j, s := ConcatOrder(f, |l.nodes|, p, q);
    NodeEntryDescribes(l, i);
    if p < q {
      assert |f(i)| <= 1 && |f(j)| <= 1;
      NodeEntriesDistinct(l, i, j, f(i)[r], f(j)[s]);
    }
  }

  /** Every scanned entry describes its component in some layer; equal signatures come from
      different layers. */
  lemma EntriesFacts(layers: seq<Layer>, p: nat, q: nat) returns (i: nat, j: nat)
    requires p < q < |Entries(layers)|
    ensures i <= j < |layers| && Describes(layers[i], Entries(layers)[p]) && Describes(layers[j], Entries(layers)[q])
    ensures Entries(layers)[p].signature == Entries(layers)[q].signature ==> i < j
  {
    var f := EntriesOfLayers(layers);
    var r, s;
    i, r, j, s := ConcatOrder(f, |layers|, p, q);
    LayerEntriesFacts(layers[i], r, r);
    LayerEntriesFacts(layers[j], s, s);
    if i == j {
      LayerEntriesFacts(layers[i], r, s);
    }
  }

  /** Entry q repeats the signature of entry p, and p is the first to have it. */
  ghost predicate Repeats(entries: seq<Entry>, p: nat, q: nat) {
    && p < q < |entries|
    && entries[p].signature == entries[q].signature
    && forall r | 0 <= r < p :: entries[r].signature != entries[q].signature
  }

  /** The first entry with a signature; none if the signature was not met. */
  lemma {:induction false} FirstStartAt(entries: seq<Entry>, s: seq<string>) returns (p: nat)
    ensures s in FirstStarts(entries) ==>
              p < |entries| && entries[p].signature == s && FirstStarts(entries)[s] == entries[p].start
    ensures s !in FirstStarts(entries) ==> p == |entries|
    ensures forall r | 0 <= r < p :: entries[r].signature != s
    decreases |entries|
  {
    p := 0;
    if entries != [] {
      var n := |entries| - 1;
      p := FirstStartAt(entries[..n], s);
      if p == n && entries[n].signature != s {
        p := n + 1;
      }
    }
  }

  /** Every reported pair names an entry and the first entry with the same signature. */
  lemma {:induction false} PairsSound(entries: seq<Entry>, a: Id, b: Id) returns (p: nat, q: nat)
    requires (a, b) in Pairs(entries)
    ensures Repeats(entries, p, q) && entries[p].start == a && entries[q].start == b
    decreases |entries|
  {
    var n := |entries| - 1;
    if (a, b) in Pairs(entries[..n]) {
      p, q := PairsSound(entries[..n], a, b);
    } else {
      p := FirstStartAt(entries[..n], entries[n].signature);
      q := n;
    }
  }

  /** Every repetition is reported. */
  lemma {:induction false} PairsComplete(entries: seq<Entry>, p: nat, q: nat)
    requires Repeats(entries, p, q)
    ensures (entries[p].start, entries[q].start) in Pairs(entries)
    decreases |entries|
  {
    var n := |entries| - 1;
    if q < n {
      PairsComplete(entries[..n], p, q);
    } else {
      assert entries[..n][p].signature == entries[n].signature;
      var p' := FirstStartAt(entries[..n], entries[n].signature);
      assert p' == p;
    }
  }

  /** An id of s that both layers declare has the same type in both. */
  ghost predicate SameTypes(l: Layer, m: Layer, s: set<Id>) {
    forall v, n, k | v in s && Stands(l.nodes, v, n) && Stands(m.nodes, v, k) :: n.nodeType == k.nodeType
  }

  lemma SameLabelsSameTypes(l: Layer, m: Layer, s: set<Id>)
    requires forall v | v in s :: Label(l, v) == Label(m, v)
    ensures SameTypes(l, m, s)
  {
    forall v, n, k | v in s && Stands(l.nodes, v, n) && Stands(m.nodes, v, k) ensures n.nodeType == k.nodeType {
      FindNodeStands(l.nodes, v, n);
      FindNodeStands(m.nodes, v, k);
      NodeTypeInjective(n.nodeType, k.nodeType);
    }
  }

  /** a in layer i and b in a later layer j start components with the same nodes and the
      same typed edges in the same order. */
  ghost predicate TrueDuplicate(layers: seq<Layer>, i: nat, j: nat, a: Id, b: Id) {
    && i < j < |layers| && a in NodeIds(layers[i]) && b in NodeIds(layers[j])
    && ComponentOf(layers[i], a) == ComponentOf(layers[j], b)
    && |ComponentOf(layers[i], a)| >= 2
    && EdgesInside(layers[i], ComponentOf(layers[i], a)) == EdgesInside(layers[j], ComponentOf(layers[j], b))
    && SameTypes(layers[i], layers[j], ComponentOf(layers[i], a))
  }

  lemma DescribeSame(l: Layer, m: Layer, e: Entry, f: Entry)
    requires Describes(l, e) && Describes(m, f) && e.signature == f.signature
    ensures ComponentOf(l, e.start) == ComponentOf(m, f.start)
    ensures EdgesInside(l, ComponentOf(l, e.start)) == EdgesInside(m, ComponentOf(m, f.start))
    ensures |ComponentOf(l, e.start)| >= 2 && SameTypes(l, m, ComponentOf(l, e.start))
  {
    EqualSignatures(l, m, e.start, f.start);
    SameLabelsSameTypes(l, m, ComponentOf(l, e.start));
  }

  /** Every reported pair is a true duplicate, and comes from two different layers. */
  lemma DuplicatesSound(g: Software, a: Id, b: Id) returns (i: nat, j: nat)
    requires (a, b) in Pairs(Entries(g.layers))
    ensures TrueDuplicate(g.layers, i, j, a, b)
  {
    var entries := Entries(g.layers);
    var p, q := PairsSound(entries, a, b);
    i, j := EntriesFacts(g.layers, p, q);
    DescribeSame(g.layers[i], g.layers[j], entries[p], entries[q]);
  }

  /** Nothing is missed: a scanned component whose signature an earlier one had is reported,
      against the first to have it. */
  lemma DuplicatesComplete(g: Software, p: nat, q: nat)
    requires p < q < |Entries(g.layers)| && Entries(g.layers)[p].signature == Entries(g.layers)[q].signature
    ensures exists r: nat :: r <= p && Repeats(Entries(g.layers), r, q)
                     && (Entries(g.layers)[r].start, Entries(g.layers)[q].start) in Pairs(Entries(g.layers))
  {
    var entries := Entries(g.layers);
    var s := entries[q].signature;
    var r := FirstStartAt(entries, s);
    PairsComplete(entries, r, q);
  }

  // ------------------------------------------- completeness over layers

  /** A member of a part stands in the concatenation, after the parts before it. */
  lemma {:induction false} ConcatAt<T>(f: nat -> seq<T>, n: nat, i: nat, r: nat) returns (p: nat)
    requires i < n && r < |f(i)|
    ensures p == |Concat(f, i)| + r < |Concat(f, n)| && Concat(f, n)[p] == f(i)[r]
    decreases n
  {
    p := |Concat(f, i)| + r;
    if i < n - 1 {
      var q := ConcatAt(f, n - 1, i, r);
    }
  }

  lemma {:induction false} ConcatLonger<T>(f: nat -> seq<T>, i: nat, j: nat)
    requires i <= j
    ensures |Concat(f, i)| <= |Concat(f, j)|
    decreases j
  {
    if i < j {
      ConcatLonger(f, i, j - 1);
    }
  }

  /** Members of an earlier part come first. */
  lemma ConcatBefore<T>(f: nat -> seq<T>, n: nat, i: nat, r: nat, j: nat, s: nat) returns (p: nat, q: nat)
    requires i < j < n && r < |f(i)| && s < |f(j)|
    ensures p < q < |Concat(f, n)| && Concat(f, n)[p] == f(i)[r] && Concat(f, n)[q] == f(j)[s]
  {
    p := ConcatAt(f, n, i, r);
    q := ConcatAt(f, n, j, s);
    assert |Concat(f, i + 1)| == |Concat(f, i)| + |f(i)|;
    ConcatLonger(f, i + 1, j);
  }

  lemma EntriesAt(layers: seq<Layer>, i: nat)
    requires i < |layers|
    ensures EntriesOfLayers(layers)(i) == LayerEntries(layers[i])
  {
  }

  /** No earlier node reaches node k, and it reaches another: its component is scanned. */
  ghost predicate Scanned(l: Layer, k: nat) {
    && k < |l.nodes| && (forall j | 0 <= j < k :: !Reach(LayerArcs(l), l.nodes[j].id, l.nodes[k].id))
    && |ComponentOf(l, l.nodes[k].id)| >= 2
  }

  ghost function EntryOf(l: Layer, k: nat): Entry
    requires k < |l.nodes|
  {
    Entry(l.nodes[k].id, Signature(l, ComponentOf(l, l.nodes[k].id)))
  }

  lemma ScannedEntry(l: Layer, k: nat) returns (r: nat)
    requires Scanned(l, k)
    ensures r < |LayerEntries(l)| && LayerEntries(l)[r] == EntryOf(l, k)
  {
    assert Starts(l, k);
    assert EntriesFrom(l)(k) == [EntryOf(l, k)];
    r := ConcatAt(EntriesFrom(l), |l.nodes|, k, 0);
  }

  /** Entries of an earlier layer come first. */
  lemma ScannedEntries(layers: seq<Layer>, i: nat, j: nat, k: nat, m: nat) returns (p: nat, q: nat)
    requires i < j < |layers| && Scanned(layers[i], k) && Scanned(layers[j], m)
    ensures p < q < |Entries(layers)|
    ensures Entries(layers)[p] == EntryOf(layers[i], k) && Entries(layers)[q] == EntryOf(layers[j], m)
  {
    var f := EntriesOfLayers(layers);
    var r := ScannedEntry(layers[i], k);
    var s := ScannedEntry(layers[j], m);
    EntriesAt(layers, i);
    EntriesAt(layers, j);
    p, q := ConcatBefore(f, |layers|, i, r, j, s);
  }

  /** The nodes start components with the same nodes, the same labels and the same edges
      inside, in any order and none parallel. */
  ghost predicate SameComponents(l: Layer, m: Layer, a: Id, b: Id) {
    var s := ComponentOf(l, a);
    && s == ComponentOf(m, b)
    && multiset(Filter(Inside(s), l.edges)) == multiset(Filter(Inside(s), m.edges))
    && NoParallel(Filter(Inside(s), l.edges))
    && forall v | v in s :: Label(l, v) == Label(m, v)
  }

  /** Whatever a later layer repeats of an earlier one is reported, whatever the order of its edges. */
  lemma RepeatedComponentReported(g: Software, i: nat, j: nat, k: nat, m: nat)
    requires i < j < |g.layers| && Scanned(g.layers[i], k) && Scanned(g.layers[j], m)
    requires SameComponents(g.layers[i], g.layers[j], g.layers[i].nodes[k].id, g.layers[j].nodes[m].id)
    ensures exists a :: (a, g.layers[j].nodes[m].id) in Pairs(Entries(g.layers))
  {
    var p, q := ScannedEntries(g.layers, i, j, k, m);
    SignatureCanonical(g.layers[i], g.layers[j], ComponentOf(g.layers[i], g.layers[i].nodes[k].id));
    DuplicatesComplete(g, p, q);
  }
}
