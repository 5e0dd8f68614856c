/** passes.py, `subgraph_signature`: a canonical flat list of strings for the edges
    inside a node set. */
module Signatures {
  import opened Digraph
  import opened Lists
  import opened Sgir
  import opened CycleBreaking

  function NodeTypeValue(t: NodeType): string {
    match t
    case FUNCTION => "function" case METHOD => "method" case CLASS => "class" case MODULE => "module"
    case PACKAGE => "package" case SERVICE => "service" case ENDPOINT => "endpoint"
    case EVENT_HANDLER => "event_handler" case MIDDLEWARE => "middleware" case DATAMODEL => "datamodel"
    case CONFIG => "config" case INFRASTRUCTURE => "infrastructure" case UNKNOWN_TYPE => "unknown"
  }

  function EdgeTypeValue(t: EdgeType): string {
    match t
    case CALL => "call" case DATA => "data" case CONTROL => "control" case DEPENDENCY => "dependency"
    case EVENT => "event" case NETWORK => "network" case DATABASE => "database"
    case STATE_TRANSITION => "state_transition" case IMPORT => "import" case INHERIT => "inherit"
    case IMPLEMENT => "implement" case COMPOSE => "compose"
  }

  lemma EdgeTypeInjective(s: EdgeType, t: EdgeType)
    requires EdgeTypeValue(s) == EdgeTypeValue(t)
    ensures s == t
  {
    var a, b := EdgeTypeValue(s), EdgeTypeValue(t);
    assert |a| == |b| && a[0] == b[0] && a[1] == b[1] && a[2] == b[2] && a[3] == b[3];
  }

  lemma NodeTypeInjective(s: NodeType, t: NodeType)
    requires NodeTypeValue(s) == NodeTypeValue(t)
    ensures s == t
  {
    var a, b := NodeTypeValue(s), NodeTypeValue(t);
    assert |a| == |b| && a[0] == b[0] && a[1] == b[1] && a[2] == b[2];
  }

  // --------------------------------------------------------- sorting edges

  /** Python's order on strings: by the first differing code point. */
  predicate StringLess(a: string, b: string) {
    if b == "" then false else if a == "" then true
    else if a[0] != b[0] then a[0] < b[0] else StringLess(a[1..], b[1..])
  }

  /** The sort key is (source, target). */
  predicate KeyLess(e: Edge, f: Edge) {
    StringLess(e.source, f.source) || (e.source == f.source && StringLess(e.target, f.target))
  }

  predicate SameKey(e: Edge, f: Edge) {
    e.source == f.source && e.target == f.target
  }

  function Insert(s: seq<Edge>, e: Edge): (r: seq<Edge>)
    ensures multiset(r) == multiset(s) + multiset{e}
  {
    if s != [] && KeyLess(e, s[|s| - 1]) then
      assert s == s[..|s| - 1] + [s[|s| - 1]];
      Insert(s[..|s| - 1], e) + [s[|s| - 1]]
    else s + [e]
  }

  /** Python's stable `sorted`. */
  function Sort(s: seq<Edge>): (r: seq<Edge>)
    ensures multiset(r) == multiset(s)
  {
    if s == [] then []
    else
      assert s == s[..|s| - 1] + [s[|s| - 1]];
      Insert(Sort(s[..|s| - 1]), s[|s| - 1])
  }

  ghost predicate Sorted(s: seq<Edge>) {
    forall i, j | 0 <= i < j < |s| :: !KeyLess(s[j], s[i])
  }

  lemma {:induction false} StringOrder(a: string, b: string, c: string)
    ensures StringLess(a, b) ==> !StringLess(b, a)
    ensures a == b || StringLess(a, b) || StringLess(b, a)
    ensures !StringLess(a, a)
    ensures StringLess(a, b) && StringLess(b, c) ==> StringLess(a, c)
    decreases |a|
  {
    if a != "" && b != "" {
      StringOrder(a[1..], b[1..], if c == "" then "" else c[1..]);
      assert a == [a[0]] + a[1..] && b == [b[0]] + b[1..];
    } else if a != "" {
      StringOrder(a[1..], a[1..], a[1..]);
    }
  }

  lemma KeyOrder(e: Edge, f: Edge, h: Edge)
    ensures KeyLess(e, f) ==> !KeyLess(f, e)
    ensures SameKey(e, f) || KeyLess(e, f) || KeyLess(f, e)
    ensures KeyLess(e, f) && KeyLess(f, h) ==> KeyLess(e, h)
    ensures KeyLess(e, f) && SameKey(f, h) ==> KeyLess(e, h)
    ensures SameKey(e, f) && KeyLess(f, h) ==> KeyLess(e, h)
  {
    StringOrder(e.source, f.source, h.source);
    StringOrder(e.target, f.target, h.target);
    StringOrder(f.source, h.source, e.source);
    StringOrder(f.target, h.target, e.target);
  }

  lemma InsertMember(s: seq<Edge>, e: Edge, x: Edge)
    requires x in Insert(s, e)
    ensures x == e || x in s
  {
    assert x in multiset(Insert(s, e));
  }

  lemma NotLessThanEarlier(s: seq<Edge>, e: Edge, i: nat)
    requires Sorted(s) && i < |s| && !KeyLess(e, s[|s| - 1])
    ensures !KeyLess(e, s[i])
  {
    var f := s[|s| - 1];
    KeyOrder(e, s[i], f);
    KeyOrder(s[i], f, e);
    KeyOrder(e, f, s[i]);
  }

  lemma {:induction false} InsertSorted(s: seq<Edge>, e: Edge)
    requires Sorted(s)
    ensures Sorted(Insert(s, e))
    decreases |s|
  {
    var n := |s| - 1;
    if s != [] && KeyLess(e, s[n]) {
      InsertSorted(s[..n], e);
      var r := Insert(s[..n], e);
      forall x | x in r ensures !KeyLess(s[n], x) {
        InsertMember(s[..n], e, x);
        KeyOrder(e, s[n], e);
      }
    } else if s != [] {
      forall i | 0 <= i < |s| ensures !KeyLess(e, s[i]) {
        NotLessThanEarlier(s, e, i);
      }
    }
  }

  lemma {:induction false} SortSorted(s: seq<Edge>)
    ensures Sorted(Sort(s))
    decreases |s|
  {
    if s != [] {
      SortSorted(s[..|s| - 1]);
      InsertSorted(Sort(s[..|s| - 1]), s[|s| - 1]);
    }
  }

  /** No two edges share both ends. */
  ghost predicate NoParallel(s: seq<Edge>) {
    forall i, j | 0 <= i < j < |s| :: !SameKey(s[i], s[j])
  }

  /** Of two sorted lists of the same edges, none parallel, the last edges agree. */
  lemma LastSame(s: seq<Edge>, t: seq<Edge>)
    requires s != [] && t != [] && Sorted(s) && Sorted(t) && multiset(s) == multiset(t) && NoParallel(s)
    ensures s[|s| - 1] == t[|t| - 1]
  {
    var e, f := s[|s| - 1], t[|t| - 1];
    assert e in multiset(t) && f in multiset(s);
    var i :| 0 <= i < |t| && t[i] == e;
    var j :| 0 <= j < |s| && s[j] == f;
    KeyOrder(e, f, e);
  }

  lemma WithoutLast(s: seq<Edge>)
    requires s != []
    ensures multiset(s[..|s| - 1]) == multiset(s) - multiset{s[|s| - 1]}
  {
    assert s == s[..|s| - 1] + [s[|s| - 1]];
  }

  lemma ButLast(s: seq<Edge>, t: seq<Edge>)
    requires s != [] && t != [] && multiset(s) == multiset(t) && s[|s| - 1] == t[|t| - 1]
    ensures multiset(s[..|s| - 1]) == multiset(t[..|t| - 1])
  {
    WithoutLast(s);
    WithoutLast(t);
  }

  lemma SameLength(s: seq<Edge>, t: seq<Edge>)
    requires multiset(s) == multiset(t)
    ensures |s| == |t|
  {
    assert |multiset(s)| == |s| && |multiset(t)| == |t|;
  }

  /** Two sorted lists of the same edges, none parallel, are the same list. */
  lemma {:induction false} SortedUnique(s: seq<Edge>, t: seq<Edge>)
    requires Sorted(s) && Sorted(t) && multiset(s) == multiset(t) && NoParallel(s)
    ensures s == t
    decreases |s|
  {
    SameLength(s, t);
    if s != [] {
      LastSame(s, t);
      ButLast(s, t);
      SortedUnique(s[..|s| - 1], t[..|t| - 1]);
      assert s == s[..|s| - 1] + [s[|s| - 1]];
      assert t == t[..|t| - 1] + [t[|t| - 1]];
    }
  }

  lemma TwiceInSeq(t: seq<Edge>, i: nat, j: nat)
    requires i < j < |t| && t[i] == t[j]
    ensures multiset(t)[t[i]] >= 2
  {
    assert t == t[..i] + [t[i]] + t[i + 1..j] + [t[j]] + t[j + 1..];
    assert multiset(t) == multiset(t[..i]) + multiset{t[i]} + multiset(t[i + 1..j]) + multiset{t[j]} + multiset(t[j + 1..]);
  }

  lemma OnceInSeq(s: seq<Edge>, p: nat)
    requires p < |s| && NoParallel(s)
    ensures multiset(s)[s[p]] == 1
  {
    assert s == s[..p] + [s[p]] + s[p + 1..];
    assert multiset(s) == multiset(s[..p]) + multiset{s[p]} + multiset(s[p + 1..]);
    forall k | 0 <= k < p ensures s[..p][k] != s[p] {
      assert !SameKey(s[k], s[p]);
    }
    forall k | p < k < |s| ensures s[k] != s[p] {
      assert !SameKey(s[p], s[k]);
    }
    assert s[p] !in s[p + 1..];
  }

  lemma {:induction false} NoParallelSorted(s: seq<Edge>, t: seq<Edge>)
    requires NoParallel(s) && multiset(t) == multiset(s)
    ensures NoParallel(t)
  {
    forall i, j | 0 <= i < j < |t| ensures !SameKey(t[i], t[j]) {
      assert t[i] in multiset(s) && t[j] in multiset(s);
      var p :| 0 <= p < |s| && s[p] == t[i];
      var q :| 0 <= q < |s| && s[q] == t[j];
      if p == q {
        OnceInSeq(s, p);
        TwiceInSeq(t, i, j);
      }
    }
  }

  // ------------------------------------------------------------- signature

  function Inside(s: set<Id>): Edge -> bool {
    (e: Edge) => e.source in s && e.target in s
  }

  /** The edges inside s, sorted by their ends. */
  function EdgesInside(l: Layer, s: set<Id>): seq<Edge> {
    Sort(Filter(Inside(s), l.edges))
  }

  function Label(l: Layer, id: Id): string {
    match FindNode(l.nodes, id)
    case Some(n) => NodeTypeValue(n.nodeType)
    case None => "unknown"
  }

  function EdgeParts(l: Layer, e: Edge): seq<string> {
    [Label(l, e.source), e.source, e.target, EdgeTypeValue(e.edgeType),
     Label(l, e.target), e.source, e.target, EdgeTypeValue(e.edgeType)]
  }

  function Parts(l: Layer, edges: seq<Edge>): seq<string> {
    if edges == [] then [] else Parts(l, edges[..|edges| - 1]) + EdgeParts(l, edges[|edges| - 1])
  }

  function Signature(l: Layer, s: set<Id>): seq<string> {
    Parts(l, EdgesInside(l, s))
  }

  /** Four strings for each end of the edge. */
  method PartsOfEdge(l: Layer, e: Edge) returns (parts: seq<string>)
    ensures parts == EdgeParts(l, e)
  {
    parts := [];
    var ends := [e.source, e.target];
    for k := 0 to 2
      invariant parts == EdgeParts(l, e)[..4 * k]
    {
      parts := parts + [Label(l, ends[k]), e.source, e.target, EdgeTypeValue(e.edgeType)];
    }
  }

  method SubgraphSignature(l: Layer, s: set<Id>) returns (parts: seq<string>)
    ensures parts == Signature(l, s)
  {
    var sortedEdges := Sort(Filter(Inside(s), l.edges));
    parts := [];
    for i := 0 to |sortedEdges|
      invariant parts == Parts(l, sortedEdges[..i])
    {
      var e := sortedEdges[i];
      assert sortedEdges[..i + 1][..i] == sortedEdges[..i];
      var more := PartsOfEdge(l, e);
      parts := parts + more;
    }
    assert sortedEdges[..|sortedEdges|] == sortedEdges;
  }

  lemma {:induction false} PartsLength(l: Layer, edges: seq<Edge>)
    ensures |Parts(l, edges)| == 8 * |edges|
    decreases |edges|
  {
    if edges != [] {
      PartsLength(l, edges[..|edges| - 1]);
    }
  }

  /** The parts of the last edge are the last eight. */
  lemma LastParts(l: Layer, s: seq<Edge>)
    requires s != []
    ensures var n := |s| - 1; var p := Parts(l, s);
            |p| == 8 * n + 8 && p[..8 * n] == Parts(l, s[..n]) && p[8 * n..] == EdgeParts(l, s[n])
  {
    PartsLength(l, s);
    PartsLength(l, s[..|s| - 1]);
  }

  lemma SameButLast(s: seq<Edge>, t: seq<Edge>)
    requires s != [] && t != [] && s[..|s| - 1] == t[..|t| - 1] && s[|s| - 1] == t[|t| - 1]
    ensures s == t
  {
    assert s == s[..|s| - 1] + [s[|s| - 1]];
    assert t == t[..|t| - 1] + [t[|t| - 1]];
  }

  lemma EdgePartsInjective(l: Layer, m: Layer, e: Edge, f: Edge)
    requires EdgeParts(l, e) == EdgeParts(m, f)
    ensures e == f && Label(l, e.source) == Label(m, e.source) && Label(l, e.target) == Label(m, e.target)
  {
    var a, b := EdgeParts(l, e), EdgeParts(m, f);
    assert a[0] == b[0] && a[1] == b[1] && a[2] == b[2] && a[3] == b[3] && a[4] == b[4];
    EdgeTypeInjective(e.edgeType, f.edgeType);
  }

  /** Equal part lists come from the same typed edges in the same order. */
  lemma {:induction false} PartsInjective(l: Layer, m: Layer, s: seq<Edge>, t: seq<Edge>)
    requires Parts(l, s) == Parts(m, t)
    ensures s == t && forall e | e in s :: Label(l, e.source) == Label(m, e.source) && Label(l, e.target) == Label(m, e.target)
    decreases |s|
  {
    PartsLength(l, s);
    PartsLength(m, t);
    if s != [] {
      var n := |s| - 1;
      LastParts(l, s);
      LastParts(m, t);
      PartsInjective(l, m, s[..n], t[..n]);
      EdgePartsInjective(l, m, s[n], t[n]);
      SameButLast(s, t);
      forall e | e in s && e != s[n] ensures e in s[..n] {
      }
    }
  }

  lemma {:induction false} PartsCongruent(l: Layer, m: Layer, s: seq<Edge>)
    requires forall e | e in s :: Label(l, e.source) == Label(m, e.source) && Label(l, e.target) == Label(m, e.target)
    ensures Parts(l, s) == Parts(m, s)
    decreases |s|
  {
    if s != [] {
      PartsCongruent(l, m, s[..|s| - 1]);
    }
  }

  /** Canonical: node sets with the same edges inside (in any order, none parallel) and the
      same labels have the same signature. */
  lemma SignatureCanonical(l: Layer, m: Layer, s: set<Id>)
    requires multiset(Filter(Inside(s), l.edges)) == multiset(Filter(Inside(s), m.edges))
    requires NoParallel(Filter(Inside(s), l.edges)) && forall v | v in s :: Label(l, v) == Label(m, v)
    ensures Signature(l, s) == Signature(m, s)
  {
    var a, b := Filter(Inside(s), l.edges), Filter(Inside(s), m.edges);
    SortSorted(a);
    SortSorted(b);
    NoParallelSorted(a, Sort(a));
    SortedUnique(Sort(a), Sort(b));
    forall e | e in Sort(a) ensures e.source in s && e.target in s {
      assert e in multiset(Sort(a));
      assert e in a;
    }
    PartsCongruent(l, m, Sort(a));
  }
}
