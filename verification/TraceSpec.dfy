/** The trace check written out: which traces are recorded, and when a pass is accepted. */
module TraceSpec {
  import opened Digraph
  import opened Lists
  import opened Sgir
  import opened GraphIndexing
  import opened DeadNodes
  import opened Verification
  import opened Gate

  /** v is listed among the descendants of u, and fewer than ten declared ones before it. */
  ghost predicate Explores(g: Software, order: set<Id> -> seq<Id>, u: Id, v: Id) {
    var listed, declared := order(Descendants(Merged(g), u)), MemberOf(Declared(g));
    exists k :: 0 <= k < |listed| && listed[k] == v && v in Declared(g) && |Filter(declared, listed[..k])| < 10
  }

  ghost predicate DeadEnd(g: Software, order: set<Id> -> seq<Id>, u: Id) {
    forall v :: !Explores(g, order, u, v)
  }

  /** A trace starts at a declared entry point and follows explored steps. No node but the last
      is there twice. It ends after depth steps, at a node it has visited, or where nothing is
      left to explore. */
  ghost predicate FullTrace(g: Software, eps: seq<Id>, order: set<Id> -> seq<Id>, depth: nat, t: seq<Id>) {
    && t != [] && t[0] in eps && t[0] in Declared(g)
    && (forall i {:trigger t[i]} | 0 < i < |t| :: Explores(g, order, t[i - 1], t[i]))
    && Distinct(t[..|t| - 1]) && |t| <= depth + 1
    && (|t| == depth + 1 || t[|t| - 1] in t[..|t| - 1] || DeadEnd(g, order, t[|t| - 1]))
  }

  // ------------------------------------------------------- first ten of a list

  lemma FilterAt<T(!new)>(f: T -> bool, s: seq<T>, k: nat)
    requires k < |s| && f(s[k])
    ensures |Filter(f, s[..k])| < |Filter(f, s)| && Filter(f, s)[|Filter(f, s[..k])|] == s[k]
  {
    assert s == s[..k] + ([s[k]] + s[k + 1..]);
    FilterAppend(f, s[..k], [s[k]] + s[k + 1..]);
    FilterCons(f, s[k], s[k + 1..]);
  }

  lemma {:induction false} FilteredFrom<T(!new)>(f: T -> bool, s: seq<T>, p: nat) returns (k: nat)
    requires p < |Filter(f, s)|
    ensures k < |s| && f(s[k]) && s[k] == Filter(f, s)[p] && |Filter(f, s[..k])| == p
    decreases |s|
  {
    var n := |s| - 1;
    assert s == s[..n] + [s[n]];
    FilterSnoc(f, s[..n], s[n]);
    if p < |Filter(f, s[..n])| {
      k := FilteredFrom(f, s[..n], p);
      assert s[..n][..k] == s[..k];
    } else {
      k := n;
    }
  }

  lemma FirstTenAt(f: Id -> bool, s: seq<Id>, v: Id)
    ensures v in FirstTen(Filter(f, s)) <==> exists k :: 0 <= k < |s| && s[k] == v && f(v) && |Filter(f, s[..k])| < 10
  {
    var all := Filter(f, s);
    if v in FirstTen(all) {
      var p :| 0 <= p < |FirstTen(all)| && FirstTen(all)[p] == v;
      var k := FilteredFrom(f, s, p);
    }
    if k :| 0 <= k < |s| && s[k] == v && f(v) && |Filter(f, s[..k])| < 10 {
      FilterAt(f, s, k);
      var p := |Filter(f, s[..k])|;
      assert FirstTen(all)[p] == v;
    }
  }

  lemma NextExplores(g: Software, order: set<Id> -> seq<Id>, u: Id, v: Id)
    ensures v in NextIn(g, order)(u) <==> Explores(g, order, u, v)
  {
    FirstTenAt(MemberOf(Declared(g)), order(Descendants(Merged(g), u)), v);
  }

  // ---------------------------------------------------- which traces there are

  ghost predicate Continues(next: Id -> seq<Id>, path: seq<Id>, u: Id, depth: nat, t: seq<Id>) {
    && TraceFrom(next, path, u, t) && Distinct(t[..|t| - 1]) && |t| <= |path| + 1 + depth
    && (|t| == |path| + 1 + depth || t[|t| - 1] in t[..|t| - 1] || next(t[|t| - 1]) == [])
  }

  lemma GoneOnTwice(path: seq<Id>, u: Id, t: seq<Id>)
    requires u in path && |t| > |path| + 1 && t[..|path|] == path && t[|path|] == u
    ensures !Distinct(t[..|t| - 1])
  {
    var n := |path|;
    var i :| 0 <= i < n && path[i] == u;
    assert t[..n][i] == t[i] && t[..|t| - 1][i] == t[i] && t[..|t| - 1][n] == t[n];
  }

  /** A trace that stops at u. */
  lemma StopsHere(next: Id -> seq<Id>, path: seq<Id>, u: Id, depth: nat, t: seq<Id>)
    requires Distinct(path) && (depth == 0 || u in path || next(u) == [])
    ensures Continues(next, path, u, depth, t) <==> t == path + [u]
  {
    var n := |path|;
    var step := if |t| > n + 1 then t[n + 1] else u;
    if u in path && |t| > n + 1 && t[..n] == path && t[n] == u {
      GoneOnTwice(path, u, t);
    }
    assert (path + [u])[..n] == path;
    if Continues(next, path, u, depth, t) {
      assert t == t[..n] + [t[n]];
    }
  }

  /** A trace that goes on from u goes on from one of the steps explored next. */
  lemma GoesOn(next: Id -> seq<Id>, path: seq<Id>, u: Id, depth: nat, t: seq<Id>)
    requires Distinct(path) && depth > 0 && u !in path && next(u) != []
    ensures Continues(next, path, u, depth, t) <==> exists v :: v in next(u) && Continues(next, path + [u], v, depth - 1, t)
  {
    var n := |path|;
    assert |t| == n + 1 && TraceFrom(next, path, u, t) ==> t[..|t| - 1] == path;
    if Continues(next, path, u, depth, t) {
      assert |t| > n + 1;
      var v := t[n + 1];
      assert t[n + 1] in next(t[n]);
      assert t[..n + 1] == t[..n] + [t[n]];
      assert Continues(next, path + [u], v, depth - 1, t);
    }
    if v :| v in next(u) && Continues(next, path + [u], v, depth - 1, t) {
      assert t[..n] == t[..n + 1][..n] == path && t[n] == t[..n + 1][n] == u;
      assert forall i {:trigger t[i]} | n < i < |t| :: i == n + 1 || t[i] in next(t[i - 1]);
    }
  }

  lemma {:induction false} TracesContinue(next: Id -> seq<Id>, u: Id, path: seq<Id>, visited: set<Id>, depth: nat, t: seq<Id>)
    requires Distinct(path) && visited == Elements(path)
    ensures t in Traces(next, u, path, visited, depth) <==> Continues(next, path, u, depth, t)
    decreases depth
  {
    if depth == 0 || u in visited || next(u) == [] {
      StopsHere(next, path, u, depth, t);
    } else {
      var longer, more, less := path + [u], visited + {u}, depth - 1;
      InTracesOfAll(next, next(u), longer, more, less, t);
      assert Elements(longer) == more;
      forall v ensures t in Traces(next, v, longer, more, less) <==> Continues(next, longer, v, less, t) {
        TracesContinue(next, v, longer, more, less, t);
      }
      GoesOn(next, path, u, depth, t);
    }
  }

  lemma ContinuesFully(g: Software, eps: seq<Id>, order: set<Id> -> seq<Id>, depth: nat, t: seq<Id>)
    ensures FullTrace(g, eps, order, depth, t) <==>
              t != [] && t[0] in eps && t[0] in Declared(g) && Continues(NextIn(g, order), [], t[0], depth, t)
  {
    var next := NextIn(g, order);
    forall u, v ensures v in next(u) <==> Explores(g, order, u, v) {
      NextExplores(g, order, u, v);
    }
    if t != [] {
      var last := t[|t| - 1];
      assert next(last) != [] ==> next(last)[0] in next(last);
    }
  }

  /** What the search records are exactly the full traces. */
  lemma TraceSetExactly(g: Software, eps: seq<Id>, order: set<Id> -> seq<Id>, depth: nat, t: seq<Id>)
    ensures t in TraceSet(g, eps, order, depth) <==> FullTrace(g, eps, order, depth, t)
  {
    var next := NextIn(g, order);
    ContinuesFully(g, eps, order, depth, t);
    InTracesOfAll(next, Roots(g, eps), [], {}, depth, t);
    forall u ensures t in Traces(next, u, [], {}, depth) <==> Continues(next, [], u, depth, t) {
      TracesContinue(next, u, [], {}, depth, t);
    }
  }

  /** A pass is accepted exactly if every full trace of fifty steps at most is one afterwards, and
      every declared id that an entry point is or reaches stays declared. */
  lemma AcceptedExactly(before: Software, after: Software, eps: seq<Id>, order: set<Id> -> seq<Id>)
    ensures Accepts(before, after, eps, order) <==>
      && (forall t :: FullTrace(before, eps, order, 50, t) ==> FullTrace(after, eps, order, 50, t))
      && (forall v | v in Declared(before) && Alive(before, eps, v) :: v in Declared(after))
  {
    forall t ensures (t in TraceSet(before, eps, order, 50) <==> FullTrace(before, eps, order, 50, t))
                  && (t in TraceSet(after, eps, order, 50) <==> FullTrace(after, eps, order, 50, t)) {
      TraceSetExactly(before, eps, order, 50, t);
      TraceSetExactly(after, eps, order, 50, t);
    }
    MergedWellFormed(before);
    forall v | v in Declared(before) ensures v in Live(Merged(before), eps) <==> Alive(before, eps, v) {
    }
    if ImproperlyRemoved(before, after, eps) == {} {
      forall v | v in Declared(before) && Alive(before, eps, v) ensures v in Declared(after) {
        assert v !in ImproperlyRemoved(before, after, eps);
      }
    }
  }
}
