/** Python list comprehensions with an `if` clause, and membership facts about them. */
module Lists {
  function Filter<T(!new)>(keep: T -> bool, s: seq<T>): (r: seq<T>)
    ensures forall x :: x in r <==> x in s && keep(x)
  {
    if s == [] then [] else (if keep(s[0]) then [s[0]] else []) + Filter(keep, s[1..])
  }

  ghost predicate Distinct<T>(s: seq<T>) {
    forall i, j | 0 <= i < j < |s| :: s[i] != s[j]
  }

  function Elements<T(==)>(s: seq<T>): set<T> {
    set x | x in s
  }

  lemma {:induction false} FilterDistinct<T(!new)>(keep: T -> bool, s: seq<T>)
    requires Distinct(s)
    ensures Distinct(Filter(keep, s)) && |Filter(keep, s)| <= |s|
  {
    if s != [] {
      FilterDistinct(keep, s[1..]);
    }
  }

  /** A filter sees its predicate only on the elements of the list. */
  lemma {:induction false} FilterCongruent<T(!new)>(f: T -> bool, h: T -> bool, s: seq<T>)
    requires forall x | x in s :: f(x) == h(x)
    ensures Filter(f, s) == Filter(h, s)
  {
    if s != [] {
      FilterCongruent(f, h, s[1..]);
    }
  }

  lemma {:induction false} FilterAll<T(!new)>(f: T -> bool, s: seq<T>)
    requires forall x | x in s :: f(x)
    ensures Filter(f, s) == s
  {
    if s != [] {
      FilterAll(f, s[1..]);
    }
  }

  lemma {:induction false} FilterSnoc<T(!new)>(keep: T -> bool, s: seq<T>, x: T)
    ensures Filter(keep, s + [x]) == Filter(keep, s) + (if keep(x) then [x] else [])
    decreases |s|
  {
    if s == [] {
      assert (s + [x])[1..] == [];
    } else {
      assert (s + [x])[1..] == s[1..] + [x];
      FilterSnoc(keep, s[1..], x);
    }
  }

  lemma FilterCons<T(!new)>(f: T -> bool, x: T, s: seq<T>)
    ensures Filter(f, [x] + s) == (if f(x) then [x] else []) + Filter(f, s)
  {
    assert ([x] + s)[1..] == s;
  }

  lemma {:induction false} FilterAppend<T(!new)>(f: T -> bool, a: seq<T>, b: seq<T>)
    ensures Filter(f, a + b) == Filter(f, a) + Filter(f, b)
    decreases |a|
  {
    if a == [] {
      assert a + b == b;
    } else {
      assert a + b == [a[0]] + (a[1..] + b);
      FilterCons(f, a[0], a[1..] + b);
      FilterAppend(f, a[1..], b);
    }
  }

  lemma SubsetSize<T>(a: set<T>, b: set<T>)
    requires a <= b
    ensures |a| <= |b|
  {
    assert b == a + (b - a);
  }

  lemma OnlyMember<T>(s: set<T>, x: T, y: T)
    requires |s| == 1 && x in s && y in s
    ensures x == y
  {
    assert |s - {x}| == 0;
    assert y !in s - {x};
  }

  lemma ProperSubset<T>(a: set<T>, b: set<T>)
    requires a <= b && |a| < |b|
    ensures a < b
  {
    if b <= a {
      SubsetSize(b, a);
    }
  }

  /** A set of two or more has a member other than any one. */
  lemma Another<T>(s: set<T>, u: T) returns (v: T)
    requires |s| >= 2
    ensures v in s && v != u
  {
    if u in s {
      assert |s - {u}| == |s| - 1;
    } else {
      assert s - {u} == s;
    }
    v :| v in s - {u};
  }

  /** Listings of sets have the size of the set. */
  lemma {:induction false} DistinctSize<T>(s: seq<T>, S: set<T>)
    requires Distinct(s) && forall x :: x in s <==> x in S
    ensures |s| == |S|
  {
    if s == [] {
      assert S == {};
    } else {
      DistinctSize(s[1..], S - {s[0]});
    }
  }
}
