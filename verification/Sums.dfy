/** Sums of a natural-valued function over a finite set. */
module Sums {
  ghost function Sum<T(!new)>(s: set<T>, f: T -> nat): nat
  {
    if s == {} then 0
    else
      var x :| x in s;
      f(x) + Sum(s - {x}, f)
  }

  /** Any member may be taken out first. */
  lemma {:induction false} SumWithout<T(!new)>(s: set<T>, f: T -> nat, x: T)
    requires x in s
    ensures Sum(s, f) == f(x) + Sum(s - {x}, f)
    decreases s
  {
    var y :| y in s && Sum(s, f) == f(y) + Sum(s - {y}, f);
    if y != x {
      SumWithout(s - {y}, f, x);
      SumWithout(s - {x}, f, y);
      assert s - {y} - {x} == s - {x} - {y};
    }
  }

  lemma {:induction false} SumAtMost<T(!new)>(s: set<T>, f: T -> nat, g: T -> nat)
    requires forall x | x in s :: f(x) <= g(x)
    ensures Sum(s, f) <= Sum(s, g)
    decreases s
  {
    if s != {} {
      var x :| x in s;
      SumWithout(s, f, x);
      SumWithout(s, g, x);
      SumAtMost(s - {x}, f, g);
    }
  }

  /** Smaller at one member and larger at none makes a smaller sum. */
  lemma SumLess<T(!new)>(s: set<T>, f: T -> nat, g: T -> nat, x: T)
    requires x in s && f(x) < g(x) && forall y | y in s :: f(y) <= g(y)
    ensures Sum(s, f) < Sum(s, g)
  {
    SumWithout(s, f, x);
    SumWithout(s, g, x);
    SumAtMost(s - {x}, f, g);
  }

  lemma {:induction false} SumZero<T(!new)>(s: set<T>, f: T -> nat)
    ensures Sum(s, f) == 0 <==> forall x | x in s :: f(x) == 0
    decreases s
  {
    forall x | x in s ensures Sum(s, f) == f(x) + Sum(s - {x}, f) {
      SumWithout(s, f, x);
    }
    if s != {} {
      var x :| x in s;
      SumZero(s - {x}, f);
    }
  }
}
