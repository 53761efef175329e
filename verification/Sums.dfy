/** Sums over finite sets, which do not depend on the order in which the elements are taken. */
module Sums {
  import opened Base

  ghost function Sum<T>(s: set<T>, f: T -> nat): nat {
    if s == {} then 0 else var x :| x in s; f(x) + Sum(s - {x}, f)
  }

  lemma {:induction false} SumRemove<T>(s: set<T>, f: T -> nat, x: T)
    requires x in s
    ensures Sum(s, f) == f(x) + Sum(s - {x}, f)
    decreases |s|
  {
    var y :| y in s && Sum(s, f) == f(y) + Sum(s - {y}, f);
    if y != x {
      SumRemove(s - {y}, f, x);
      SumRemove(s - {x}, f, y);
      assert s - {y} - {x} == s - {x} - {y};
    }
  }

  lemma SumInsert<T>(s: set<T>, f: T -> nat, x: T)
    requires x !in s
    ensures Sum(s + {x}, f) == Sum(s, f) + f(x)
  {
    SumRemove(s + {x}, f, x);
    assert s + {x} - {x} == s;
  }

  /** A saturating sum can be cut at every step or once at the end. */
  lemma SaturatingStep(sum: nat, term: nat)
    ensures SaturatingAdd(Min(sum, U64_MAX), term) == Min(sum + term, U64_MAX)
  {
  }

  lemma {:induction false} SumUnion<T>(a: set<T>, b: set<T>, f: T -> nat)
    requires a !! b
    ensures Sum(a + b, f) == Sum(a, f) + Sum(b, f)
    decreases |a|
  {
    if a == {} {
      assert a + b == b;
    } else {
      var x :| x in a;
      SumRemove(a, f, x);
      SumRemove(a + b, f, x);
      assert a + b - {x} == (a - {x}) + b;
      SumUnion(a - {x}, b, f);
    }
  }

  lemma {:induction false} SumSame<T>(s: set<T>, f: T -> nat, g: T -> nat)
    requires forall x :: x in s ==> f(x) == g(x)
    ensures Sum(s, f) == Sum(s, g)
    decreases |s|
  {
    if s != {} {
      var x :| x in s;
      SumRemove(s, f, x);
      SumRemove(s, g, x);
      SumSame(s - {x}, f, g);
    }
  }

  lemma {:induction false} SumAdd<T>(s: set<T>, f: T -> nat, g: T -> nat, both: T -> nat)
    requires forall x :: x in s ==> both(x) == f(x) + g(x)
    ensures Sum(s, both) == Sum(s, f) + Sum(s, g)
    decreases |s|
  {
    if s != {} {
      var x :| x in s;
      SumRemove(s, f, x);
      SumRemove(s, g, x);
      SumRemove(s, both, x);
      SumAdd(s - {x}, f, g, both);
    }
  }
}
