/** Sums over finite sets, independent of the order in which the members are added. */
module Sums {
  ghost function Sum<T>(s: set<T>, f: T -> int): int
    decreases |s|
  {
    if s == {} then 0 else
      var x :| x in s;
      f(x) + Sum(s - {x}, f)
  }

  lemma {:induction false} SumTake<T>(s: set<T>, x: T, f: T -> int)
    requires x in s
    ensures Sum(s, f) == f(x) + Sum(s - {x}, f)
    decreases |s|
  {
    var y :| y in s && Sum(s, f) == f(y) + Sum(s - {y}, f);
    if x == y {
    } else {
      SumTake(s - {y}, x, f);
      SumTake(s - {x}, y, f);
      assert s - {y} - {x} == s - {x} - {y};
    }
  }

  lemma SumPut<T>(s: set<T>, x: T, f: T -> int)
    requires x !in s
    ensures Sum(s + {x}, f) == Sum(s, f) + f(x)
  {
    SumTake(s + {x}, x, f);
    assert s + {x} - {x} == s;
  }

  lemma {:induction false} SumSame<T>(s: set<T>, f: T -> int, g: T -> int)
    requires forall x :: x in s ==> f(x) == g(x)
    ensures Sum(s, f) == Sum(s, g)
    decreases |s|
  {
    if s == {} {
    } else {
      var x :| x in s;
      SumTake(s, x, f);
      SumTake(s, x, g);
      SumSame(s - {x}, f, g);
    }
  }

  /** Changing the summand at one member changes the sum by exactly that difference. */
  lemma SumChange<T>(s: set<T>, x: T, f: T -> int, g: T -> int)
    requires x in s
    requires forall y :: y in s && y != x ==> f(y) == g(y)
    ensures Sum(s, g) == Sum(s, f) - f(x) + g(x)
  {
    SumTake(s, x, f);
    SumTake(s, x, g);
    SumSame(s - {x}, f, g);
  }

  lemma {:induction false} SumNonNegative<T>(s: set<T>, f: T -> int)
    requires forall x :: x in s ==> f(x) >= 0
    ensures Sum(s, f) >= 0
    decreases |s|
  {
    if s == {} {
    } else {
      var x :| x in s;
      SumTake(s, x, f);
      SumNonNegative(s - {x}, f);
    }
  }
}
