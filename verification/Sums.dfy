/** Sums over finite sets, independent of the order in which the elements are taken. */
module Sums {
  ghost function SumOver<T>(s: set<T>, f: T -> int): int
    decreases |s|
  {
    if s == {} then 0
    else
      var x :| x in s;
      f(x) + SumOver(s - {x}, f)
  }

  // Any element can be taken out first
  lemma {:induction false} SumTake<T>(s: set<T>, f: T -> int, y: T)
    requires y in s
    ensures SumOver(s, f) == f(y) + SumOver(s - {y}, f)
    decreases |s|
  {
    var x :| x in s && SumOver(s, f) == f(x) + SumOver(s - {x}, f);
    if x != y {
      SumTake(s - {x}, f, y);
      SumTake(s - {y}, f, x);
      assert s - {x} - {y} == s - {y} - {x};
    }
  }

  lemma SumAdd<T>(s: set<T>, f: T -> int, y: T)
    requires y !in s
    ensures SumOver(s + {y}, f) == f(y) + SumOver(s, f)
  {
    SumTake(s + {y}, f, y);
    assert s + {y} - {y} == s;
  }

  lemma {:induction false} SumSame<T>(s: set<T>, f: T -> int, g: T -> int)
    requires forall x :: x in s ==> f(x) == g(x)
    ensures SumOver(s, f) == SumOver(s, g)
    decreases |s|
  {
    if s != {} {
      var x :| x in s;
      SumTake(s, f, x);
      SumTake(s, g, x);
      SumSame(s - {x}, f, g);
    }
  }

  // Elements that contribute nothing can be left out
  lemma {:induction false} SumWithin<T>(all: set<T>, s: set<T>, f: T -> int)
    requires s <= all && forall x :: x in all - s ==> f(x) == 0
    ensures SumOver(all, f) == SumOver(s, f)
    decreases |all - s|
  {
    if all != s {
      assert !(all <= s);
      var x :| x in all && x !in s;
      SumTake(all, f, x);
      assert all - {x} - s == all - s - {x};
      SumWithin(all - {x}, s, f);
    }
  }
}
