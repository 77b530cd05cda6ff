/**
 * Sums over finite sets.  SQL aggregates and Python `sum(...)` over a
 * result set do not depend on the order the rows come back in; summing
 * over the set of rows states exactly that.
 */
module Sums {

  ghost function SumOver<T>(s: set<T>, f: T -> int): int
    decreases s
  {
    if s == {} then 0 else var x :| x in s; f(x) + SumOver(s - {x}, f)
  }

  /** Any element may be taken out first. */
  lemma {:induction false} SumOverRemove<T>(s: set<T>, f: T -> int, y: T)
    requires y in s
    ensures SumOver(s, f) == f(y) + SumOver(s - {y}, f)
    decreases s
  {
    var x :| x in s && SumOver(s, f) == f(x) + SumOver(s - {x}, f);
    if x != y {
      SumOverRemove(s - {x}, f, y);
      SumOverRemove(s - {y}, f, x);
      assert s - {x} - {y} == s - {y} - {x};
    }
  }

  lemma {:induction false} SumOverNonNegative<T>(s: set<T>, f: T -> int)
    requires forall x :: x in s ==> 0 <= f(x)
    ensures 0 <= SumOver(s, f)
    decreases s
  {
    if s != {} {
      var x :| x in s;
      SumOverRemove(s, f, x);
      SumOverNonNegative(s - {x}, f);
    }
  }

  /** Summing the constant one counts the elements. */
  lemma {:induction false} SumOverOnes<T>(s: set<T>, f: T -> int)
    requires forall x :: x in s ==> f(x) == 1
    ensures SumOver(s, f) == |s|
    decreases s
  {
    if s != {} {
      var x :| x in s;
      SumOverRemove(s, f, x);
      SumOverOnes(s - {x}, f);
    }
  }

  /** Two functions that agree on the set have the same sum. */
  lemma {:induction false} SumOverCongruent<T>(s: set<T>, f: T -> int, g: T -> int)
    requires forall x :: x in s ==> f(x) == g(x)
    ensures SumOver(s, f) == SumOver(s, g)
    decreases s
  {
    if s != {} {
      var x :| x in s;
      SumOverRemove(s, f, x);
      SumOverRemove(s, g, x);
      SumOverCongruent(s - {x}, f, g);
    }
  }

  /** The sum of pointwise sums is the sum of the sums. */
  lemma {:induction false} SumOverAdd<T>(s: set<T>, f: T -> int, g: T -> int, h: T -> int)
    requires forall x :: x in s ==> h(x) == f(x) + g(x)
    ensures SumOver(s, h) == SumOver(s, f) + SumOver(s, g)
    decreases s
  {
    if s != {} {
      var x :| x in s;
      SumOverRemove(s, f, x);
      SumOverRemove(s, g, x);
      SumOverRemove(s, h, x);
      SumOverAdd(s - {x}, f, g, h);
    }
  }
}
