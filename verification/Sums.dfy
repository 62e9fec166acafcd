/** Sums over finite sets, used where the code adds in storage order but the result must
    not depend on that order. */
module Sums {

  ghost function Sum<T(!new)>(s: set<T>, f: T -> int): int
  {
    if s == {} then 0 else
      var x :| x in s;
      f(x) + Sum(s - {x}, f)
  }

  /** Any element may be the one taken out first. */
  lemma {:induction false} SumPick<T(!new)>(s: set<T>, f: T -> int, x: T)
    requires x in s
    ensures Sum(s, f) == f(x) + Sum(s - {x}, f)
    decreases s
  {
    var y :| y in s && Sum(s, f) == f(y) + Sum(s - {y}, f);
    if y != x {
      SumPick(s - {y}, f, x);
      SumPick(s - {x}, f, y);
      assert s - {y} - {x} == s - {x} - {y};
    }
  }

  lemma {:induction false} SumAgree<T(!new)>(s: set<T>, f: T -> int, g: T -> int)
    requires forall x :: x in s ==> f(x) == g(x)
    ensures Sum(s, f) == Sum(s, g)
    decreases s
  {
    if s != {} {
      var x :| x in s;
      SumPick(s, f, x);
      SumPick(s, g, x);
      SumAgree(s - {x}, f, g);
    }
  }

  lemma {:induction false} SumSubset<T(!new)>(s: set<T>, t: set<T>, f: T -> int)
    requires s <= t
    requires forall x :: x in t ==> f(x) >= 0
    ensures 0 <= Sum(s, f) <= Sum(t, f)
    decreases t
  {
    if t != {} {
      var x :| x in t;
      SumPick(t, f, x);
      if x in s {
        SumPick(s, f, x);
        SumSubset(s - {x}, t - {x}, f);
      } else {
        SumSubset(s, t - {x}, f);
      }
    }
  }

  lemma {:induction false} SubsetSize<T>(a: set<T>, b: set<T>)
    requires a <= b
    ensures |a| <= |b|
    ensures a < b ==> |a| < |b|
    decreases b
  {
    if a != {} {
      var x :| x in a;
      SubsetSize(a - {x}, b - {x});
      if a < b {
        var y :| y in b && y !in a;
        assert y in b - {x} && y !in a - {x};
      }
    }
  }
}
