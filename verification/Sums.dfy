// Sums over finite sets, in no particular order.
module Sums {
  ghost function Sum<T>(s: set<T>, f: T -> nat): (n: nat)
  {
    if s == {} then 0
    else
      var x :| x in s;
      f(x) + Sum(s - {x}, f)
  }

  // The sum does not depend on the order: any element may be taken out first.
  lemma {:induction false} SumSplit<T>(s: set<T>, x: T, f: T -> nat)
    requires x in s
    ensures Sum(s, f) == f(x) + Sum(s - {x}, f)
  {
    var y :| y in s && Sum(s, f) == f(y) + Sum(s - {y}, f);
    if y != x {
      SumSplit(s - {y}, x, f);
      SumSplit(s - {x}, y, f);
      assert s - {y} - {x} == s - {x} - {y};
    }
  }

  lemma SumAdd<T>(s: set<T>, x: T, f: T -> nat)
    requires x !in s
    ensures Sum(s + {x}, f) == Sum(s, f) + f(x)
  {
    SumSplit(s + {x}, x, f);
    assert s + {x} - {x} == s;
  }

  lemma {:induction false} SumGrows<T>(s: set<T>, t: set<T>, f: T -> nat)
    requires s <= t
    ensures Sum(s, f) <= Sum(t, f)
    decreases |t|
  {
    if t != s {
      var x :| x in t && x !in s;
      SumSplit(t, x, f);
      SumGrows(s, t - {x}, f);
    }
  }
}
