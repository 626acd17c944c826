// What filtering a sequence leaves, said by ranks instead of by a loop.
module Picks {
  // How many of the first n elements are kept.
  ghost function Rank<A>(s: seq<A>, keep: A -> bool, n: nat): (r: nat)
    requires n <= |s|
  {
    |set i | 0 <= i < n && keep(s[i])|
  }

  // t is the image of the elements of s that are kept: each stands behind the images of those before it,
  // and there is nothing else in t.
  ghost predicate Picked<A, B>(s: seq<A>, keep: A -> bool, image: A -> B, t: seq<B>)
  {
    && |t| == Rank(s, keep, |s|)
    && forall i :: 0 <= i < |s| && keep(s[i]) ==> Rank(s, keep, i) < |t| && t[Rank(s, keep, i)] == image(s[i])
  }

  lemma RankStep<A>(s: seq<A>, keep: A -> bool, n: nat)
    requires n < |s|
    ensures Rank(s, keep, n + 1) == Rank(s, keep, n) + if keep(s[n]) then 1 else 0
  {
    var a, b := set i | 0 <= i < n && keep(s[i]), set i | 0 <= i < n + 1 && keep(s[i]);
    assert b == a + if keep(s[n]) then {n} else {};
  }

  lemma RankPrefix<A>(s: seq<A>, t: seq<A>, keep: A -> bool, n: nat)
    requires n <= |s| <= |t| && t[..|s|] == s
    ensures Rank(t, keep, n) == Rank(s, keep, n)
  {
    var a, b := set i | 0 <= i < n && keep(s[i]), set i | 0 <= i < n && keep(t[i]);
    assert forall i :: 0 <= i < n ==> t[i] == t[..|s|][i];
    assert a == b;
  }

  lemma {:induction false} RankGrows<A>(s: seq<A>, keep: A -> bool, i: nat, n: nat)
    requires i <= n <= |s|
    ensures Rank(s, keep, i) <= Rank(s, keep, n)
    decreases n
  {
    if i < n {
      RankStep(s, keep, n - 1);
      RankGrows(s, keep, i, n - 1);
    }
  }

  lemma RankNone<A>(s: seq<A>, keep: A -> bool)
    ensures Rank(s, keep, 0) == 0
  {
  }

  lemma NonePicked<A, B>(keep: A -> bool, image: A -> B)
    ensures Picked([], keep, image, [])
  {
    assert Rank<A>([], keep, 0) == 0;
  }

  // One more element at the end.
  lemma PickedSnoc<A, B>(s: seq<A>, keep: A -> bool, image: A -> B, t: seq<B>, x: A)
    requires Picked(s, keep, image, t)
    ensures Picked(s + [x], keep, image, if keep(x) then t + [image(x)] else t)
  {
    hide Rank;
    var s', t' := s + [x], if keep(x) then t + [image(x)] else t;
    RankStep(s', keep, |s|);
    RankPrefix(s, s', keep, |s|);
    forall i | 0 <= i < |s'| && keep(s'[i])
      ensures Rank(s', keep, i) < |t'| && t'[Rank(s', keep, i)] == image(s'[i])
    {
      if i < |s| {
        SamePick(s, x, keep, i);
        assert s'[i] == s[i];
      }
    }
  }

  lemma SamePick<A>(s: seq<A>, x: A, keep: A -> bool, i: nat)
    requires i < |s|
    ensures Rank(s + [x], keep, i) == Rank(s, keep, i)
  {
    RankPrefix(s, s + [x], keep, i);
  }

  lemma {:induction false} RankCons<A>(x: A, s: seq<A>, keep: A -> bool, n: nat)
    requires n <= |s|
    ensures Rank([x] + s, keep, n + 1) == Rank(s, keep, n) + if keep(x) then 1 else 0
  {
    RankStep([x] + s, keep, n);
    if n > 0 {
      RankCons(x, s, keep, n - 1);
      RankStep(s, keep, n - 1);
      assert ([x] + s)[n] == s[n - 1];
    } else {
      assert Rank([x] + s, keep, 0) == 0 && Rank(s, keep, 0) == 0;
    }
  }

  // One more element in front.
  lemma PickedCons<A, B>(x: A, s: seq<A>, keep: A -> bool, image: A -> B, t: seq<B>)
    requires Picked(s, keep, image, t)
    ensures Picked([x] + s, keep, image, if keep(x) then [image(x)] + t else t)
  {
    hide Rank;
    var s', t' := [x] + s, if keep(x) then [image(x)] + t else t;
    RankCons(x, s, keep, |s|);
    RankNone(s', keep);
    forall i | 0 <= i < |s'| && keep(s'[i])
      ensures Rank(s', keep, i) < |t'| && t'[Rank(s', keep, i)] == image(s'[i])
    {
      if i > 0 {
        RankCons(x, s, keep, i - 1);
        assert s'[i] == s[i - 1];
      }
    }
  }

  // There is one such sequence only.
  lemma PickedUnique<A, B>(s: seq<A>, keep: A -> bool, image: A -> B, t: seq<B>, u: seq<B>)
    requires Picked(s, keep, image, t) && Picked(s, keep, image, u)
    ensures t == u
  {
    forall k | 0 <= k < |t|
      ensures t[k] == u[k]
    {
      var i := AtRank(s, keep, k, |s|);
    }
  }

  lemma {:induction false} AtRank<A>(s: seq<A>, keep: A -> bool, k: nat, n: nat) returns (i: nat)
    requires n <= |s| && k < Rank(s, keep, n)
    ensures i < n && keep(s[i]) && Rank(s, keep, i) == k
  {
    if n == 0 {
      assert false;
    } else {
      RankStep(s, keep, n - 1);
      if k < Rank(s, keep, n - 1) {
        i := AtRank(s, keep, k, n - 1);
      } else {
        i := n - 1;
      }
    }
  }

  // When all are kept, they stay where they are.
  lemma {:induction false} RankOfAll<A>(s: seq<A>, keep: A -> bool, n: nat)
    requires n <= |s| && forall i :: 0 <= i < n ==> keep(s[i])
    ensures Rank(s, keep, n) == n
  {
    if n > 0 {
      RankStep(s, keep, n - 1);
      RankOfAll(s, keep, n - 1);
    } else {
      assert Rank(s, keep, 0) == 0;
    }
  }
}
