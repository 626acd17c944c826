// Property names: dot-separated segments, and the (length, then bytes) order of sibling trees.
module Names {
  import opened Bytes

  type Seg = seq<Byte>

  const DOT: Byte := 46

  function Split(name: seq<Byte>): (segs: seq<Seg>)
    ensures |segs| > 0
    ensures forall s :: s in segs ==> 46 !in s
  {
    if name == [] then [[]]
    else
      var rest := Split(name[1..]);
      if name[0] == DOT then [[]] + rest
      else [[name[0]] + rest[0]] + rest[1..]
  }

  function Join(segs: seq<Seg>): (name: seq<Byte>)
  {
    if segs == [] then []
    else if |segs| == 1 then segs[0]
    else segs[0] + [DOT] + Join(segs[1..])
  }

  lemma {:induction false} JoinOfSplit(name: seq<Byte>)
    ensures Join(Split(name)) == name
  {
    if name != [] {
      JoinOfSplit(name[1..]);
      assert name == [name[0]] + name[1..];
      JoinLonger(name[0], Split(name[1..]));
    }
  }

  // One more character in front: a dot opens a new segment, any other joins the first.
  lemma JoinLonger(c: Byte, rest: seq<Seg>)
    requires rest != []
    ensures Join([[]] + rest) == [DOT] + Join(rest)
    ensures Join([[c] + rest[0]] + rest[1..]) == [c] + Join(rest)
  {
    assert Join([[]] + rest) == [DOT] + Join(rest) by {
      assert ([[]] + rest)[1..] == rest;
      assert [] + [DOT] == [DOT];
    }
    var segs := [[c] + rest[0]] + rest[1..];
    assert segs[1..] == rest[1..];
    if |rest| > 1 {
      assert segs[0] + [DOT] + Join(rest[1..]) == [c] + (rest[0] + [DOT] + Join(rest[1..]));
    }
  }

  lemma SplitInjective(a: seq<Byte>, b: seq<Byte>)
    requires Split(a) == Split(b)
    ensures a == b
  {
    JoinOfSplit(a);
    JoinOfSplit(b);
  }

  predicate LexLess(a: seq<Byte>, b: seq<Byte>)
  {
    b != [] && (a == [] || a[0] < b[0] || (a[0] == b[0] && LexLess(a[1..], b[1..])))
  }

  // `cmp_name(a, b) == Less`: by length, then bytes.
  predicate Less(a: Seg, b: Seg)
  {
    |a| < |b| || (|a| == |b| && LexLess(a, b))
  }

  lemma {:induction false} LexTrans(a: seq<Byte>, b: seq<Byte>, c: seq<Byte>)
    requires LexLess(a, b) && LexLess(b, c)
    ensures LexLess(a, c)
  {
    if a != [] && a[0] == b[0] && b[0] == c[0] {
      LexTrans(a[1..], b[1..], c[1..]);
    }
  }

  lemma {:induction false} LexIrreflexive(a: seq<Byte>)
    ensures !LexLess(a, a)
  {
    if a != [] {
      LexIrreflexive(a[1..]);
    }
  }

  lemma {:induction false} LexTotal(a: seq<Byte>, b: seq<Byte>)
    ensures LexLess(a, b) || LexLess(b, a) || a == b
  {
    if a != [] && b != [] && a[0] == b[0] {
      LexTotal(a[1..], b[1..]);
      assert a == [a[0]] + a[1..] && b == [b[0]] + b[1..];
    }
  }

  // `Less` is a strict total order.
  lemma LessTrans(a: Seg, b: Seg, c: Seg)
    requires Less(a, b) && Less(b, c)
    ensures Less(a, c)
  {
    if |a| == |b| && |b| == |c| {
      LexTrans(a, b, c);
    }
  }

  lemma LessIrreflexive(a: Seg)
    ensures !Less(a, a)
  {
    LexIrreflexive(a);
  }

  lemma LessTotal(a: Seg, b: Seg)
    ensures Less(a, b) || Less(b, a) || a == b
  {
    LexTotal(a, b);
  }

  // ---------- what the order is ----------

  predicate FirstDiffers(a: Seg, b: Seg, k: nat)
  {
    k < |a| && k < |b| && a[..k] == b[..k] && a[k] < b[k]
  }

  // A shorter name comes first; of two names of one length the first byte that differs decides.
  ghost predicate Before(a: Seg, b: Seg)
  {
    |a| < |b| || (|a| == |b| && exists k :: FirstDiffers(a, b, k))
  }

  lemma {:induction false} LexIff(a: Seg, b: Seg)
    requires |a| == |b|
    ensures LexLess(a, b) <==> exists k :: FirstDiffers(a, b, k)
  {
    if a != [] {
      LexIff(a[1..], b[1..]);
      if a[0] < b[0] {
        assert FirstDiffers(a, b, 0);
      } else if a[0] == b[0] {
        if k: nat :| FirstDiffers(a[1..], b[1..], k) {
          assert a[..k + 1] == [a[0]] + a[1..][..k] && b[..k + 1] == [b[0]] + b[1..][..k];
          assert FirstDiffers(a, b, k + 1);
        }
        if k: nat :| FirstDiffers(a, b, k) {
          assert a[1..][..k - 1] == a[..k][1..] && b[1..][..k - 1] == b[..k][1..];
          assert FirstDiffers(a[1..], b[1..], k - 1);
        }
      }
    }
  }

  lemma LessIff(a: Seg, b: Seg)
    ensures Less(a, b) <==> Before(a, b)
  {
    if |a| == |b| {
      LexIff(a, b);
    }
  }
}
