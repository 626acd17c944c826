// Bytes, little-endian integers and padding, shared by every binary layout in the project.
module Bytes {
  type Byte = b: int | 0 <= b < 256

  const U16_LIMIT: nat := 0x1_0000
  const U32_LIMIT: nat := 0x1_0000_0000

  datatype Option<+T> = None | Some(value: T)

  datatype Result<+T, +E> = Ok(value: T) | Err(error: E)
  {
    predicate IsFailure()
    {
      Err?
    }

    function PropagateFailure<U>(): Result<U, E>
      requires Err?
    {
      Err(error)
    }

    function Extract(): T
      requires Ok?
    {
      value
    }
  }

  // Rust's i32 and i64, and their two's-complement bytes.
  type I32 = x: int | -0x8000_0000 <= x < 0x8000_0000
  type I64 = x: int | -0x8000_0000_0000_0000 <= x < 0x8000_0000_0000_0000

  const U64_LIMIT: nat := 0x1_0000_0000_0000_0000

  // A u32 bit pattern read as an i32 (`as i32`).
  function Signed32(u: nat): (v: I32)
    requires u < U32_LIMIT
    ensures Unsigned32(v) == u
  {
    if u < 0x8000_0000 then u else u - U32_LIMIT
  }

  // An i32 as its u32 bit pattern (`as u32`).
  function Unsigned32(v: I32): (u: nat)
    ensures u < U32_LIMIT && (u == v || u == v + 0x1_0000_0000)
  {
    if v < 0 then v + U32_LIMIT else v
  }

  function Unsigned64(v: I64): (u: nat)
    ensures u < U64_LIMIT && (u == v || u == v + 0x1_0000_0000_0000_0000)
  {
    if v < 0 then v + U64_LIMIT else v
  }

  function Signed64(u: nat): (v: I64)
    requires u < U64_LIMIT
    ensures Unsigned64(v) == u
  {
    if u < 0x8000_0000_0000_0000 then u else u - U64_LIMIT
  }

  function Zeros(n: nat): (s: seq<Byte>)
    ensures |s| == n
  {
    seq(n, _ => 0)
  }

  // (n + 3) & !3
  function Align4(n: nat): (m: nat)
    ensures n <= m < n + 4 && m % 4 == 0
  {
    (n + 3) / 4 * 4
  }

  lemma FourthsAdd(m: nat, n: nat)
    requires m % 4 == 0 && n % 4 == 0
    ensures (m + n) % 4 == 0
  {
  }

  // `s` zero-extended to a multiple of four bytes.
  function Padded(s: seq<Byte>): (p: seq<Byte>)
    ensures |p| == Align4(|s|) && p[..|s|] == s
    ensures forall i :: |s| <= i < |p| ==> p[i] == 0
  {
    s + Zeros(Align4(|s|) - |s|)
  }

  function Pow256(n: nat): (p: nat)
    ensures p > 0
  {
    if n == 0 then 1 else 256 * Pow256(n - 1)
  }

  // The n low bytes of v, least significant first (`to_le_bytes` after a truncating cast).
  function Le(n: nat, v: nat): (s: seq<Byte>)
    ensures |s| == n
  {
    if n == 0 then [] else [v % 256] + Le(n - 1, v / 256)
  }

  // `from_le_bytes`
  function LeNat(s: seq<Byte>): (v: nat)
  {
    if s == [] then 0 else s[0] + 256 * LeNat(s[1..])
  }

  lemma {:induction false} LeNatOfLe(n: nat, v: nat)
    requires v < Pow256(n)
    ensures LeNat(Le(n, v)) == v
  {
    if n > 0 {
      LeNatOfLe(n - 1, v / 256);
      assert Le(n, v)[1..] == Le(n - 1, v / 256);
    }
  }

  lemma {:induction false} LeOfLeNat(s: seq<Byte>)
    ensures LeNat(s) < Pow256(|s|)
    ensures Le(|s|, LeNat(s)) == s
  {
    if s != [] {
      LeOfLeNat(s[1..]);
      assert LeNat(s) % 256 == s[0] && LeNat(s) / 256 == LeNat(s[1..]);
    }
  }

  function U16At(d: seq<Byte>, o: nat): (v: nat)
    requires o + 2 <= |d|
    ensures v < U16_LIMIT
  {
    LeOfLeNat(d[o..o + 2]);
    assert Pow256(2) == U16_LIMIT;
    LeNat(d[o..o + 2])
  }

  function U32At(d: seq<Byte>, o: nat): (v: nat)
    requires o + 4 <= |d|
    ensures v < U32_LIMIT
  {
    LeOfLeNat(d[o..o + 4]);
    assert Pow256(4) == U32_LIMIT;
    LeNat(d[o..o + 4])
  }

  // The least significant byte comes first.
  lemma LittleEndian(d: seq<Byte>, o: nat)
    ensures o + 2 <= |d| ==> U16At(d, o) == d[o] as int + 0x100 * d[o + 1] as int
    ensures o + 4 <= |d| ==>
              U32At(d, o) == d[o] as int + 0x100 * d[o + 1] as int + 0x1_0000 * d[o + 2] as int
                             + 0x100_0000 * d[o + 3] as int
  {
    if o + 2 <= |d| {
      LeNatUnfolds(d[o..o + 2]);
      LeNatUnfolds(d[o..o + 2][1..]);
      assert d[o..o + 2][1..][1..] == [];
    }
    if o + 4 <= |d| {
      var w := d[o..o + 4];
      LeNatUnfolds(w);
      LeNatUnfolds(w[1..]);
      LeNatUnfolds(w[1..][1..]);
      LeNatUnfolds(w[1..][1..][1..]);
      assert w[1..][1..] == w[2..] && w[2..][1..] == w[3..] && w[3..][1..] == [];
    }
  }

  lemma LeNatUnfolds(s: seq<Byte>)
    requires s != []
    ensures LeNat(s) == s[0] as int + 0x100 * LeNat(s[1..])
  {
  }

  function U16(v: nat): (s: seq<Byte>)
    ensures |s| == 2
  {
    Le(2, v)
  }

  function U32(v: nat): (s: seq<Byte>)
    ensures |s| == 4
  {
    Le(4, v)
  }

  function U64At(d: seq<Byte>, o: nat): (v: nat)
    requires o + 8 <= |d|
    ensures v < U64_LIMIT
  {
    LeOfLeNat(d[o..o + 8]);
    assert Pow256(8) == U64_LIMIT by {
      assert Pow256(4) == U32_LIMIT;
    }
    LeNat(d[o..o + 8])
  }

  function U64(v: nat): (s: seq<Byte>)
    ensures |s| == 8
  {
    Le(8, v)
  }

  lemma LittleEndian64(d: seq<Byte>, o: nat)
    requires o + 8 <= |d|
    ensures U64At(d, o) == U32At(d, o) + 0x1_0000_0000 * U32At(d, o + 4)
  {
    hide LeNat, Pow256;
    LeNatSplit(d[o..o + 4], d[o + 4..o + 8]);
    assert d[o..o + 8] == d[o..o + 4] + d[o + 4..o + 8];
    FourBytes();
  }

  lemma FourBytes()
    ensures Pow256(4) == 0x1_0000_0000
  {
  }

  lemma PowStep(n: nat, v: nat)
    ensures Pow256(n + 1) * v == 256 * (Pow256(n) * v)
  {
    var p := Pow256(n);
    assert (256 * p) * v == 256 * (p * v);
  }

  lemma {:induction false} LeNatSplit(a: seq<Byte>, b: seq<Byte>)
    ensures LeNat(a + b) == LeNat(a) + Pow256(|a|) * LeNat(b)
  {
    if a == [] {
      assert a + b == b;
    } else {
      hide Pow256, LeNat;
      LeNatSplit(a[1..], b);
      assert (a + b)[1..] == a[1..] + b && (a + b)[0] == a[0];
      LeNatUnfolds(a);
      LeNatUnfolds(a + b);
      PowStep(|a| - 1, LeNat(b));
    }
  }

  lemma U64Read(d: seq<Byte>, o: nat, v: nat)
    requires v < U64_LIMIT && o + 8 <= |d| && d[o..o + 8] == U64(v)
    ensures U64At(d, o) == v
  {
    assert Pow256(8) == U64_LIMIT by {
      assert Pow256(4) == U32_LIMIT;
    }
    LeNatOfLe(8, v);
  }

  // A little-endian word read back from where it was written.
  lemma U32Read(d: seq<Byte>, o: nat, v: nat)
    requires v < U32_LIMIT && o + 4 <= |d| && d[o..o + 4] == U32(v)
    ensures U32At(d, o) == v
  {
    assert Pow256(4) == U32_LIMIT;
    LeNatOfLe(4, v);
  }

  lemma U16Read(d: seq<Byte>, o: nat, v: nat)
    requires v < U16_LIMIT && o + 2 <= |d| && d[o..o + 2] == U16(v)
    ensures U16At(d, o) == v
  {
    assert Pow256(2) == U16_LIMIT;
    LeNatOfLe(2, v);
  }

  lemma SubSlice(d: seq<Byte>, o: nat, n: nat, i: nat, j: nat)
    requires o + n <= |d| && i <= j <= n
    ensures d[o..o + n][i..j] == d[o + i..o + j]
  {
    var a, b := d[o..o + n][i..j], d[o + i..o + j];
    assert |a| == |b| && forall k :: 0 <= k < |a| ==> a[k] == b[k];
  }

  // The bytes e lie at p in d, whatever surrounds them.
  predicate Sits(d: seq<Byte>, p: nat, e: seq<Byte>)
  {
    p + |e| <= |d| && d[p..p + |e|] == e
  }

  lemma SitsSplit(d: seq<Byte>, p: nat, a: seq<Byte>, b: seq<Byte>)
    requires Sits(d, p, a + b)
    ensures Sits(d, p, a) && Sits(d, p + |a|, b)
  {
    var e := d[p..p + |a + b|];
    assert e[..|a|] == a && e[|a|..] == b;
    assert d[p..p + |a|] == e[..|a|] && d[p + |a|..p + |a| + |b|] == e[|a|..];
  }

  // d with the bytes from o on replaced (`copy_from_slice`).
  function Splice(d: seq<Byte>, o: nat, s: seq<Byte>): (d': seq<Byte>)
    requires o + |s| <= |d|
    ensures |d'| == |d|
  {
    d[..o] + s + d[o + |s|..]
  }

  lemma SpliceTail(d: seq<Byte>, t: seq<Byte>, k: nat, s: seq<Byte>)
    requires k + |s| <= |t|
    ensures Splice(d + t, |d| + k, s) == d + Splice(t, k, s)
  {
  }

  lemma SplicePrefix(a: seq<Byte>, b: seq<Byte>, o: nat, s: seq<Byte>)
    requires o + |s| <= |a|
    ensures Splice(a + b, o, s) == Splice(a, o, s) + b
  {
  }

  lemma SpliceMiddle(d: seq<Byte>, t: seq<Byte>, e: seq<Byte>, k: nat, s: seq<Byte>)
    requires k + |s| <= |t|
    ensures Splice(d + t + e, |d| + k, s) == d + Splice(t, k, s) + e
  {
  }

  lemma SitsBehind(a: seq<Byte>, b: seq<Byte>, p: nat, e: seq<Byte>)
    requires Sits(b, p, e)
    ensures Sits(a + b, |a| + p, e)
  {
  }

  lemma WholeSits(e: seq<Byte>)
    ensures Sits(e, 0, e)
  {
  }

  lemma SitsRead32(d: seq<Byte>, p: nat, v: nat)
    requires Sits(d, p, U32(v)) && v < U32_LIMIT
    ensures p + 4 <= |d| && U32At(d, p) == v
  {
    U32Read(d, p, v);
  }

  lemma SitsRead16(d: seq<Byte>, p: nat, v: nat)
    requires Sits(d, p, U16(v)) && v < U16_LIMIT
    ensures p + 2 <= |d| && U16At(d, p) == v
  {
    U16Read(d, p, v);
  }
}
