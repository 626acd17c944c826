// Android parcels: a byte buffer with a read position (crates/arod/src/aparcel.rs). The functions
// say what each primitive writes and reads; the class does it word by word.
module Parcels {
  import opened Bytes
  import opened Unicode

  datatype ParcelError = NotEnoughData

  type Read<+T> = Result<(T, nat), ParcelError>

  // ---------- what is written ----------

  function EncI32(v: I32): (e: seq<Byte>)
    ensures |e| == 4
  {
    U32(Unsigned32(v))
  }

  function EncString8(s: Option<string>): (e: seq<Byte>)
    ensures |e| % 4 == 0
  {
    match s
    case None => EncI32(-1)
    case Some(s) =>
      var length, text := U32(|Utf8(s)|), Padded(Utf8(s) + [0]);
      FourthsAdd(|length|, |text|);
      length + text
  }

  function EncString16(s: Option<string>): (e: seq<Byte>)
    ensures |e| % 4 == 0
  {
    match s
    case None => EncI32(-1)
    case Some(s) =>
      var length, text := U32(|Utf16(s)|), Padded(UnitBytes(Utf16(s)) + [0, 0]);
      FourthsAdd(|length|, |text|);
      length + text
  }

  // Lengths fit an i32.
  predicate ShortEnough(s: Option<string>)
  {
    s.Some? ==> |Utf8(s.value)| < 0x8000_0000 && |Utf16(s.value)| < 0x8000_0000
  }

  // ---------- what is read ----------

  function GetU32(d: seq<Byte>, p: nat): (r: Read<nat>)
    ensures r.Ok? ==> r.value.0 < U32_LIMIT && r.value.1 == p + 4
  {
    if p + 4 > |d| then Err(NotEnoughData) else Ok((U32At(d, p), p + 4))
  }

  function GetI32(d: seq<Byte>, p: nat): (r: Read<I32>)
    ensures r.Ok? ==> r.value.1 == p + 4 <= |d|
  {
    if p + 4 > |d| then Err(NotEnoughData) else Ok((Signed32(U32At(d, p)), p + 4))
  }

  function GetString8(d: seq<Byte>, p: nat): (r: Read<Option<string>>)
  {
    var (len, q) :- GetI32(d, p);
    if len < 0 then Ok((None, q))
    else if q + Align4(len + 1) > |d| then Err(NotEnoughData)
    else Ok((Some(FromUtf8(d[q..q + len])), q + Align4(len + 1)))
  }

  function UnitsAt(d: seq<Byte>, q: nat, len: nat): (u: seq<Unit>)
    requires q + 2 * len <= |d|
    ensures |u| == len
    decreases len
  {
    if len == 0 then [] else [U16At(d, q)] + UnitsAt(d, q + 2, len - 1)
  }

  // String16 of crates/arod/src/bundle.rs:67-79, as rsbinder reads it.
  function GetString16(d: seq<Byte>, p: nat): (r: Read<Option<string>>)
  {
    var (len, q) :- GetI32(d, p);
    if len < 0 then Ok((None, q))
    else if q + Align4((len + 1) * 2) > |d| then Err(NotEnoughData)
    else Ok((Some(FromUtf16(UnitsAt(d, q, len))), q + Align4((len + 1) * 2)))
  }

  // ---------- reading back what was written ----------

  lemma I32RoundTrip(d: seq<Byte>, p: nat, v: I32)
    requires Sits(d, p, EncI32(v))
    ensures GetI32(d, p) == Ok((v, p + 4))
  {
    U32Read(d, p, Unsigned32(v));
  }

  lemma String8RoundTrip(d: seq<Byte>, p: nat, s: Option<string>)
    requires Sits(d, p, EncString8(s)) && ShortEnough(s)
    ensures GetString8(d, p) == Ok((s, p + |EncString8(s)|))
  {
    hide Utf8, DecodeUtf8, LeNat, Le, Padded;
    match s
    case None => I32RoundTrip(d, p, -1);
    case Some(t) =>
      var b := Utf8(t);
      SitsSplit(d, p, U32(|b|), Padded(b + [0]));
      U32Read(d, p, |b|);
      PrefixSits(d, p + 4, b, [0]);
      Utf8RoundTrip(t);
  }

  // A padded string starts with its own bytes.
  lemma PrefixSits(d: seq<Byte>, p: nat, b: seq<Byte>, nul: seq<Byte>)
    requires Sits(d, p, Padded(b + nul))
    ensures Sits(d, p, b)
  {
    var e := Padded(b + nul);
    assert e[..|b + nul|][..|b|] == b;
    assert e == b + e[|b|..];
    SitsSplit(d, p, b, e[|b|..]);
  }

  lemma {:induction false} UnitsSit(d: seq<Byte>, p: nat, u: seq<Unit>)
    requires Sits(d, p, UnitBytes(u))
    ensures UnitsAt(d, p, |u|) == u
    decreases u
  {
    if u != [] {
      SitsSplit(d, p, U16(u[0]), UnitBytes(u[1..]));
      U16Read(d, p, u[0]);
      UnitsSit(d, p + 2, u[1..]);
    }
  }

  lemma String16RoundTrip(d: seq<Byte>, p: nat, s: Option<string>)
    requires Sits(d, p, EncString16(s)) && ShortEnough(s)
    ensures GetString16(d, p) == Ok((s, p + |EncString16(s)|))
  {
    hide Utf16, DecodeUtf16, UnitBytes, UnitsAt, LeNat, Le, Padded, Utf8;
    match s
    case None => I32RoundTrip(d, p, -1);
    case Some(t) =>
      var u := Utf16(t);
      SitsSplit(d, p, U32(|u|), Padded(UnitBytes(u) + [0, 0]));
      U32Read(d, p, |u|);
      PrefixSits(d, p + 4, UnitBytes(u), [0, 0]);
      UnitsSit(d, p + 4, u);
      Utf16RoundTrip(t);
  }

  // The layouts of nothing, of a negative number and of two letters.
  lemma WordExamples()
    ensures EncI32(-2) == [0xFE, 0xFF, 0xFF, 0xFF]
    ensures EncString8(None) == EncString16(None) == [0xFF, 0xFF, 0xFF, 0xFF]
  {
    WordOf(0xFFFF_FFFE);
    WordOf(0xFFFF_FFFF);
    hide Le;
  }

  lemma StringExamples()
    ensures EncString8(Some("ab")) == [2, 0, 0, 0, 97, 98, 0, 0]
    ensures EncString16(Some("ab")) == [2, 0, 0, 0, 97, 0, 98, 0, 0, 0, 0, 0]
  {
    TwoLetters();
    WordOf(2);
    hide Utf8, Utf16, Le, UnitBytes, Padded;
    PadOne();
  }

  lemma PadOne()
    ensures Padded([97, 98] + [0]) == [97, 98, 0, 0] && Padded([97, 0, 98, 0] + [0, 0]) == [97, 0, 98, 0, 0, 0, 0, 0]
  {
  }

  lemma TwoLetters()
    ensures Utf8("ab") == [97, 98] && UnitBytes(Utf16("ab")) == [97, 0, 98, 0] && |Utf16("ab")| == 2
  {
    assert "ab"[1..] == "b" && "b"[1..] == "";
    assert Utf8("b") == [98] && Utf16("b") == [98];
    assert Utf16("ab") == [97, 98] && [97, 98][1..] == [98] && [98][1..] == [];
    assert U16(97) == [97, 0] && U16(98) == [98, 0];
  }

  lemma WordOf(n: nat)
    ensures U32(n) == [n % 0x100, n / 0x100 % 0x100, n / 0x1_0000 % 0x100, n / 0x100_0000 % 0x100]
  {
    LeUnfolds(4, n);
    LeUnfolds(3, n / 0x100);
    LeUnfolds(2, n / 0x1_0000);
    LeUnfolds(1, n / 0x100_0000);
    hide Le;
    assert n / 0x100 / 0x100 == n / 0x1_0000 && n / 0x1_0000 / 0x100 == n / 0x100_0000;
  }

  lemma LeUnfolds(n: nat, v: nat)
    requires n > 0
    ensures Le(n, v) == [v % 256] + Le(n - 1, v / 256)
    ensures |Le(n - 1, v / 256)| == n - 1
  {
  }

  // ---------- the parcel ----------

  lemma WordBytes(w: seq<Byte>)
    requires |w| == 4
    ensures LeNat(w) < U32_LIMIT && U32(LeNat(w)) == w
  {
    LeOfLeNat(w);
    assert Pow256(4) == U32_LIMIT;
  }

  class Parcel {
    var data: seq<Byte>
    var pos: nat

    constructor ()
      ensures data == [] && pos == 0
    {
      data, pos := [], 0;
    }

    method WriteU32(v: nat)
      requires v < U32_LIMIT
      modifies this`data
      ensures data == old(data) + U32(v)
    {
      data := data + U32(v);
    }

    method WriteI32(v: I32)
      modifies this`data
      ensures data == old(data) + EncI32(v)
    {
      data := data + EncI32(v);
    }

    // `len as i32`
    method WriteLen(n: nat)
      modifies this`data
      ensures data == old(data) + U32(n)
    {
      data := data + U32(n);
    }

    // rsbinder's UTF-16 string.
    method WriteString16(s: Option<string>)
      modifies this`data
      ensures data == old(data) + EncString16(s)
    {
      data := data + EncString16(s);
    }

    // Whole words of bytes.
    method WriteWords(bytes: seq<Byte>)
      requires |bytes| % 4 == 0
      modifies this`data
      ensures data == old(data) + bytes
    {
      var i := 0;
      while i < |bytes|
        invariant i <= |bytes| && i % 4 == 0
        invariant data == old(data) + bytes[..i]
      {
        var w := bytes[i..i + 4];
        WordBytes(w);
        WriteU32(LeNat(w));
        assert bytes[..i + 4] == bytes[..i] + w;
        i := i + 4;
      }
    }

    // Appends the encoding of s, building its padding and its words one at a time.
    method WriteString8(s: Option<string>)
      modifies this`data
      ensures data == old(data) + EncString8(s)
    {
      if s.None? {
        WriteI32(-1);
      } else {
        var bytes := Utf8(s.value) + [0];
        WriteLen(|Utf8(s.value)|);
        ghost var n := |bytes|;
        while |bytes| % 4 != 0
          invariant n <= |bytes| <= Align4(n)
          invariant bytes == Utf8(s.value) + [0] + Zeros(|bytes| - n)
          decreases Align4(n) - |bytes|
        {
          bytes := bytes + [0];
        }
        WriteWords(bytes);
        assert bytes == Padded(Utf8(s.value) + [0]);
        assert data == old(data) + (U32(|Utf8(s.value)|) + bytes);
      }
    }

    method ReadI32() returns (r: Result<I32, ParcelError>)
      requires pos <= |data|
      modifies this`pos
      ensures pos <= |data|
      ensures var g := GetI32(data, old(pos));
              if g.Ok? then r == Ok(g.value.0) && pos == g.value.1 else r == Err(g.error) && pos == old(pos)
    {
      if pos + 4 > |data| {
        return Err(NotEnoughData);
      }
      r := Ok(Signed32(U32At(data, pos)));
      pos := pos + 4;
    }

    method ReadU32() returns (r: Result<nat, ParcelError>)
      requires pos <= |data|
      modifies this`pos
      ensures pos <= |data|
      ensures var g := GetU32(data, old(pos));
              if g.Ok? then r == Ok(g.value.0) && pos == g.value.1 else r == Err(g.error) && pos == old(pos)
    {
      if pos + 4 > |data| {
        return Err(NotEnoughData);
      }
      r := Ok(U32At(data, pos));
      pos := pos + 4;
    }

    // The next n bytes, read as words.
    method ReadWords(n: nat) returns (r: Result<seq<Byte>, ParcelError>)
      requires n % 4 == 0 && pos <= |data|
      modifies this`pos
      ensures pos <= |data|
      ensures r.Ok? <==> old(pos) + n <= |data|
      ensures r.Ok? ==> pos == old(pos) + n && r.value == data[old(pos)..pos]
      ensures r.Err? ==> r.error == NotEnoughData
    {
      var bytes: seq<Byte> := [];
      for i := 0 to n / 4
        invariant pos == old(pos) + 4 * i <= |data|
        invariant bytes == data[old(pos)..pos]
      {
        ghost var p := pos;
        var w := ReadU32();
        if w.Err? {
          return Err(w.error);
        }
        WordBytes(data[p..p + 4]);
        assert data[old(pos)..p + 4] == data[old(pos)..p] + data[p..p + 4];
        bytes := bytes + U32(w.value);
      }
      return Ok(bytes);
    }

    method ReadString8() returns (r: Result<Option<string>, ParcelError>)
      requires pos <= |data|
      modifies this`pos
      ensures pos <= |data|
      ensures var g := GetString8(data, old(pos));
              if g.Ok? then r == Ok(g.value.0) && pos == g.value.1 else r == Err(g.error)
    {
      var len := ReadI32();
      if len.Err? {
        return Err(len.error);
      }
      if len.value < 0 {
        return Ok(None);
      }
      ghost var q := pos;
      var n: nat := len.value;
      var bytes := ReadWords(Align4(n + 1));
      if bytes.Err? {
        return Err(bytes.error);
      }
      assert bytes.value[..n] == data[q..q + n];
      return Ok(Some(FromUtf8(bytes.value[..n])));
    }

    // rsbinder's UTF-16 string.
    method ReadString16() returns (r: Result<Option<string>, ParcelError>)
      requires pos <= |data|
      modifies this`pos
      ensures pos <= |data|
      ensures var g := GetString16(data, old(pos));
              if g.Ok? then r == Ok(g.value.0) && pos == g.value.1 else r == Err(g.error)
    {
      var g := GetString16(data, pos);
      if g.Err? {
        return Err(g.error);
      }
      pos := g.value.1;
      return Ok(g.value.0);
    }
  }
}
