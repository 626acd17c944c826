// The AXML reader, loop by loop. Index panics of malformed input are the outcome Panic; on the
// encoding of a document the reader computes what its chunks mean.
module AxmlParser {
  import opened Bytes
  import opened Unicode
  import opened Parcels
  import opened Axml

  datatype Failure = NotXml | BadChunk(pos: nat) | Panic

  // ---------- strings ----------

  // A one- or two-byte length at p: its value and where it ends.
  function GetLen8(d: seq<Byte>, p: nat): (r: Option<(nat, nat)>)
    ensures r.Some? ==> p < r.value.1 <= |d|
  {
    if p >= |d| then None
    else if d[p] < 0x80 then Some((d[p] as nat, p + 1))
    else if p + 1 >= |d| then None
    else Some(((d[p] as nat) % 0x80 * 0x100 + d[p + 1], p + 2))
  }

  lemma Len8Read(d: seq<Byte>, p: nat, n: nat)
    requires n < 0x8000 && Sits(d, p, Len8(n))
    ensures GetLen8(d, p) == Some((n, p + |Len8(n)|))
  {
    var e := d[p..p + |Len8(n)|];
    assert e[0] == d[p];
    if n >= 0x80 {
      assert e[1] == d[p + 1];
    }
  }

  method ParseUtf8(chunk: seq<Byte>, off: nat, ghost s: string) returns (r: Result<string, Failure>)
    ensures StringFits(true, s) && Sits(chunk, off, EncString(true, s)) ==> r == Ok(s)
    ensures r.Err? ==> r.error == Panic
  {
    hide GetLen8, Sits, EncString, StringFits, Utf8, Utf16, FromUtf8, Len8;
    if StringFits(true, s) && Sits(chunk, off, EncString(true, s)) {
      Utf8StringRead(chunk, off, s);
    }
    var chars := GetLen8(chunk, off);
    if chars.None? {
      return Err(Panic);
    }
    var bytes := GetLen8(chunk, chars.value.1);
    if bytes.None? {
      return Err(Panic);
    }
    var (len, p) := bytes.value;
    var end := if p + len < |chunk| then p + len else |chunk|;
    return Ok(FromUtf8(chunk[p..end]));
  }

  lemma Utf8StringRead(d: seq<Byte>, off: nat, s: string)
    requires StringFits(true, s) && Sits(d, off, EncString(true, s))
    ensures var a := off + |Len8(|Utf16(s)|)|;
            var b := a + |Len8(|Utf8(s)|)|;
            && GetLen8(d, off) == Some((|Utf16(s)|, a))
            && GetLen8(d, a) == Some((|Utf8(s)|, b))
            && b + |Utf8(s)| <= |d| && FromUtf8(d[b..b + |Utf8(s)|]) == s
  {
    hide GetLen8, Len8, Utf8, Utf16, DecodeUtf8;
    var n, m := Len8(|Utf16(s)|), Len8(|Utf8(s)|);
    SitsSplit(d, off, n, m + (Utf8(s) + [0]));
    SitsSplit(d, off + |n|, m, Utf8(s) + [0]);
    SitsSplit(d, off + |n| + |m|, Utf8(s), [0]);
    Len8Read(d, off, |Utf16(s)|);
    Len8Read(d, off + |n|, |Utf8(s)|);
    Utf8RoundTrip(s);
  }

  function GetLen16(d: seq<Byte>, p: nat): (r: Option<(nat, nat)>)
    ensures r.Some? ==> p < r.value.1 <= |d|
  {
    if p + 2 > |d| then None
    else if U16At(d, p) < 0x8000 then Some((U16At(d, p), p + 2))
    else if p + 4 > |d| then None
    else Some(((U16At(d, p) - 0x8000) * U16_LIMIT + U16At(d, p + 2), p + 4))
  }

  lemma Len16Read(d: seq<Byte>, p: nat, n: nat)
    requires n < 0x8000_0000 && Sits(d, p, Len16(n))
    ensures GetLen16(d, p) == Some((n, p + |Len16(n)|))
  {
    if n < 0x8000 {
      U16Read(d, p, n);
    } else {
      SitsSplit(d, p, U16(0x8000 + n / U16_LIMIT), U16(n % U16_LIMIT));
      U16Read(d, p, 0x8000 + n / U16_LIMIT);
      U16Read(d, p + 2, n % U16_LIMIT);
    }
  }

  lemma {:induction false} UnitsSnoc(d: seq<Byte>, p: nat, k: nat)
    requires p + 2 * (k + 1) <= |d|
    ensures UnitsAt(d, p, k + 1) == UnitsAt(d, p, k) + [U16At(d, p + 2 * k)]
    decreases k
  {
    hide U16At;
    if k > 0 {
      UnitsSnoc(d, p + 2, k - 1);
    } else {
      assert UnitsAt(d, p + 2, 0) == [];
    }
  }

  method ParseUtf16(chunk: seq<Byte>, off: nat, ghost s: string) returns (r: Result<string, Failure>)
    ensures StringFits(false, s) && Sits(chunk, off, EncString(false, s)) ==> r == Ok(s)
    ensures r.Err? ==> r.error == Panic
  {
    hide GetLen16, Sits, EncString, StringFits, Utf16, FromUtf16, Len16, U16At;
    if StringFits(false, s) && Sits(chunk, off, EncString(false, s)) {
      Utf16StringRead(chunk, off, s);
    }
    var length := GetLen16(chunk, off);
    if length.None? {
      return Err(Panic);
    }
    var (len, p) := length.value;
    var units: seq<Unit> := [];
    var k := 0;
    while k < len && p + k * 2 + 1 < |chunk|
      invariant k <= len && p + k * 2 <= |chunk|
      invariant units == UnitsAt(chunk, p, k)
    {
      UnitsSnoc(chunk, p, k);
      units := units + [U16At(chunk, p + k * 2)];
      k := k + 1;
    }
    return Ok(FromUtf16(units));
  }

  lemma Utf16StringRead(d: seq<Byte>, off: nat, s: string)
    requires StringFits(false, s) && Sits(d, off, EncString(false, s))
    ensures var b := off + |Len16(|Utf16(s)|)|;
            && GetLen16(d, off) == Some((|Utf16(s)|, b))
            && b + 2 * |Utf16(s)| <= |d| && FromUtf16(UnitsAt(d, b, |Utf16(s)|)) == s
  {
    hide GetLen16, Len16, Utf16, DecodeUtf16, UnitBytes, UnitsAt;
    var n, u := Len16(|Utf16(s)|), UnitBytes(Utf16(s));
    SitsSplit(d, off, n, u + [0, 0]);
    SitsSplit(d, off + |n|, u, [0, 0]);
    Len16Read(d, off, |Utf16(s)|);
    UnitsSit(d, off + |n|, Utf16(s));
    Utf16RoundTrip(s);
  }

  // ---------- the string pool ----------

  // Where string i starts, relative to the strings.
  ghost function OffsetOf(utf8: bool, strings: seq<string>, i: nat): (n: nat)
    requires StringsFit(utf8, strings) && i <= |strings|
  {
    |EncStrings(utf8, strings[..i])|
  }

  lemma {:induction false} StringsPrefix(utf8: bool, strings: seq<string>, i: nat)
    requires StringsFit(utf8, strings) && i < |strings|
    ensures OffsetOf(utf8, strings, i) + |EncString(utf8, strings[i])| <= |EncStrings(utf8, strings)|
    ensures Sits(EncStrings(utf8, strings), OffsetOf(utf8, strings, i), EncString(utf8, strings[i]))
    decreases strings
  {
    hide EncString, StringFits;
    var first, rest := EncString(utf8, strings[0]), EncStrings(utf8, strings[1..]);
    if i == 0 {
      assert strings[..0] == [];
      SitsSplit(EncStrings(utf8, strings), 0, first, rest);
    } else {
      StringsPrefix(utf8, strings[1..], i - 1);
      assert strings[..i][0] == strings[0] && strings[..i][1..] == strings[1..][..i - 1];
      SitsBehind(first, rest, OffsetOf(utf8, strings[1..], i - 1), EncString(utf8, strings[i]));
    }
  }

  lemma {:induction false} OffsetsRead(d: seq<Byte>, p: nat, utf8: bool, strings: seq<string>, base: nat, i: nat)
    requires StringsFit(utf8, strings) && i < |strings|
    requires Sits(d, p, EncOffsets(utf8, strings, base))
    ensures Sits(d, p + 4 * i, U32(base + OffsetOf(utf8, strings, i)))
    decreases i
  {
    hide EncString, StringFits, Le, Sits;
    var first := EncString(utf8, strings[0]);
    SitsSplit(d, p, U32(base), EncOffsets(utf8, strings[1..], base + |first|));
    if i == 0 {
      assert strings[..0] == [];
    } else {
      OffsetsRead(d, p + 4, utf8, strings[1..], base + |first|, i - 1);
      assert strings[..i][0] == strings[0] && strings[..i][1..] == strings[1..][..i - 1];
    }
  }

  // The words of a pool chunk.
  lemma PoolWords(utf8: bool, strings: seq<string>)
    requires StringsFit(utf8, strings) && |EncPool(utf8, strings)| < U32_LIMIT
    ensures var e, start := EncPool(utf8, strings), 28 + 4 * |strings|;
            && |e| >= start && U32At(e, 8) == |strings| && U32At(e, 16) == (if utf8 then UTF8_FLAG else 0)
            && U32At(e, 20) == start
            && Sits(e, 28, EncOffsets(utf8, strings, 0))
            && Sits(e, start, Padded(EncStrings(utf8, strings)))
  {
    hide EncString, StringFits, Le, EncStrings, EncOffsets, StringsFit, LeNat, Sits;
    var e, start := EncPool(utf8, strings), 28 + 4 * |strings|;
    var body := Padded(EncStrings(utf8, strings));
    var e6 := EncOffsets(utf8, strings, 0) + body;
    var e5 := U32(0) + e6;
    var e4 := U32(start) + e5;
    var flags := if utf8 then UTF8_FLAG else 0;
    var e3 := U32(flags) + e4;
    var e2 := U32(0) + e3;
    WholeSits(e);
    SitsSplit(e, 0, Header(STRING_POOL, 28, start + |body|), U32(|strings|) + e2);
    SitsSplit(e, 8, U32(|strings|), e2);
    SitsSplit(e, 12, U32(0), e3);
    SitsSplit(e, 16, U32(flags), e4);
    SitsSplit(e, 20, U32(start), e5);
    SitsSplit(e, 24, U32(0), e6);
    SitsSplit(e, 28, EncOffsets(utf8, strings, 0), body);
    SitsRead32(e, 8, |strings|);
    SitsRead32(e, 16, flags);
    SitsRead32(e, 20, start);
  }

  // The i-th string of a pool chunk lies where its offset says.
  lemma PoolString(utf8: bool, strings: seq<string>, i: nat)
    requires StringsFit(utf8, strings) && |EncPool(utf8, strings)| < U32_LIMIT && i < |strings|
    ensures var e, start := EncPool(utf8, strings), 28 + 4 * |strings|;
            && 28 + i * 4 + 4 <= |e|
            && start + U32At(e, 28 + i * 4) < |e|
            && Sits(e, start + U32At(e, 28 + i * 4), EncString(utf8, strings[i]))
  {
    hide EncPool, EncString, StringFits, Le, EncStrings, EncOffsets, LeNat, Sits;
    var e, start := EncPool(utf8, strings), 28 + 4 * |strings|;
    var all, off := EncStrings(utf8, strings), OffsetOf(utf8, strings, i);
    PoolWords(utf8, strings);
    OffsetsRead(e, 28, utf8, strings, 0, i);
    StringsPrefix(utf8, strings, i);
    SitsInside(e, start, all, off, EncString(utf8, strings[i]));
    SitsRead32(e, 28 + i * 4, off);
  }

  lemma SitsInside(d: seq<Byte>, p: nat, b: seq<Byte>, q: nat, e: seq<Byte>)
    requires Sits(d, p, Padded(b)) && Sits(b, q, e)
    ensures Sits(d, p + q, e) && p + q + |e| <= |d|
  {
    hide Padded;
    var x := Padded(b);
    assert x[..|b|] == b;
    SubSlice(d, p, |x|, q, q + |e|);
    assert x[q..q + |e|] == x[..|b|][q..q + |e|];
  }

  method ParseStringPool(chunk: seq<Byte>, ghost utf8: bool, ghost strings: seq<string>)
      returns (r: Result<seq<string>, Failure>)
    ensures StringsFit(utf8, strings) && chunk == EncPool(utf8, strings) && |chunk| < U32_LIMIT ==> r == Ok(strings)
    ensures r.Err? ==> r.error == Panic
    // On any input: as many strings as stated, those whose offset leaves the chunk being empty.
    ensures r.Ok? ==>
              && 24 <= |chunk| && |r.value| == U32At(chunk, 8)
              && forall i :: 0 <= i < |r.value| ==>
                && 28 + 4 * i + 4 <= |chunk|
                && (U32At(chunk, 20) + U32At(chunk, 28 + 4 * i) >= |chunk| ==> r.value[i] == "")
  {
    hide EncPool, EncString, StringFits, Sits, U32At, StringsFit;
    ghost var enc := StringsFit(utf8, strings) && chunk == EncPool(utf8, strings) && |chunk| < U32_LIMIT;
    if enc {
      PoolWords(utf8, strings);
    }
    if |chunk| < 24 {
      return Err(Panic);
    }
    var count := U32At(chunk, 8);
    var flags := U32At(chunk, 16);
    var stringsStart := U32At(chunk, 20);
    var isUtf8 := flags / UTF8_FLAG % 2 == 1;
    var out: seq<string> := [];
    for i := 0 to count
      invariant enc ==> out == strings[..i]
      invariant |out| == i
      invariant forall k :: 0 <= k < i ==>
                  && 28 + 4 * k + 4 <= |chunk|
                  && (stringsStart + U32At(chunk, 28 + 4 * k) >= |chunk| ==> out[k] == "")
    {
      if enc {
        PoolString(utf8, strings, i);
      }
      if 28 + i * 4 + 4 > |chunk| {
        return Err(Panic);
      }
      var off := stringsStart + U32At(chunk, 28 + i * 4);
      if off >= |chunk| {
        out := out + [""];
      } else {
        ghost var s := if enc then strings[i] else "";
        var t: Result<string, Failure>;
        if isUtf8 {
          t := ParseUtf8(chunk, off, s);
        } else {
          t := ParseUtf16(chunk, off, s);
        }
        if enc {
          StringFitsAt(utf8, strings, i);
        }
        if t.Err? {
          return Err(t.error);
        }
        out := out + [t.value];
      }
    }
    if enc {
      assert strings[..count] == strings;
    }
    return Ok(out);
  }

  lemma StringFitsAt(utf8: bool, strings: seq<string>, i: nat)
    requires StringsFit(utf8, strings) && i < |strings|
    ensures StringFits(utf8, strings[i])
  {
  }

  // ---------- resource map ----------

  lemma {:induction false} IdsRead(d: seq<Byte>, p: nat, ids: seq<nat>, i: nat)
    requires Sits(d, p, EncIds(ids)) && i < |ids| && ids[i] < U32_LIMIT
    ensures p + 4 * i + 4 <= |d| && U32At(d, p + 4 * i) == ids[i]
    decreases i
  {
    SitsSplit(d, p, U32(ids[0]), EncIds(ids[1..]));
    if i == 0 {
      SitsRead32(d, p, ids[0]);
    } else {
      IdsRead(d, p + 4, ids[1..], i - 1);
    }
  }

  // The words of a resource map are its ids.
  lemma MapWords(ids: seq<nat>, out: seq<nat>)
    requires ChunkFits(ResMap(ids))
    requires var e := Enc(ResMap(ids));
             && |out| == (|e| - 8) / 4
             && forall i :: 0 <= i < |out| ==> 8 + 4 * i + 4 <= |e| && out[i] == U32At(e, 8 + 4 * i)
    ensures |Enc(ResMap(ids))| == 8 + 4 * |ids| && out == ids
  {
    hide U32At, Sits, Header, EncIds;
    var e := Enc(ResMap(ids));
    WholeSits(e);
    SitsSplit(e, 0, Header(RESOURCE_MAP, 8, 8 + 4 * |ids|), EncIds(ids));
    forall i | 0 <= i < |ids|
      ensures out[i] == ids[i]
    {
      IdsRead(e, 8, ids, i);
    }
  }

  method ParseResMap(chunk: seq<Byte>, hsize: nat, ghost ids: seq<nat>) returns (r: Result<seq<nat>, Failure>)
    ensures ChunkFits(ResMap(ids)) && hsize == 8 && chunk == Enc(ResMap(ids)) ==> r == Ok(ids)
    ensures r == Err(Panic) <==> hsize < |chunk| && (|chunk| - hsize) % 4 != 0
    ensures r.Ok? ==>
              && |r.value| == (if hsize < |chunk| then (|chunk| - hsize) / 4 else 0)
              && forall i :: 0 <= i < |r.value| ==>
                hsize + 4 * i + 4 <= |chunk| && r.value[i] == U32At(chunk, hsize + 4 * i)
    ensures r.Err? ==> r.error == Panic
  {
    hide U32At, Enc, ChunkFits;
    if ChunkFits(ResMap(ids)) {
      MapLength(ids);
    }
    var out: seq<nat> := [];
    var i := hsize;
    while i < |chunk|
      invariant i == hsize + 4 * |out| && (hsize < i ==> i <= |chunk|)
      invariant forall k :: 0 <= k < |out| ==> hsize + 4 * k + 4 <= |chunk| && out[k] == U32At(chunk, hsize + 4 * k)
    {
      if i + 4 > |chunk| {
        return Err(Panic);
      }
      out := out + [U32At(chunk, i)];
      i := i + 4;
    }
    if ChunkFits(ResMap(ids)) && hsize == 8 && chunk == Enc(ResMap(ids)) {
      MapWords(ids, out);
    }
    return Ok(out);
  }

  lemma MapLength(ids: seq<nat>)
    requires ChunkFits(ResMap(ids))
    ensures |Enc(ResMap(ids))| == 8 + 4 * |ids|
  {
    hide U32, U16;
  }

  // ---------- start of an element ----------

  lemma StartWords(meta: Meta, name: nat, attrs: seq<AttrRec>)
    requires ChunkFits(Start(meta, name, attrs))
    ensures var e := EncStart(meta, name, attrs);
            && |e| >= 36 && U32At(e, 20) == name && U16At(e, 24) == 20 && U16At(e, 26) == 20
            && U16At(e, 28) == |attrs| && Sits(e, 36, EncAttrs(attrs))
  {
    hide EncAttrs, EncMeta, Le, LeNat, Sits;
    var e := EncStart(meta, name, attrs);
    var zeros: seq<Byte> := [0, 0, 0, 0, 0, 0];
    var e5 := zeros + EncAttrs(attrs);
    var e4 := U16(|attrs|) + e5;
    var e3 := U16(20) + e4;
    var e2 := U16(20) + e3;
    var e1 := U32(name) + e2;
    WholeSits(e);
    SitsSplit(e, 0, Header(START_ELEMENT, 16, 36 + 20 * |attrs|), EncMeta(meta) + e1);
    SitsSplit(e, 8, EncMeta(meta), e1);
    SitsSplit(e, 20, U32(name), e2);
    SitsSplit(e, 24, U16(20), e3);
    SitsSplit(e, 26, U16(20), e4);
    SitsSplit(e, 28, U16(|attrs|), e5);
    SitsSplit(e, 30, zeros, EncAttrs(attrs));
    SitsRead32(e, 20, name);
    SitsRead16(e, 24, 20);
    SitsRead16(e, 26, 20);
    SitsRead16(e, 28, |attrs|);
  }

  lemma AttrWords(d: seq<Byte>, p: nat, a: AttrRec)
    requires Sits(d, p, EncAttr(a)) && AttrFits(a)
    ensures p + 20 <= |d| && U32At(d, p + 4) == a.name && U32At(d, p + 8) == a.raw
    ensures d[p + 15] == a.dataType && U32At(d, p + 16) == a.data
  {
    hide Le, LeNat, U32At;
    var ty: seq<Byte> := [0, a.dataType];
    var e4 := ty + U32(a.data);
    var e3 := U16(8) + e4;
    var e2 := U32(a.raw) + e3;
    var e1 := U32(a.name) + e2;
    SitsSplit(d, p, U32(a.ns), e1);
    SitsSplit(d, p + 4, U32(a.name), e2);
    SitsSplit(d, p + 8, U32(a.raw), e3);
    SitsSplit(d, p + 12, U16(8), e4);
    SitsSplit(d, p + 14, ty, U32(a.data));
    SitsRead32(d, p + 4, a.name);
    SitsRead32(d, p + 8, a.raw);
    assert d[p + 14..p + 16][1] == ty[1];
    SitsRead32(d, p + 16, a.data);
  }

  lemma {:induction false} AttrsSit(d: seq<Byte>, p: nat, attrs: seq<AttrRec>, i: nat)
    requires Sits(d, p, EncAttrs(attrs)) && i < |attrs|
    ensures Sits(d, p + 20 * i, EncAttr(attrs[i]))
    decreases i
  {
    hide EncAttr, Sits;
    SitsSplit(d, p, EncAttr(attrs[0]), EncAttrs(attrs[1..]));
    if i > 0 {
      AttrsSit(d, p + 20, attrs[1..], i - 1);
    }
  }

  // The attribute record at a.
  function RecAt(chunk: seq<Byte>, a: nat): AttrRec
    requires a + 20 <= |chunk|
  {
    AttrRec(U32At(chunk, a), U32At(chunk, a + 4), U32At(chunk, a + 8), chunk[a + 15], U32At(chunk, a + 16))
  }

  // Where record i starts, by the offset and the size of records that the chunk states.
  function RecordStart(chunk: seq<Byte>, i: nat): (a: nat)
    requires |chunk| >= 30
  {
    var size := U16At(chunk, 26);
    16 + U16At(chunk, 24) + i * if size < 20 then 20 else size
  }

  // attrs are what the records stand for, up to the number stated or to the first that leaves the chunk.
  ghost predicate Recorded(strings: seq<string>, resMap: seq<nat>, chunk: seq<Byte>, attrs: seq<Attribute>)
    requires |chunk| >= 30
  {
    && |attrs| <= U16At(chunk, 28)
    && (|attrs| < U16At(chunk, 28) ==> RecordStart(chunk, |attrs|) + 20 > |chunk|)
    && forall i :: 0 <= i < |attrs| ==>
      && RecordStart(chunk, i) + 20 <= |chunk|
      && AttrStands(strings, resMap, RecAt(chunk, RecordStart(chunk, i)), attrs[i])
  }

  // The records of an encoded element are those it was made from.
  lemma RecordedIs(strings: seq<string>, resMap: seq<nat>, meta: Meta, name: nat, recs: seq<AttrRec>,
                   out: seq<Attribute>)
    requires ChunkFits(Start(meta, name, recs))
    requires |EncStart(meta, name, recs)| >= 30 && Recorded(strings, resMap, EncStart(meta, name, recs), out)
    ensures U32At(EncStart(meta, name, recs), 20) == name
    ensures AttrsStand(strings, resMap, recs, out) && out == AttributesOf(strings, resMap, recs)
  {
    hide U32At, U16At, EncStart, Sits, AttrStands, AttributeOf, AttributesOf, RecAt;
    var e := EncStart(meta, name, recs);
    StartWords(meta, name, recs);
    assert |e| == 36 + 20 * |recs|;
    assert RecordStart(e, |out|) == 36 + 20 * |out|;
    forall i | 0 <= i < |recs|
      ensures i < |out| ==> AttrStands(strings, resMap, recs[i], out[i])
    {
      AttrsSit(e, 36, recs, i);
      if i < |out| {
        assert RecordStart(e, i) == 36 + 20 * i;
        RecordAt(strings, resMap, e, 36 + 20 * i, recs[i], out[i]);
      }
    }
    AttributesIff(strings, resMap, recs, out);
  }

  lemma RecordAt(strings: seq<string>, resMap: seq<nat>, d: seq<Byte>, p: nat, a: AttrRec, x: Attribute)
    requires Sits(d, p, EncAttr(a)) && AttrFits(a)
    ensures p + 20 <= |d| && AttrStands(strings, resMap, RecAt(d, p), x) == AttrStands(strings, resMap, a, x)
  {
    hide U32At, Sits, EncAttr, Names, IdIs;
    AttrWords(d, p, a);
  }

  method ParseStart(chunk: seq<Byte>, strings: seq<string>, resMap: seq<nat>,
                    ghost meta: Meta, ghost name: nat, ghost attrs: seq<AttrRec>)
      returns (r: Result<Element, Failure>)
    ensures ChunkFits(Start(meta, name, attrs)) && chunk == EncStart(meta, name, attrs) ==>
              r == Ok(Element(StringAt(strings, name), AttributesOf(strings, resMap, attrs), []))
    // The element has the name and the attributes that the chunk stands for.
    ensures ChunkFits(Start(meta, name, attrs)) && chunk == EncStart(meta, name, attrs) ==>
              Names(strings, name, r.value.name) && AttrsStand(strings, resMap, attrs, r.value.attrs)
    ensures r.Ok? ==> r.value.children == []
    ensures r == Err(Panic) <==> |chunk| < 30
    ensures r.Err? ==> r.error == Panic
    // On any input: the records as far as they are there, each at its place.
    ensures r.Ok? ==> Names(strings, U32At(chunk, 20), r.value.name) && Recorded(strings, resMap, chunk, r.value.attrs)
  {
    hide U32At, U16At, EncStart, StringAt, AttributeOf, AttributesOf, AttrStands, AttrsStand, Names, ChunkFits;
    if |chunk| < 30 {
      if ChunkFits(Start(meta, name, attrs)) {
        StartWords(meta, name, attrs);
      }
      return Err(Panic);
    }
    var nameIdx := U32At(chunk, 20);
    var attrSize := U16At(chunk, 26);
    var attrCount := U16At(chunk, 28);
    var base := 16 + U16At(chunk, 24);
    var stride := if attrSize > 20 then attrSize else 20;
    var out: seq<Attribute> := [];
    var i := 0;
    while i < attrCount && base + i * stride + 20 <= |chunk|
      invariant i <= attrCount && |out| == i
      invariant forall k :: 0 <= k < i ==>
                  && RecordStart(chunk, k) + 20 <= |chunk|
                  && AttrStands(strings, resMap, RecAt(chunk, RecordStart(chunk, k)), out[k])
    {
      var a := base + i * stride;
      assert RecordStart(chunk, i) == a;
      var rec := AttrRec(U32At(chunk, a), U32At(chunk, a + 4), U32At(chunk, a + 8), chunk[a + 15],
                         U32At(chunk, a + 16));
      AttributeIff(strings, resMap, rec, AttributeOf(strings, resMap, rec));
      out := out + [AttributeOf(strings, resMap, rec)];
      i := i + 1;
    }
    NameIs(strings, nameIdx);
    assert Recorded(strings, resMap, chunk, out);
    if ChunkFits(Start(meta, name, attrs)) && chunk == EncStart(meta, name, attrs) {
      RecordedIs(strings, resMap, meta, name, attrs, out);
    }
    return Ok(Element(StringAt(strings, nameIdx), out, []));
  }

  lemma NameIs(strings: seq<string>, i: nat)
    ensures Names(strings, i, StringAt(strings, i))
  {
  }

  // ---------- the document ----------

  function TypeOf(c: Chunk): nat
  {
    match c
    case Pool(_, _) => STRING_POOL
    case ResMap(_) => RESOURCE_MAP
    case Start(_, _, _) => START_ELEMENT
    case End(_, _) => END_ELEMENT
    case Skipped(ty, _, _) => ty
  }

  lemma HeaderWords(d: seq<Byte>, ty: nat, headerSize: nat, size: nat)
    requires |d| >= 8 && d[..8] == Header(ty, headerSize, size) && ty < U16_LIMIT && size < U32_LIMIT
    ensures U16At(d, 0) == ty && U32At(d, 4) == size
    ensures headerSize < U16_LIMIT ==> U16At(d, 2) == headerSize
  {
    hide Le, LeNat, U16At, U32At;
    assert Sits(d, 0, Header(ty, headerSize, size));
    SitsSplit(d, 0, U16(ty), U16(headerSize) + U32(size));
    SitsSplit(d, 2, U16(headerSize), U32(size));
    SitsRead16(d, 0, ty);
    SitsRead32(d, 4, size);
    if headerSize < U16_LIMIT {
      SitsRead16(d, 2, headerSize);
    }
  }

  lemma ChunkHeader(c: Chunk)
    requires ChunkFits(c)
    ensures var e := Enc(c);
            && 8 <= |e| && U16At(e, 0) == TypeOf(c) && U32At(e, 4) == |e|
            && (c.ResMap? ==> U16At(e, 2) == 8)
  {
    hide Header, U16At, U32At, EncStrings, EncOffsets, Padded, EncIds, EncAttrs, EncMeta, U32, U16;
    var e := Enc(c);
    match c
    case Pool(utf8, strings) =>
      var start, body := 28 + 4 * |strings|, Padded(EncStrings(utf8, strings));
      assert |e| == start + |body|;
      HeaderWords(e, STRING_POOL, 28, start + |body|);
    case ResMap(ids) => HeaderWords(e, RESOURCE_MAP, 8, 8 + 4 * |ids|);
    case Start(meta, name, attrs) => HeaderWords(e, START_ELEMENT, 16, 36 + 20 * |attrs|);
    case End(meta, name) => HeaderWords(e, END_ELEMENT, 16, 24);
    case Skipped(ty, headerSize, body) => HeaderWords(e, ty, headerSize, 8 + |body|);
  }

  // One chunk of the loop: its effect on strings, resource map and element stack.
  method ParseChunk(chunk: seq<Byte>, ty: nat, hsize: nat, st: State, ghost c: Chunk)
      returns (r: Result<State, Failure>)
    requires |st.stack| > 0
    ensures r.Ok? ==> |r.value.stack| > 0
    ensures r.Err? ==> r.error == Panic
    // On any input: an element opens on top of the stack, closes into the one below, and no other chunk
    // touches the stack; namespaces and unknown chunks change nothing.
    ensures ty == START_ELEMENT && r.Ok? ==>
              exists el :: r.value == st.(stack := st.stack + [el]) && el.children == []
    ensures ty == END_ELEMENT ==> r == Ok(st.(stack := Pop(st.stack)))
    ensures ty == STRING_POOL && r.Ok? ==> r.value.stack == st.stack && r.value.resMap == st.resMap
    ensures ty == RESOURCE_MAP && r.Ok? ==> r.value.stack == st.stack && r.value.strings == st.strings
    ensures ty !in {STRING_POOL, RESOURCE_MAP, START_ELEMENT, END_ELEMENT} ==> r == Ok(st)
    ensures ChunkFits(c) && chunk == Enc(c) && ty == TypeOf(c) && (c.ResMap? ==> hsize == 8) ==> r == Ok(Step(st, c))
  {
    hide EncPool, EncStart, EncIds, EncMeta, StringAt, AttributesOf;
    if ty == STRING_POOL {
      var strings := ParseStringPool(chunk, c.Pool? && c.utf8, if c.Pool? then c.strings else []);
      if strings.Err? {
        return Err(strings.error);
      }
      return Ok(st.(strings := strings.value));
    } else if ty == RESOURCE_MAP {
      var resMap := ParseResMap(chunk, hsize, if c.ResMap? then c.ids else []);
      if resMap.Err? {
        return Err(resMap.error);
      }
      return Ok(st.(resMap := resMap.value));
    } else if ty == START_ELEMENT {
      var el := ParseStart(chunk, st.strings, st.resMap, if c.Start? then c.meta else Meta(0, 0, 0),
                           if c.Start? then c.name else 0, if c.Start? then c.attrs else []);
      if el.Err? {
        return Err(el.error);
      }
      return Ok(st.(stack := st.stack + [el.value]));
    } else if ty == END_ELEMENT {
      return Ok(st.(stack := Pop(st.stack)));
    } else {
      return Ok(st);
    }
  }

  // The chunk after the first k, in the bytes of the document.
  lemma NextChunk(chunks: seq<Chunk>, k: nat)
    requires AllFit(chunks) && k < |chunks|
    ensures AllFit(chunks[..k]) && AllFit(chunks[..k + 1]) && ChunkFits(chunks[k])
    ensures Sits(EncDoc(chunks), 8 + |EncAll(chunks[..k])|, Enc(chunks[k]))
    ensures |EncAll(chunks[..k + 1])| == |EncAll(chunks[..k])| + |Enc(chunks[k])|
    ensures Run(INIT, chunks[..k + 1]) == Step(Run(INIT, chunks[..k]), chunks[k])
  {
    hide Enc, Step, ChunkFits, Header;
    var done, c, rest := chunks[..k], chunks[k], chunks[k..];
    var one: seq<Chunk> := [c];
    assert chunks == done + rest && rest[1..] == chunks[k + 1..] && rest[0] == c;
    EncAllAppend(done, rest);
    assert EncAll(rest) == Enc(c) + EncAll(rest[1..]);
    SitsMiddle(Header(XML, 8, 8 + |EncAll(chunks)|), EncAll(done), Enc(c), EncAll(rest[1..]));
    assert chunks[..k + 1] == done + one && one[1..] == [] && one[0] == c;
    assert EncAll(one) == Enc(c) + EncAll([]);
    EncAllAppend(done, one);
    RunAppend(INIT, done, one);
    assert Run(Run(INIT, done), one) == Run(Step(Run(INIT, done), c), []);
  }

  lemma SitsMiddle(a: seq<Byte>, b: seq<Byte>, e: seq<Byte>, c: seq<Byte>)
    ensures Sits(a + (b + (e + c)), |a| + |b|, e)
  {
  }

  // The first chunk from pos on whose size is too small or leaves the data.
  function FirstBad(data: seq<Byte>, pos: nat): (bad: Option<nat>)
    decreases |data| - pos
  {
    if pos + 8 > |data| then None
    else
      var size := U32At(data, pos + 4);
      if size < 8 || pos + size > |data| then Some(pos) else FirstBad(data, pos + size)
  }

  method Parse(data: seq<Byte>, ghost chunks: seq<Chunk>) returns (r: Result<Element, Failure>)
    ensures AllFit(chunks) && data == EncDoc(chunks) ==> r == Ok(Finish(Run(INIT, chunks).stack))
    ensures |data| < 8 || U16At(data, 0) != XML <==> r == Err(NotXml)
    // On any input: a result means that the chunk headers chain to the end, and a bad chunk is reported
    // where the chain first breaks.
    ensures r.Ok? ==> FirstBad(data, U16At(data, 2)) == None
    ensures r.Err? && r.error.BadChunk? ==> FirstBad(data, U16At(data, 2)) == Some(r.error.pos)
  {
    hide Enc, Step, ChunkFits, AllFit, EncAll, U16At, U32At, Run, Sits, Finish;
    ghost var enc := AllFit(chunks) && data == EncDoc(chunks);
    if enc {
      DocHeader(chunks);
    }
    if |data| < 8 || U16At(data, 0) != XML {
      return Err(NotXml);
    }
    var pos := U16At(data, 2);
    var st := INIT;
    ghost var k := 0;
    while pos + 8 <= |data|
      invariant |st.stack| > 0
      invariant FirstBad(data, U16At(data, 2)) == FirstBad(data, pos)
      invariant enc ==> k <= |chunks| && AllFit(chunks[..k])
      invariant enc ==> pos == 8 + |EncAll(chunks[..k])| && st == Run(INIT, chunks[..k])
      decreases |data| - pos
    {
      var ty := U16At(data, pos);
      var hsize := U16At(data, pos + 2);
      var size := U32At(data, pos + 4);
      ghost var c := Skipped(0, 0, []);
      if enc {
        WholePrefix(chunks, k);
        c := chunks[k];
        NextChunk(chunks, k);
        ChunkAt(data, pos, c);
      }
      if size < 8 || pos + size > |data| {
        return Err(BadChunk(pos));
      }
      var next := ParseChunk(data[pos..pos + size], ty, hsize, st, c);
      if next.Err? {
        return Err(next.error);
      }
      st := next.value;
      pos := pos + size;
      k := k + 1;
    }
    if enc {
      if k < |chunks| {
        NextChunk(chunks, k);
        ChunkAt(data, pos, chunks[k]);
        assert false;
      }
      WholePrefix(chunks, k);
    }
    var root := st.stack[0];
    FinishIs(st.stack);
    if |root.children| == 1 {
      return Ok(root.children[0]);
    }
    return Ok(root);
  }

  lemma WholePrefix(chunks: seq<Chunk>, k: nat)
    requires AllFit(chunks) && k <= |chunks|
    ensures k == |chunks| ==> chunks[..k] == chunks
  {
  }

  lemma FinishIs(stack: seq<Element>)
    requires |stack| > 0
    ensures Finish(stack) == if |stack[0].children| == 1 then stack[0].children[0] else stack[0]
  {
  }

  lemma DocHeader(chunks: seq<Chunk>)
    requires AllFit(chunks)
    ensures |EncDoc(chunks)| == 8 + |EncAll(chunks)|
    ensures U16At(EncDoc(chunks), 0) == XML && U16At(EncDoc(chunks), 2) == 8
    ensures AllFit(chunks[..0]) && EncAll(chunks[..0]) == [] && Run(INIT, chunks[..0]) == INIT
  {
    hide Le, LeNat, U16At;
    var d := EncDoc(chunks);
    WholeSits(d);
    SitsSplit(d, 0, Header(XML, 8, 8 + |EncAll(chunks)|), EncAll(chunks));
    SitsSplit(d, 0, U16(XML), U16(8) + U32(8 + |EncAll(chunks)|));
    SitsSplit(d, 2, U16(8), U32(8 + |EncAll(chunks)|));
    SitsRead16(d, 0, XML);
    SitsRead16(d, 2, 8);
  }

  // What the loop reads of the chunk at pos.
  lemma ChunkAt(d: seq<Byte>, pos: nat, c: Chunk)
    requires ChunkFits(c) && Sits(d, pos, Enc(c))
    ensures var n := |Enc(c)|;
            && 8 <= n && pos + n <= |d| && d[pos..pos + n] == Enc(c)
            && U16At(d, pos) == TypeOf(c) && U32At(d, pos + 4) == n
            && (c.ResMap? ==> U16At(d, pos + 2) == 8)
  {
    hide Enc;
    ChunkHeader(c);
    var n := |Enc(c)|;
    SubSlice(d, pos, n, 0, 2);
    SubSlice(d, pos, n, 2, 4);
    SubSlice(d, pos, n, 4, 8);
  }
}
