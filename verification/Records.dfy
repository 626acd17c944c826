// The records of a property area and their bytes. `prop_bt` is a trie node, `prop_info` a property
// with its value in line (Short) or out of line (Long, pointing at a Text record).
module Records {
  import opened Bytes
  import opened Names

  const VALUE_MAX: nat := 92
  const BT_SIZE: nat := 20
  const INFO_SIZE: nat := 96
  const LONG_FLAG: nat := 0x1_0000

  type TextByte = b: int | 0 < b < 256 witness 1

  // "Must use __system_property_read_callback() to read"
  const LEGACY_ERROR: seq<TextByte> :=
    [77, 117, 115, 116, 32, 117, 115, 101, 32, 95, 95, 115, 121, 115, 116, 101, 109, 95, 112, 114,
     111, 112, 101, 114, 116, 121, 95, 114, 101, 97, 100, 95, 99, 97, 108, 108, 98, 97, 99, 107, 40,
     41, 32, 116, 111, 32, 114, 101, 97, 100]

  datatype Rec =
    | Bt(name: Seg, prop: nat, left: nat, right: nat, children: nat)
    | Short(name: seq<Byte>, value: seq<Byte>)
    | Long(name: seq<Byte>, rel: nat)
    | Text(value: seq<Byte>)

  predicate IsInfo(r: Rec)
  {
    r.Short? || r.Long?
  }

  // Every number in the record fits its field.
  predicate Fits(r: Rec)
  {
    match r
    case Bt(name, prop, left, right, children) =>
      |name| < U32_LIMIT && prop < U32_LIMIT && left < U32_LIMIT && right < U32_LIMIT && children < U32_LIMIT
    case Short(_, value) => |value| < VALUE_MAX
    case Long(_, rel) => rel < U32_LIMIT
    case Text(_) => true
  }

  // A node's name is stored NUL-terminated; the root has none.
  function NameBytes(name: Seg): (s: seq<Byte>)
    ensures |s| == if name == [] then 0 else Align4(|name| + 1)
    ensures |name| <= |s| && s[..|name|] == name
  {
    PaddedName(name);
    if name == [] then [] else Padded(name + [0])
  }

  lemma PaddedName(name: Seg)
    ensures Padded(name + [0])[..|name|] == name
  {
    var x := name + [0];
    var p := Padded(x);
    forall i | 0 <= i < |name|
      ensures p[i] == name[i]
    {
      assert p[..|x|][i] == x[i];
    }
  }

  function Size(r: Rec): (n: nat)
    ensures n % 4 == 0 && n > 0
  {
    match r
    case Bt(name, _, _, _, _) => BT_SIZE + if name == [] then 0 else Align4(|name| + 1)
    case Short(name, _) => INFO_SIZE + Align4(|name| + 1)
    case Long(name, _) => INFO_SIZE + Align4(|name| + 1)
    case Text(value) => Align4(|value| + 1)
  }

  function ShortSerial(n: nat): nat
  {
    n * 0x100_0000
  }

  const LONG_SERIAL: nat := |LEGACY_ERROR| * 0x100_0000 + LONG_FLAG

  function BtHead(len: nat, prop: nat, left: nat, right: nat, children: nat): (s: seq<Byte>)
    ensures |s| == BT_SIZE
    ensures s[0..4] == U32(len) && s[4..8] == U32(prop) && s[8..12] == U32(left)
    ensures s[12..16] == U32(right) && s[16..20] == U32(children)
  {
    FiveWords(U32(len), U32(prop), U32(left), U32(right), U32(children));
    U32(len) + U32(prop) + U32(left) + U32(right) + U32(children)
  }

  lemma FiveWords(a: seq<Byte>, b: seq<Byte>, c: seq<Byte>, d: seq<Byte>, e: seq<Byte>)
    requires |a| == 4 && |b| == 4 && |c| == 4 && |d| == 4 && |e| == 4
    ensures var s := a + b + c + d + e;
            s[0..4] == a && s[4..8] == b && s[8..12] == c && s[12..16] == d && s[16..20] == e
  {
  }

  function Enc(r: Rec): (s: seq<Byte>)
    requires Fits(r)
    ensures |s| == Size(r)
  {
    match r
    case Bt(name, prop, left, right, children) =>
      BtHead(|name|, prop, left, right, children) + NameBytes(name)
    case Short(name, value) =>
      U32(ShortSerial(|value|)) + value + Zeros(VALUE_MAX - |value|) + Padded(name + [0])
    case Long(name, rel) =>
      U32(LONG_SERIAL) + LEGACY_ERROR + Zeros(6) + U32(rel) + Zeros(32) + Padded(name + [0])
    case Text(value) => Padded(value + [0])
  }

  // The record r lies at offset o of the arena d.
  predicate At(d: seq<Byte>, o: nat, r: Rec)
  {
    && Fits(r)
    && o % 4 == 0
    && o + Size(r) <= |d|
    && d[o..o + Size(r)] == Enc(r)
  }

  type Heap = map<nat, Rec>

  // The arena d holds the records of h, each in range and 4-aligned, no two overlapping.
  ghost predicate Holds(d: seq<Byte>, h: Heap)
  {
    && (forall o {:trigger At(d, o, h[o])} :: o in h ==> At(d, o, h[o]))
    && (forall a, b :: a in h && b in h && a < b ==> a + Size(h[a]) <= b)
  }

  // The four link words of a trie node.
  datatype Link = Prop | Left | Right | Children

  function Offset(l: Link): nat
  {
    match l case Prop => 4 case Left => 8 case Right => 12 case Children => 16
  }

  function Follow(r: Rec, l: Link): nat
    requires r.Bt?
  {
    match l case Prop => r.prop case Left => r.left case Right => r.right case Children => r.children
  }

  function Relink(r: Rec, l: Link, n: nat): Rec
    requires r.Bt?
  {
    match l
    case Prop => r.(prop := n)
    case Left => r.(left := n)
    case Right => r.(right := n)
    case Children => r.(children := n)
  }

  // d with the four bytes at o replaced (`set_u32`).
  function Put32(d: seq<Byte>, o: nat, v: nat): (d': seq<Byte>)
    requires o + 4 <= |d|
    ensures |d'| == |d|
  {
    Splice(d, o, U32(v))
  }

  // ---------- reading a record back ----------

  // The fields of the trie node r, read at offset o.
  predicate NodeAt(d: seq<Byte>, o: nat, r: Rec)
    requires r.Bt?
  {
    && o + 20 + |r.name| <= |d|
    && U32At(d, o) == |r.name|
    && d[o + 20..o + 20 + |r.name|] == r.name
    && U32At(d, o + 4) == r.prop
    && U32At(d, o + 8) == r.left
    && U32At(d, o + 12) == r.right
    && U32At(d, o + 16) == r.children
  }

  lemma BtFields(d: seq<Byte>, o: nat, r: Rec)
    requires r.Bt? && At(d, o, r)
    ensures NodeAt(d, o, r)
  {
    hide BtHead, NameBytes, Le, LeNat, U32At;
    var head := BtHead(|r.name|, r.prop, r.left, r.right, r.children);
    var names := NameBytes(r.name);
    var n := Size(r);
    assert Enc(r)[0..BT_SIZE] == head && Enc(r)[BT_SIZE..n] == names;
    SubSlice(d, o, n, 0, BT_SIZE);
    SubSlice(d, o, n, BT_SIZE, n);
    HeadFields(d, o, r);
    assert names[0..|r.name|] == r.name;
    SubSlice(d, o + BT_SIZE, |names|, 0, |r.name|);
  }

  lemma HeadFields(d: seq<Byte>, o: nat, r: Rec)
    requires r.Bt? && Fits(r) && o + BT_SIZE <= |d|
    requires d[o..o + BT_SIZE] == BtHead(|r.name|, r.prop, r.left, r.right, r.children)
    ensures U32At(d, o) == |r.name|
    ensures U32At(d, o + Offset(Prop)) == r.prop && U32At(d, o + Offset(Left)) == r.left
    ensures U32At(d, o + Offset(Right)) == r.right && U32At(d, o + Offset(Children)) == r.children
  {
    SubSlice(d, o, 20, 0, 4);
    SubSlice(d, o, 20, 4, 8);
    SubSlice(d, o, 20, 8, 12);
    SubSlice(d, o, 20, 12, 16);
    SubSlice(d, o, 20, 16, 20);
    U32Read(d, o, |r.name|);
    U32Read(d, o + 4, r.prop);
    U32Read(d, o + 8, r.left);
    U32Read(d, o + 12, r.right);
    U32Read(d, o + 16, r.children);
  }

  ghost predicate Reads(d: seq<Byte>, h: Heap)
  {
    forall o {:trigger NodeAt(d, o, h[o])} :: o in h && h[o].Bt? ==> NodeAt(d, o, h[o])
  }

  lemma HoldsReads(d: seq<Byte>, h: Heap)
    requires Holds(d, h)
    ensures Reads(d, h)
  {
    forall o | o in h && h[o].Bt?
      ensures NodeAt(d, o, h[o])
    {
      assert At(d, o, h[o]);
      BtFields(d, o, h[o]);
    }
  }

  // Bytes from o up to the first NUL: how a C reader sees a string.
  function CStr(d: seq<Byte>, o: nat): (s: seq<Byte>)
    decreases |d| - o
  {
    if o >= |d| || d[o] == 0 then [] else [d[o]] + CStr(d, o + 1)
  }

  // v up to its first NUL.
  function UpToNul(v: seq<Byte>): (s: seq<Byte>)
  {
    if v == [] || v[0] == 0 then [] else [v[0]] + UpToNul(v[1..])
  }

  lemma {:induction false} UpToNulIsIdentity(v: seq<Byte>)
    ensures UpToNul(v) == v <==> 0 !in v
  {
    if v != [] {
      UpToNulIsIdentity(v[1..]);
      assert v == [v[0]] + v[1..];
      if v[0] != 0 && UpToNul(v) == v {
        assert UpToNul(v)[1..] == UpToNul(v[1..]);
      }
    }
  }

  lemma {:induction false} CStrReads(d: seq<Byte>, o: nat, v: seq<Byte>)
    requires o + |v| + 1 <= |d| && d[o..o + |v|] == v && d[o + |v|] == 0
    ensures CStr(d, o) == UpToNul(v)
    decreases v
  {
    if v != [] {
      assert d[o] == v[0];
      assert d[o + 1..o + 1 + |v[1..]|] == v[1..] by {
        assert d[o..o + |v|][1..] == d[o + 1..o + |v|];
      }
      CStrReads(d, o + 1, v[1..]);
    }
  }

  // What a reader finds in a property: its name, the length its serial states, the text in line and the
  // value.
  datatype Found = Found(name: seq<Byte>, length: nat, inLine: seq<Byte>, value: seq<Byte>)

  // The property at offset o: the serial's long flag says where the value is.
  function ReadInfo(d: seq<Byte>, o: nat): (f: Found)
  {
    if o + INFO_SIZE > |d| then Found([], 0, [], [])
    else
      var serial, inLine := U32At(d, o), CStr(d, o + 4);
      Found(CStr(d, o + 96), serial / 0x100_0000, inLine,
            if serial / 0x1_0000 % 2 == 1 then CStr(d, o + U32At(d, o + 60)) else inLine)
  }

  // What a property of that name and value has to look like. In place of a long value there is a text
  // for readers that do not know of long values, and the length is that of the text.
  function Reading(name: seq<Byte>, value: seq<Byte>): (f: Found)
  {
    if |value| < 92 then Found(UpToNul(name), |value|, UpToNul(value), UpToNul(value))
    else Found(UpToNul(name), |LEGACY_ERROR|, LEGACY_ERROR, UpToNul(value))
  }

  lemma NameTailBytes(r: Rec)
    requires IsInfo(r) && Fits(r)
    ensures Enc(r)[INFO_SIZE..INFO_SIZE + |r.name|] == r.name && Enc(r)[INFO_SIZE + |r.name|] == 0
  {
    hide Le;
    var e, p, n := Enc(r), Padded(r.name + [0]), |r.name|;
    assert e[INFO_SIZE..] == p;
    assert p[..n + 1] == r.name + [0];
    assert p[..n + 1][n] == 0;
    assert e[INFO_SIZE..INFO_SIZE + n] == p[..n + 1][..n];
  }

  lemma ShortBytes(r: Rec)
    requires r.Short? && Fits(r)
    ensures var e := Enc(r);
            && e[0..4] == U32(ShortSerial(|r.value|))
            && e[4..4 + |r.value|] == r.value && e[4 + |r.value|] == 0
  {
  }

  lemma LongBytes(r: Rec)
    requires r.Long? && Fits(r)
    ensures var e := Enc(r);
            && e[0..4] == U32(LONG_SERIAL) && e[60..64] == U32(r.rel)
            && e[4..4 + |LEGACY_ERROR|] == LEGACY_ERROR && e[4 + |LEGACY_ERROR|] == 0
  {
  }

  lemma LegacyText()
    ensures UpToNul(LEGACY_ERROR) == LEGACY_ERROR
  {
    UpToNulIsIdentity(LEGACY_ERROR);
  }

  lemma TextBytes(t: Rec)
    requires t.Text?
    ensures Enc(t)[0..|t.value|] == t.value && Enc(t)[|t.value|] == 0
  {
    assert Enc(t)[..|t.value| + 1] == t.value + [0];
  }

  // A C string lying inside a record.
  lemma RecordCStr(d: seq<Byte>, o: nat, n: nat, e: seq<Byte>, k: nat, v: seq<Byte>)
    requires |e| == n && o + n <= |d| && d[o..o + n] == e
    requires k + |v| < n && e[k..k + |v|] == v && e[k + |v|] == 0
    ensures CStr(d, o + k) == UpToNul(v)
  {
    SubSlice(d, o, n, k, k + |v|);
    assert d[o + k + |v|] == e[k + |v|];
    CStrReads(d, o + k, v);
  }

  lemma ReadShort(d: seq<Byte>, o: nat, r: Rec)
    requires r.Short? && At(d, o, r)
    ensures ReadInfo(d, o) == Reading(r.name, r.value)
  {
    hide Enc, Padded, Zeros, Le, CStr, UpToNul;
    ShortBytes(r);
    NameTailBytes(r);
    SubSlice(d, o, Size(r), 0, 4);
    U32Read(d, o, ShortSerial(|r.value|));
    RecordCStr(d, o, Size(r), Enc(r), 4, r.value);
    RecordCStr(d, o, Size(r), Enc(r), INFO_SIZE, r.name);
  }

  // The texts of a long property's record.
  lemma LongTexts(d: seq<Byte>, o: nat, r: Rec)
    requires r.Long? && At(d, o, r)
    ensures CStr(d, o + 4) == LEGACY_ERROR && CStr(d, o + INFO_SIZE) == UpToNul(r.name)
  {
    hide Enc, Padded, Zeros, Le, CStr, UpToNul;
    LongBytes(r);
    NameTailBytes(r);
    LegacyText();
    RecordCStr(d, o, Size(r), Enc(r), 4, LEGACY_ERROR);
    RecordCStr(d, o, Size(r), Enc(r), INFO_SIZE, r.name);
  }

  lemma LongWords(d: seq<Byte>, o: nat, r: Rec)
    requires r.Long? && At(d, o, r)
    ensures o + INFO_SIZE <= |d| && U32At(d, o) == LONG_SERIAL && U32At(d, o + 60) == r.rel
  {
    hide Enc, Le;
    LongBytes(r);
    SubSlice(d, o, Size(r), 0, 4);
    SubSlice(d, o, Size(r), 60, 64);
    U32Read(d, o, LONG_SERIAL);
    U32Read(d, o + 60, r.rel);
  }

  lemma ReadLong(d: seq<Byte>, o: nat, r: Rec, t: Rec)
    requires r.Long? && At(d, o, r)
    requires t.Text? && At(d, o + r.rel, t) && |t.value| >= VALUE_MAX
    ensures ReadInfo(d, o) == Reading(r.name, t.value)
  {
    hide Enc, CStr, UpToNul, U32At;
    LongWords(d, o, r);
    LongTexts(d, o, r);
    TextBytes(t);
    RecordCStr(d, o + r.rel, Size(t), Enc(t), 0, t.value);
  }

  // ---------- changing the arena ----------

  lemma AtFrame(d: seq<Byte>, d': seq<Byte>, o: nat, r: Rec)
    requires At(d, o, r) && o + Size(r) <= |d'| && d'[o..o + Size(r)] == d[o..o + Size(r)]
    ensures At(d', o, r)
  {
  }

  lemma EncRelink(r: Rec, l: Link, v: nat)
    requires r.Bt? && Fits(r) && v < U32_LIMIT
    ensures Size(Relink(r, l, v)) == Size(r) && Fits(Relink(r, l, v))
    ensures Enc(Relink(r, l, v)) == Put32(Enc(r), Offset(l), v)
  {
    var r' := Relink(r, l, v);
    var head := BtHead(|r.name|, r.prop, r.left, r.right, r.children);
    assert BtHead(|r'.name|, r'.prop, r'.left, r'.right, r'.children) == Put32(head, Offset(l), v);
    PutPrefix(head, NameBytes(r.name), Offset(l), v);
  }

  lemma PutPrefix(a: seq<Byte>, b: seq<Byte>, o: nat, v: nat)
    requires o + 4 <= |a|
    ensures Put32(a + b, o, v) == Put32(a, o, v) + b
  {
  }

  lemma PutInside(d: seq<Byte>, o: nat, n: nat, k: nat, v: nat)
    requires o + n <= |d| && k + 4 <= n
    ensures Put32(d, o + k, v)[o..o + n] == Put32(d[o..o + n], k, v)
  {
    var a, m, c := d[..o], d[o..o + n], d[o + n..];
    assert d == a + m + c;
    SpliceMiddle(a, m, c, k, U32(v));
    hide Splice, Le;
    assert (a + Splice(m, k, U32(v)) + c)[o..o + n] == Splice(m, k, U32(v));
  }

  lemma AtPut(d: seq<Byte>, o: nat, r: Rec, l: Link, v: nat)
    requires r.Bt? && At(d, o, r) && v < U32_LIMIT
    ensures At(Put32(d, o + Offset(l), v), o, Relink(r, l, v))
  {
    hide Enc, Put32, Relink, Fits;
    EncRelink(r, l, v);
    PutInside(d, o, Size(r), Offset(l), v);
  }

  lemma AtPutElsewhere(d: seq<Byte>, at: nat, v: nat, o: nat, r: Rec)
    requires At(d, o, r) && at + 4 <= |d|
    requires at + 4 <= o || o + Size(r) <= at
    ensures At(Put32(d, at, v), o, r)
  {
    hide Enc, Put32, Size, Fits;
    PutOutside(d, at, v, o, Size(r));
  }

  lemma PutOutside(d: seq<Byte>, at: nat, v: nat, o: nat, n: nat)
    requires at + 4 <= |d| && o + n <= |d| && (at + 4 <= o || o + n <= at)
    ensures Put32(d, at, v)[o..o + n] == d[o..o + n]
  {
    var a, b := Put32(d, at, v)[o..o + n], d[o..o + n];
    assert |a| == |b| && forall i :: 0 <= i < |a| ==> a[i] == b[i];
  }

  // Writing a link word of one node changes that link and nothing else.
  lemma HoldsPut(d: seq<Byte>, h: Heap, o: nat, l: Link, v: nat)
    requires Holds(d, h) && o in h && h[o].Bt? && v < U32_LIMIT
    ensures o + Offset(l) + 4 <= |d|
    ensures Holds(Put32(d, o + Offset(l), v), h[o := Relink(h[o], l, v)])
  {
    AtPut(d, o, h[o], l, v);
    var d' := Put32(d, o + Offset(l), v);
    var h' := h[o := Relink(h[o], l, v)];
    forall p | p in h'
      ensures At(d', p, h'[p])
    {
      if p != o {
        assert h'[p] == h[p];
        AtPutElsewhere(d, o + Offset(l), v, p, h[p]);
      }
    }
    forall a, b | a in h' && b in h' && a < b
      ensures a + Size(h'[a]) <= b
    {
      assert Size(h'[a]) == Size(h[a]);
    }
  }

  // Appending a record to the arena.
  lemma HoldsAppend(d: seq<Byte>, h: Heap, r: Rec)
    requires Holds(d, h) && |d| % 4 == 0 && Fits(r)
    ensures |d| !in h
    ensures Holds(d + Enc(r), h[|d| := r])
  {
    hide Enc, Fits, Size;
    var d' := d + Enc(r);
    var h' := h[|d| := r];
    assert d'[|d|..|d| + Size(r)] == Enc(r);
    forall p | p in h
      ensures p + Size(h[p]) <= |d| && At(d', p, h[p])
    {
      assert At(d, p, h[p]);
      assert d'[p..p + Size(h[p])] == d[p..p + Size(h[p])];
    }
  }
}
