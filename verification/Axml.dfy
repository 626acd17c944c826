// Android binary XML: its elements, its chunks as bytes, and what a chunk does to the parser's
// state (crates/aro-apk/src/axml.rs).
module Axml {
  import opened Bytes
  import opened Unicode

  const STRING_POOL: nat := 0x0001
  const XML: nat := 0x0003
  const START_ELEMENT: nat := 0x0102
  const END_ELEMENT: nat := 0x0103
  const RESOURCE_MAP: nat := 0x0180

  const TYPE_REFERENCE: Byte := 0x01
  const TYPE_STRING: Byte := 0x03
  const TYPE_INT_DEC: Byte := 0x10
  const TYPE_INT_HEX: Byte := 0x11
  const TYPE_INT_BOOLEAN: Byte := 0x12

  const UTF8_FLAG: nat := 0x100

  datatype Value = Str(s: string) | Reference(id: nat) | Int(v: I32) | Bool(b: bool) | Other(ty: Byte, data: nat)

  datatype Attribute = Attribute(name: string, resId: nat, value: Value)

  datatype Element = Element(name: string, attrs: seq<Attribute>, children: seq<Element>)

  // ---------- chunks ----------

  // An attribute record of a start-element chunk.
  datatype AttrRec = AttrRec(ns: nat, name: nat, raw: nat, dataType: Byte, data: nat)

  // Line, comment and namespace words of an element chunk.
  datatype Meta = Meta(line: nat, comment: nat, ns: nat)

  datatype Chunk =
    | Pool(utf8: bool, strings: seq<string>)
    | ResMap(ids: seq<nat>)
    | Start(meta: Meta, name: nat, attrs: seq<AttrRec>)
    | End(meta: Meta, name: nat)
    | Skipped(ty: nat, headerSize: nat, body: seq<Byte>)

  function Header(ty: nat, headerSize: nat, size: nat): (h: seq<Byte>)
    ensures |h| == 8
  {
    U16(ty) + (U16(headerSize) + U32(size))
  }

  // One- and two-unit lengths of the string pool.
  function Len8(n: nat): (e: seq<Byte>)
    requires n < 0x8000
  {
    if n < 0x80 then [n] else [0x80 + n / 0x100, n % 0x100]
  }

  function Len16(n: nat): (e: seq<Byte>)
    requires n < 0x8000_0000
  {
    if n < 0x8000 then U16(n) else U16(0x8000 + n / U16_LIMIT) + U16(n % U16_LIMIT)
  }

  predicate StringFits(utf8: bool, s: string)
  {
    if utf8 then |Utf8(s)| < 0x8000 && |Utf16(s)| < 0x8000 else |Utf16(s)| < 0x8000_0000
  }

  function EncString(utf8: bool, s: string): (e: seq<Byte>)
    requires StringFits(utf8, s)
    ensures |e| > 0
  {
    if utf8 then Len8(|Utf16(s)|) + (Len8(|Utf8(s)|) + (Utf8(s) + [0]))
    else Len16(|Utf16(s)|) + (UnitBytes(Utf16(s)) + [0, 0])
  }

  ghost predicate StringsFit(utf8: bool, strings: seq<string>)
  {
    forall i :: 0 <= i < |strings| ==> StringFits(utf8, strings[i])
  }

  ghost function EncStrings(utf8: bool, strings: seq<string>): (e: seq<Byte>)
    requires StringsFit(utf8, strings)
  {
    if strings == [] then [] else EncString(utf8, strings[0]) + EncStrings(utf8, strings[1..])
  }

  // The offset table: where each string starts, the first at base.
  ghost function EncOffsets(utf8: bool, strings: seq<string>, base: nat): (e: seq<Byte>)
    requires StringsFit(utf8, strings)
    ensures |e| == 4 * |strings|
    decreases strings
  {
    if strings == [] then []
    else U32(base) + EncOffsets(utf8, strings[1..], base + |EncString(utf8, strings[0])|)
  }

  ghost function EncPool(utf8: bool, strings: seq<string>): (e: seq<Byte>)
    requires StringsFit(utf8, strings)
  {
    var start := 28 + 4 * |strings|;
    var body := Padded(EncStrings(utf8, strings));
    Header(0x0001, 28, start + |body|)
    + (U32(|strings|) + (U32(0) + (U32(if utf8 then 0x100 else 0) + (U32(start) + (U32(0)
    + (EncOffsets(utf8, strings, 0) + body))))))
  }

  ghost function EncIds(ids: seq<nat>): (e: seq<Byte>)
    ensures |e| == 4 * |ids|
  {
    if ids == [] then [] else U32(ids[0]) + EncIds(ids[1..])
  }

  ghost function EncAttr(a: AttrRec): (e: seq<Byte>)
    ensures |e| == 20
  {
    U32(a.ns) + (U32(a.name) + (U32(a.raw) + (U16(8) + ([0, a.dataType] + U32(a.data)))))
  }

  ghost function EncAttrs(attrs: seq<AttrRec>): (e: seq<Byte>)
    ensures |e| == 20 * |attrs|
  {
    if attrs == [] then [] else EncAttr(attrs[0]) + EncAttrs(attrs[1..])
  }

  ghost function EncMeta(m: Meta): (e: seq<Byte>)
    ensures |e| == 12
  {
    U32(m.line) + (U32(m.comment) + U32(m.ns))
  }

  ghost function EncStart(meta: Meta, name: nat, attrs: seq<AttrRec>): (e: seq<Byte>)
    ensures |e| == 36 + 20 * |attrs|
  {
    Header(0x0102, 16, 36 + 20 * |attrs|)
    + (EncMeta(meta) + (U32(name) + (U16(20) + (U16(20) + (U16(|attrs|) + ([0, 0, 0, 0, 0, 0] + EncAttrs(attrs)))))))
  }

  // Every number fits its field; a skipped chunk is of a type the parser does not interpret, such as
  // a namespace.
  ghost predicate ChunkFits(c: Chunk)
  {
    match c
    case Pool(utf8, strings) =>
      StringsFit(utf8, strings) && |EncPool(utf8, strings)| < U32_LIMIT
    case ResMap(ids) =>
      8 + 4 * |ids| < U32_LIMIT && forall i :: 0 <= i < |ids| ==> ids[i] < U32_LIMIT
    case Start(meta, name, attrs) =>
      && name < U32_LIMIT && |attrs| < U16_LIMIT
      && forall i :: 0 <= i < |attrs| ==> AttrFits(attrs[i])
    case End(_, _) => true
    case Skipped(ty, _, body) =>
      && ty < U16_LIMIT && 8 + |body| < U32_LIMIT
      && ty !in {STRING_POOL, START_ELEMENT, END_ELEMENT, RESOURCE_MAP}
  }

  predicate AttrFits(a: AttrRec)
  {
    a.name < U32_LIMIT && a.raw < U32_LIMIT && a.data < U32_LIMIT
  }

  ghost function Enc(c: Chunk): (e: seq<Byte>)
    requires ChunkFits(c)
  {
    match c
    case Pool(utf8, strings) => EncPool(utf8, strings)
    case ResMap(ids) => Header(0x0180, 8, 8 + 4 * |ids|) + EncIds(ids)
    case Start(meta, name, attrs) => EncStart(meta, name, attrs)
    case End(meta, name) => Header(0x0103, 16, 24) + (EncMeta(meta) + U32(name))
    case Skipped(ty, headerSize, body) => Header(ty, headerSize, 8 + |body|) + body
  }

  ghost predicate AllFit(chunks: seq<Chunk>)
  {
    forall i :: 0 <= i < |chunks| ==> ChunkFits(chunks[i])
  }

  ghost function EncAll(chunks: seq<Chunk>): (e: seq<Byte>)
    requires AllFit(chunks)
  {
    if chunks == [] then [] else Enc(chunks[0]) + EncAll(chunks[1..])
  }

  // A whole document.
  ghost function EncDoc(chunks: seq<Chunk>): (e: seq<Byte>)
    requires AllFit(chunks)
  {
    Header(0x0003, 8, 8 + |EncAll(chunks)|) + EncAll(chunks)
  }

  // ---------- what a chunk does ----------

  datatype State = State(strings: seq<string>, resMap: seq<nat>, stack: seq<Element>)

  function StringAt(strings: seq<string>, i: nat): string
  {
    if i < |strings| then strings[i] else ""
  }

  function ValueOf(strings: seq<string>, raw: nat, dataType: Byte, data: nat): Value
    requires data < U32_LIMIT
  {
    if dataType == TYPE_STRING then
      Str(if data < |strings| then strings[data] else StringAt(strings, raw))
    else if dataType == TYPE_REFERENCE then Reference(data)
    else if dataType == TYPE_INT_DEC || dataType == TYPE_INT_HEX then Int(Signed32(data))
    else if dataType == TYPE_INT_BOOLEAN then Bool(data != 0)
    else Other(dataType, data)
  }

  function AttributeOf(strings: seq<string>, resMap: seq<nat>, a: AttrRec): Attribute
    requires AttrFits(a)
  {
    Attribute(StringAt(strings, a.name), if a.name < |resMap| then resMap[a.name] else 0,
              ValueOf(strings, a.raw, a.dataType, a.data))
  }

  function AttributesOf(strings: seq<string>, resMap: seq<nat>, attrs: seq<AttrRec>): (r: seq<Attribute>)
    requires forall i :: 0 <= i < |attrs| ==> AttrFits(attrs[i])
    ensures |r| == |attrs|
  {
    seq(|attrs|, i requires 0 <= i < |attrs| => AttributeOf(strings, resMap, attrs[i]))
  }

  // ---------- what a record stands for ----------

  // An index names its string; one behind the end of the pool names the empty string.
  predicate Names(strings: seq<string>, i: nat, s: string)
  {
    if i < |strings| then strings[i] == s else s == ""
  }

  predicate IdIs(resMap: seq<nat>, i: nat, id: nat)
  {
    if i < |resMap| then resMap[i] == id else id == 0
  }

  // A string falls back to the raw index; integers are decimal or hexadecimal; any word but 0 is true.
  predicate ValueStands(strings: seq<string>, a: AttrRec, v: Value)
  {
    match v
    case Str(s) => a.dataType == 0x03 && if a.data < |strings| then strings[a.data] == s else Names(strings, a.raw, s)
    case Reference(id) => a.dataType == 0x01 && a.data == id
    case Int(i) => (a.dataType == 0x10 || a.dataType == 0x11) && (a.data == i || a.data == i + 0x1_0000_0000)
    case Bool(b) => a.dataType == 0x12 && (b <==> a.data != 0)
    case Other(ty, data) => a.dataType == ty && a.data == data && ty !in {0x01, 0x03, 0x10, 0x11, 0x12}
  }

  predicate AttrStands(strings: seq<string>, resMap: seq<nat>, a: AttrRec, x: Attribute)
  {
    Names(strings, a.name, x.name) && IdIs(resMap, a.name, x.resId) && ValueStands(strings, a, x.value)
  }

  // A record stands for exactly one attribute, the one it is read as.
  lemma AttributeIff(strings: seq<string>, resMap: seq<nat>, a: AttrRec, x: Attribute)
    requires AttrFits(a)
    ensures AttrStands(strings, resMap, a, x) <==> x == AttributeOf(strings, resMap, a)
  {
  }

  ghost predicate AttrsStand(strings: seq<string>, resMap: seq<nat>, recs: seq<AttrRec>, attrs: seq<Attribute>)
  {
    |attrs| == |recs| && forall i :: 0 <= i < |recs| ==> AttrStands(strings, resMap, recs[i], attrs[i])
  }

  lemma AttributesIff(strings: seq<string>, resMap: seq<nat>, recs: seq<AttrRec>, attrs: seq<Attribute>)
    requires forall i :: 0 <= i < |recs| ==> AttrFits(recs[i])
    ensures AttrsStand(strings, resMap, recs, attrs) <==> attrs == AttributesOf(strings, resMap, recs)
  {
    hide AttrStands, AttributeOf;
    if |attrs| == |recs| {
      forall i | 0 <= i < |recs|
        ensures AttrStands(strings, resMap, recs[i], attrs[i]) <==> attrs[i] == AttributeOf(strings, resMap, recs[i])
      {
        AttributeIff(strings, resMap, recs[i], attrs[i]);
      }
    }
  }

  function Pop(stack: seq<Element>): (r: seq<Element>)
  {
    var n := |stack|;
    if n <= 1 then stack
    else
      var parent := stack[n - 2];
      stack[..n - 2] + [parent.(children := parent.children + [stack[n - 1]])]
  }

  ghost function Step(st: State, c: Chunk): State
    requires ChunkFits(c)
  {
    match c
    case Pool(_, strings) => st.(strings := strings)
    case ResMap(ids) => st.(resMap := ids)
    case Start(_, name, attrs) =>
      st.(stack := st.stack + [Element(StringAt(st.strings, name), AttributesOf(st.strings, st.resMap, attrs), [])])
    case End(_, _) => st.(stack := Pop(st.stack))
    case Skipped(_, _, _) => st
  }

  ghost function Run(st: State, chunks: seq<Chunk>): State
    requires AllFit(chunks)
    decreases chunks
  {
    if chunks == [] then st else Run(Step(st, chunks[0]), chunks[1..])
  }

  const ROOT: Element := Element("<root>", [], [])

  const INIT: State := State([], [], [ROOT])

  // The parser's result: the only child of the synthetic root, or the root itself.
  function Finish(stack: seq<Element>): (e: Element)
  {
    if stack == [] then ROOT
    else if |stack[0].children| == 1 then stack[0].children[0] else stack[0]
  }

  lemma {:induction false} RunAppend(st: State, a: seq<Chunk>, b: seq<Chunk>)
    requires AllFit(a) && AllFit(b)
    ensures AllFit(a + b) && Run(st, a + b) == Run(Run(st, a), b)
    decreases a
  {
    if a == [] {
      assert a + b == b;
    } else {
      assert (a + b)[0] == a[0] && (a + b)[1..] == a[1..] + b;
      RunAppend(Step(st, a[0]), a[1..], b);
    }
  }

  lemma {:induction false} EncAllAppend(a: seq<Chunk>, b: seq<Chunk>)
    requires AllFit(a) && AllFit(b)
    ensures AllFit(a + b) && EncAll(a + b) == EncAll(a) + EncAll(b)
  {
    hide Enc, ChunkFits;
    if a == [] {
      assert a + b == b;
    } else {
      assert (a + b)[0] == a[0] && (a + b)[1..] == a[1..] + b;
      EncAllAppend(a[1..], b);
    }
  }
}
