// The CursorWindow layout (crates/arod/src/services/cursor.rs): a string heap growing forwards, then
// 16-byte field slots filled from the end backwards.
module CursorWindow {
  import opened Bytes
  import opened Unicode
  import opened Parcels

  const SLOT: nat := 16
  const INLINE_LIMIT: nat := 16384

  // A float is carried as its bit pattern.
  datatype Cell = Null | Integer(v: I64) | Float(bits: nat) | Text(s: string)

  predicate CellOk(c: Cell)
  {
    c.Float? ==> c.bits < U64_LIMIT
  }

  function CellAt(row: seq<Cell>, c: nat): Cell
  {
    if c < |row| then row[c] else Null
  }

  // The first n cells of a row; missing ones are Null, surplus ones are dropped.
  function RowCells(row: seq<Cell>, n: nat): (cells: seq<Cell>)
    ensures |cells| == n
  {
    seq(n, c requires 0 <= c < n => CellAt(row, c))
  }

  function Flat(rows: seq<seq<Cell>>, cols: nat): (cells: seq<Cell>)
    ensures |cells| == |rows| * cols
  {
    if rows == [] then []
    else
      assert (|rows| - 1) * cols + cols == |rows| * cols;
      Flat(rows[..|rows| - 1], cols) + RowCells(rows[|rows| - 1], cols)
  }

  // The field number of cell c of row r.
  function Field(cols: nat, r: nat, c: nat): (k: nat)
    ensures k >= c
  {
    r * cols + c
  }

  lemma {:induction false} FlatAt(rows: seq<seq<Cell>>, cols: nat, r: nat, c: nat)
    requires r < |rows| && c < cols
    ensures Field(cols, r, c) < |rows| * cols
    ensures Flat(rows, cols)[Field(cols, r, c)] == CellAt(rows[r], c)
    decreases |rows|
  {
    var n := |rows| - 1;
    assert n * cols + cols == |rows| * cols;
    if r < n {
      FlatAt(rows[..n], cols, r, c);
    }
  }

  // ---------- the bytes ----------

  function StringBytes(c: Cell): (b: seq<Byte>)
    ensures |b| % 4 == 0
  {
    if c.Text? then Padded(Utf8(c.s) + [0]) else []
  }

  function Heap(cells: seq<Cell>): (b: seq<Byte>)
    ensures |b| % 4 == 0
  {
    if cells == [] then []
    else
      var before, last := Heap(cells[..|cells| - 1]), StringBytes(cells[|cells| - 1]);
      FourthsAdd(|before|, |last|);
      before + last
  }

  // The slot of a cell whose string, if any, starts at off in the heap.
  function SlotOf(c: Cell, off: nat): (b: seq<Byte>)
    requires CellOk(c)
    ensures |b| == SLOT
  {
    match c
    case Null => U32(0) + Zeros(12)
    case Integer(v) => U32(1) + (U64(Unsigned64(v)) + Zeros(4))
    case Float(bits) => U32(2) + (U64(bits) + Zeros(4))
    case Text(s) => U32(3) + (U32(off) + (U32(|Utf8(s)| + 1) + Zeros(4)))
  }

  ghost predicate CellsOk(cells: seq<Cell>)
  {
    forall i :: 0 <= i < |cells| ==> CellOk(cells[i])
  }

  // The slots of all cells, the last cell's first.
  ghost function Slots(cells: seq<Cell>): (b: seq<Byte>)
    requires CellsOk(cells)
    ensures |b| == SLOT * |cells|
  {
    if cells == [] then []
    else
      var n := |cells| - 1;
      SlotOf(cells[n], |Heap(cells[..n])|) + Slots(cells[..n])
  }

  ghost function Window(cells: seq<Cell>): (w: seq<Byte>)
    requires CellsOk(cells)
    ensures |w| == |Heap(cells)| + SLOT * |cells|
  {
    Heap(cells) + Slots(cells)
  }

  // ---------- the reader ----------

  // Field i: its slot lies 16 * (i + 1) bytes before the end.
  function ReadCell(w: seq<Byte>, i: nat): (c: Option<Cell>)
  {
    if SLOT * (i + 1) > |w| then None
    else
      var o := |w| - SLOT * (i + 1);
      var ty := U32At(w, o);
      if ty == 0 then Some(Null)
      else if ty == 1 then Some(Integer(Signed64(U64At(w, o + 4))))
      else if ty == 2 then Some(Float(U64At(w, o + 4)))
      else if ty == 3 then
        var (off, size) := (U32At(w, o + 4), U32At(w, o + 8));
        if size == 0 || off + size > |w| || w[off + size - 1] != 0 then None
        else Some(Text(FromUtf8(w[off..off + size - 1])))
      else None
  }

  lemma {:induction false} HeapPrefix(cells: seq<Cell>, i: nat)
    requires i < |cells|
    ensures |Heap(cells[..i])| + |StringBytes(cells[i])| <= |Heap(cells)|
    ensures Sits(Heap(cells), |Heap(cells[..i])|, StringBytes(cells[i]))
    decreases |cells|
  {
    hide StringBytes;
    var n := |cells| - 1;
    if i < n {
      HeapPrefix(cells[..n], i);
      assert cells[..n][..i] == cells[..i];
    }
  }

  lemma {:induction false} SlotSits(cells: seq<Cell>, i: nat)
    requires CellsOk(cells) && i < |cells|
    ensures CellOk(cells[i])
    ensures Sits(Slots(cells), SLOT * (|cells| - i - 1), SlotOf(cells[i], |Heap(cells[..i])|))
    decreases |cells|
  {
    hide SlotOf, Heap;
    var n := |cells| - 1;
    if i < n {
      SlotSits(cells[..n], i);
      assert cells[..n][..i] == cells[..i];
    }
  }

  lemma SlotWords(w: seq<Byte>, o: nat, c: Cell, off: nat)
    requires CellOk(c) && Sits(w, o, SlotOf(c, off))
    ensures o + SLOT <= |w|
    ensures match c
            case Null => U32At(w, o) == 0
            case Integer(v) => U32At(w, o) == 1 && U64At(w, o + 4) == Unsigned64(v)
            case Float(bits) => U32At(w, o) == 2 && U64At(w, o + 4) == bits
            case Text(s) =>
              && U32At(w, o) == 3
              && (off < U32_LIMIT ==> U32At(w, o + 4) == off)
              && (|Utf8(s)| + 1 < U32_LIMIT ==> U32At(w, o + 8) == |Utf8(s)| + 1)
  {
    hide Le, LeNat, Zeros, Utf8;
    match c
    case Null =>
      SitsSplit(w, o, U32(0), Zeros(12));
      U32Read(w, o, 0);
    case Integer(v) =>
      SitsSplit(w, o, U32(1), U64(Unsigned64(v)) + Zeros(4));
      SitsSplit(w, o + 4, U64(Unsigned64(v)), Zeros(4));
      U32Read(w, o, 1);
      U64Read(w, o + 4, Unsigned64(v));
    case Float(bits) =>
      SitsSplit(w, o, U32(2), U64(bits) + Zeros(4));
      SitsSplit(w, o + 4, U64(bits), Zeros(4));
      U32Read(w, o, 2);
      U64Read(w, o + 4, bits);
    case Text(s) =>
      var n := |Utf8(s)| + 1;
      SitsSplit(w, o, U32(3), U32(off) + (U32(n) + Zeros(4)));
      SitsSplit(w, o + 4, U32(off), U32(n) + Zeros(4));
      SitsSplit(w, o + 8, U32(n), Zeros(4));
      U32Read(w, o, 3);
      if off < U32_LIMIT {
        U32Read(w, o + 4, off);
      }
      if n < U32_LIMIT {
        U32Read(w, o + 8, n);
      }
  }

  // A string whose place and size fit the words of its slot; other cells need none.
  predicate InReach(cells: seq<Cell>, i: nat)
    requires i < |cells|
  {
    cells[i].Text? ==> |Heap(cells[..i])| < U32_LIMIT && |Utf8(cells[i].s)| + 1 < U32_LIMIT
  }

  // The slot of a string names its place and size exactly when they fit.
  lemma SlotNamesIff(cells: seq<Cell>, i: nat)
    requires CellsOk(cells) && i < |cells| && cells[i].Text?
    ensures SLOT * (i + 1) <= |Window(cells)|
    ensures var w, o := Window(cells), |Window(cells)| - SLOT * (i + 1);
            (U32At(w, o + 4) == |Heap(cells[..i])| && U32At(w, o + 8) == |Utf8(cells[i].s)| + 1) <==> InReach(cells, i)
  {
    hide SlotOf, U32At, Heap, Slots, StringBytes, Sits, Utf8;
    var w, o := Window(cells), |Window(cells)| - SLOT * (i + 1);
    SlotSits(cells, i);
    SitsBehind(Heap(cells), Slots(cells), SLOT * (|cells| - i - 1), SlotOf(cells[i], |Heap(cells[..i])|));
    SlotWords(w, o, cells[i], |Heap(cells[..i])|);
  }

  lemma {:induction false} Utf8Repeated(n: nat)
    ensures Utf8(seq(n, _ => 'a')) == seq(n, _ => 97)
  {
    if n > 0 {
      Utf8Repeated(n - 1);
      assert seq(n, _ => 'a')[1..] == seq(n - 1, _ => 'a');
      assert Utf8Char('a') == [97];
    }
  }

  // A string whose bytes fill 4 GiB together with their NUL.
  function Long(): (s: string)
    ensures |s| == U32_LIMIT - 1
  {
    seq(U32_LIMIT - 1, _ => 'a')
  }

  // Behind a string of 4 GiB the next one is out of reach: its slot leads to the start of the first.
  lemma OutOfReachExample()
    ensures var cells := [Text(Long()), Text("b")];
            CellsOk(cells) && !InReach(cells, 1) && ReadCell(Window(cells), 1) == None
  {
    hide Sits, U32At, Slots, Heap, StringBytes, Le, Utf8, Long;
    var cells := [Text(Long()), Text("b")];
    var w, o := Window(cells), |Window(cells)| - 32;
    LongHeap();
    assert cells[..1] == [Text(Long())];
    SlotSits(cells, 1);
    SitsBehind(Heap(cells), Slots(cells), 0, SlotOf(cells[1], U32_LIMIT));
    SlotWords(w, o, cells[1], U32_LIMIT);
    SitsSplit(w, o, U32(3), U32(U32_LIMIT) + (U32(2) + Zeros(4)));
    SitsSplit(w, o + 4, U32(U32_LIMIT), U32(2) + Zeros(4));
    WrappedWord();
    SitsRead32(w, o + 4, 0);
    LongStart();
  }

  lemma WrappedWord()
    ensures U32(U32_LIMIT) == U32(0)
  {
  }

  lemma LongHeap()
    ensures |Utf8(Long())| == U32_LIMIT - 1 && |Heap([Text(Long())])| == U32_LIMIT && |Utf8("b")| == 1
  {
    hide Utf8;
    Utf8Repeated(U32_LIMIT - 1);
    ShortUtf8();
    assert [Text(Long())][..0] == [];
  }

  lemma ShortUtf8()
    ensures |Utf8("b")| == 1
  {
    assert "b"[1..] == "";
  }

  // The second byte of the heap belongs to the long string.
  lemma LongStart()
    ensures var cells := [Text(Long()), Text("b")];
            CellsOk(cells) && |Window(cells)| > 1 && Window(cells)[1] == 97
  {
    hide Slots, Utf8;
    var cells := [Text(Long()), Text("b")];
    Utf8Repeated(U32_LIMIT - 1);
    HeapPrefix(cells, 0);
    assert cells[..0] == [];
    var b := Utf8(cells[0].s) + [0];
    assert Padded(b)[1] == b[1] == 97;
    assert Heap(cells)[0..|Padded(b)|] == Padded(b);
  }

  // Every field of a window reads back as its cell, as long as its own string is in reach.
  lemma WindowReads(cells: seq<Cell>, i: nat)
    requires CellsOk(cells) && i < |cells| && InReach(cells, i)
    ensures ReadCell(Window(cells), i) == Some(cells[i])
  {
    hide SlotOf, U32At, U64At, Heap, Slots, StringBytes, Sits, Utf8, FromUtf8;
    var w, heap, off := Window(cells), Heap(cells), |Heap(cells[..i])|;
    var o := |w| - SLOT * (i + 1);
    SlotSits(cells, i);
    HeapPrefix(cells, i);
    SitsBehind(heap, Slots(cells), SLOT * (|cells| - i - 1), SlotOf(cells[i], off));
    SlotWords(w, o, cells[i], off);
    if cells[i].Text? {
      StringReads(heap, Slots(cells), off, cells[i].s);
    }
  }

  // A string of the heap, found by offset and size.
  lemma StringReads(heap: seq<Byte>, slots: seq<Byte>, off: nat, s: string)
    requires Sits(heap, off, StringBytes(Text(s)))
    ensures var w, n := heap + slots, |Utf8(s)|;
            off + n + 1 <= |heap| && w[off + n] == 0 && FromUtf8(w[off..off + n]) == s
  {
    hide Utf8, DecodeUtf8;
    var b, p := Utf8(s), Padded(Utf8(s) + [0]);
    assert p[..|b| + 1] == b + [0];
    assert p[..|b| + 1][..|b|] == b && p[|b|] == (b + [0])[|b|];
    SubSlice(heap, off, |p|, 0, |b|);
    assert heap[off + |b|] == p[|b|];
    assert (heap + slots)[off..off + |b|] == heap[off..off + |b|];
    assert p[0..|b|] == p[..|b| + 1][..|b|];
    Utf8RoundTrip(s);
  }

  // Strings lie in the heap, 4-aligned and apart from each other and from the slots.
  lemma StringsApart(cells: seq<Cell>, i: nat, j: nat)
    requires i < j < |cells| && cells[i].Text? && cells[j].Text?
    ensures var a, b := |Heap(cells[..i])|, |Heap(cells[..j])|;
            && a % 4 == 0 && b % 4 == 0
            && a + |Utf8(cells[i].s)| + 1 <= b && b + |Utf8(cells[j].s)| + 1 <= |Heap(cells)|
  {
    HeapPrefix(cells[..j], i);
    assert cells[..j][..i] == cells[..i];
    HeapPrefix(cells, j);
  }

  // ---------- the builder ----------

  // What goes into the parcel before the window's own bytes.
  function EncPreamble(name: string, rows: nat, cols: nat): seq<Byte>
  {
    EncI32(0) + EncString8(Some(name)) + U32(rows) + U32(cols)
  }

  // What a reader finds in front of a window: the start position, the name, rows and columns, the size
  // of the window, and whether it lies in shared memory.
  datatype Header = Header(start: I32, name: Option<string>, rows: nat, cols: nat, size: nat, shared: I32)

  function GetHeader(d: seq<Byte>, p: nat): (r: Read<Header>)
  {
    var (start, p) :- GetI32(d, p);
    var (name, p) :- GetString8(d, p);
    var (rows, p) :- GetU32(d, p);
    var (cols, p) :- GetU32(d, p);
    var (size, p) :- GetU32(d, p);
    var (shared, p) :- GetI32(d, p);
    Ok((Header(start, name, rows, cols, size, shared), p))
  }

  lemma HeaderReads(d: seq<Byte>, p: nat, name: string, rows: nat, cols: nat, size: nat, shared: I32)
    requires Sits(d, p, EncPreamble(name, rows, cols) + (U32(size) + EncI32(shared)))
    requires ShortEnough(Some(name)) && rows < U32_LIMIT && cols < U32_LIMIT && size < U32_LIMIT
    ensures GetHeader(d, p) ==
            Ok((Header(0, Some(name), rows, cols, size, shared), p + |EncPreamble(name, rows, cols)| + 8))
  {
    hide EncI32, EncString8, GetI32, GetString8, GetU32, Le, Sits, ShortEnough;
    var z, n, a, b := EncI32(0), EncString8(Some(name)), U32(rows), U32(cols);
    SitsSplit(d, p, z + n + a + b, U32(size) + EncI32(shared));
    SitsSplit(d, p, z + n + a, b);
    SitsSplit(d, p, z + n, a);
    SitsSplit(d, p, z, n);
    var q := p + |z + n + a + b|;
    SitsSplit(d, q, U32(size), EncI32(shared));
    I32RoundTrip(d, p, 0);
    String8RoundTrip(d, p + 4, Some(name));
    WordReads(d, p + 4 + |n|, rows);
    WordReads(d, p + 8 + |n|, cols);
    WordReads(d, q, size);
    I32RoundTrip(d, q + 4, shared);
  }

  lemma WordReads(d: seq<Byte>, p: nat, n: nat)
    requires Sits(d, p, U32(n)) && n < U32_LIMIT
    ensures GetU32(d, p) == Ok((n, p + 4))
  {
    U32Read(d, p, n);
  }

  lemma WriteSlot(z: nat, rest: seq<Byte>, k: nat, s: seq<Byte>)
    requires k + |s| <= SLOT
    ensures Splice(Zeros(z + SLOT) + rest, z + k, s) == Zeros(z) + (Splice(Zeros(SLOT), k, s) + rest)
  {
    assert Zeros(z + SLOT) == Zeros(z) + Zeros(SLOT);
    SpliceMiddle(Zeros(z), Zeros(SLOT), rest, k, s);
    assert Zeros(z) + Zeros(SLOT) + rest == Zeros(z + SLOT) + rest;
    assert Zeros(z) + Splice(Zeros(SLOT), k, s) + rest == Zeros(z) + (Splice(Zeros(SLOT), k, s) + rest);
  }

  class CursorWindowBuilder {
    const name: string
    const columnNames: seq<string>
    var rows: seq<seq<Cell>>

    constructor (name: string, columnNames: seq<string>)
      ensures this.name == name && this.columnNames == columnNames && rows == []
    {
      this.name, this.columnNames, rows := name, columnNames, [];
    }

    method AddRow(row: seq<Cell>)
      modifies this
      ensures rows == old(rows) + [row]
    {
      rows := rows + [row];
    }

    ghost function Cells(): (cells: seq<Cell>)
      reads this
      ensures |cells| == |rows| * |columnNames|
    {
      Flat(rows, |columnNames|)
    }

    // The closure add_string: append s, NUL and padding to the heap.
    static method AddString(heap: seq<Byte>, s: string) returns (heap': seq<Byte>, off: nat, size: nat)
      requires |heap| % 4 == 0
      ensures heap' == heap + StringBytes(Text(s)) && off == |heap| && size == |Utf8(s)| + 1
    {
      hide Utf8;
      off := |heap|;
      var bytes := Utf8(s);
      heap' := heap + bytes + [0];
      size := |bytes| + 1;
      while |heap'| % 4 != 0
        invariant off + size <= |heap'| <= off + Align4(size)
        invariant heap' == heap + (bytes + [0] + Zeros(|heap'| - off - size))
        decreases off + Align4(size) - |heap'|
      {
        heap' := heap' + [0];
      }
    }

    // One round of the cell loop: field k, the first k cells being done.
    static method PutCell(heap: seq<Byte>, slots: seq<Byte>, k: nat, val: Cell, ghost done: seq<Cell>)
        returns (heap': seq<Byte>, slots': seq<Byte>)
      requires CellsOk(done) && CellOk(val) && k == |done| && SLOT * (k + 1) <= |slots|
      requires heap == Heap(done) && slots == Zeros(|slots| - SLOT * k) + Slots(done)
      ensures CellsOk(done + [val]) && |slots'| == |slots|
      ensures heap' == Heap(done + [val]) && slots' == Zeros(|slots| - SLOT * (k + 1)) + Slots(done + [val])
    {
      hide Zeros, Slots, Heap, Le, Splice, Padded, Utf8;
      var slotOffset := |slots| - (k + 1) * SLOT;
      heap' := heap;
      slots' := slots;
      ghost var rest := Slots(done);
      match val {
        case Null =>
          slots' := Splice(slots, slotOffset, U32(0));
          WriteSlot(slotOffset, rest, 0, U32(0));
          NullSlot();
        case Integer(v) =>
          slots' := Splice(Splice(slots, slotOffset, U32(1)), slotOffset + 4, U64(Unsigned64(v)));
          WriteTwo(slotOffset, rest, U32(1), U64(Unsigned64(v)));
        case Float(bits) =>
          slots' := Splice(Splice(slots, slotOffset, U32(2)), slotOffset + 4, U64(bits));
          WriteTwo(slotOffset, rest, U32(2), U64(bits));
        case Text(s) =>
          var (off, size) := (0, 0);
          heap', off, size := AddString(heap, s);
          slots' := Splice(Splice(Splice(slots, slotOffset, U32(3)), slotOffset + 4, U32(off)), slotOffset + 8, U32(size));
          WriteThree(slotOffset, rest, U32(3), U32(off), U32(size));
      }
      assert slots' == Zeros(slotOffset) + (SlotOf(val, |heap|) + rest);
      CellAppended(done, val);
    }

    // The cell loops: the heap and the slots of all rows.
    method Layout() returns (heap: seq<Byte>, slots: seq<Byte>)
      requires CellsOk(Cells())
      ensures heap + slots == Window(Cells()) && |slots| == SLOT * |Cells()|
    {
      hide Zeros, Slots, Heap, Flat, RowCells, CellsOk, Done, DoneCells, Window, Field;
      var numRows := |rows|;
      var numCols := |columnNames|;
      var slotsSize := numRows * numCols * SLOT;
      heap := [];
      slots := Zeros(slotsSize);
      NothingDone(rows, numCols, slotsSize);
      for r := 0 to numRows
        invariant |slots| == slotsSize
        invariant Done(rows, numCols, r, 0, heap, slots)
      {
        var row := rows[r];
        for c := 0 to numCols
          invariant |slots| == slotsSize
          invariant Done(rows, numCols, r, c, heap, slots)
        {
          var val := CellAt(row, c);
          OneMore(rows, numCols, r, c, heap, slots);
          heap, slots := PutCell(heap, slots, Field(numCols, r, c), val, DoneCells(rows, numCols, r, c));
          DoneIs(rows, numCols, r, c + 1, heap, slots);
        }
        NextRow(rows, numCols, r, heap, slots);
      }
      AllDone(rows, numCols, heap, slots);
    }

    method WriteToParcel(p: Parcel) returns (blob: Option<seq<Byte>>)
      requires CellsOk(Cells())
      modifies p`data
      ensures var w, pre := Window(Cells()), EncPreamble(name, |rows|, |columnNames|);
              if |w| <= INLINE_LIMIT then
                blob == None && p.data == old(p.data) + pre + (U32(|w|) + EncI32(0) + w)
              else
                blob == Some(w) && p.data == old(p.data) + pre + (U32(|w|) + EncI32(1))
      // A reader of the parcel finds the header, and behind it or in the shared memory the window.
      ensures var w := Window(Cells());
              ShortEnough(Some(name)) && |rows| < U32_LIMIT && |columnNames| < U32_LIMIT && |w| < U32_LIMIT ==>
                var shared := if |w| <= 16384 then 0 else 1;
                var h := GetHeader(p.data, |old(p.data)|);
                && h.Ok? && h.value.0 == Header(0, Some(name), |rows|, |columnNames|, |w|, shared)
                && h.value.1 <= |p.data|
                && (if shared == 0 then blob == None && p.data[h.value.1..] == w
                    else blob == Some(w) && h.value.1 == |p.data|)
    {
      hide Zeros, Flat, EncString8, EncI32, Le, CellsOk, EncPreamble, Window, Padded, Align4;
      ghost var w := Window(Cells());
      var heap, slots := Layout();
      var compactedSize := |heap| + |slots|;
      var dest := PadToWord(heap + slots);
      // The size was a multiple of four already: padding added nothing.
      WindowAligned(Cells());
      NoPadding(w);
      ghost var pre := p.data;
      WritePreamble(p);
      ghost var head := p.data;
      p.WriteLen(compactedSize);
      if compactedSize <= INLINE_LIMIT {
        p.WriteI32(0);
        p.WriteWords(dest);
        Regroup(head, U32(|w|), EncI32(0), w);
        HeaderFound(pre, name, |rows|, |columnNames|, |w|, 0, w, p.data);
        return None;
      } else {
        p.WriteI32(1);
        Regroup(head, U32(|w|), EncI32(1), []);
        assert p.data == pre + EncPreamble(name, |rows|, |columnNames|) + (U32(|w|) + EncI32(1) + []);
        HeaderFound(pre, name, |rows|, |columnNames|, |w|, 1, [], p.data);
        return Some(dest);
      }
    }

    method WritePreamble(p: Parcel)
      modifies p`data
      ensures p.data == old(p.data) + EncPreamble(name, |rows|, |columnNames|)
    {
      hide EncString8, EncI32, Le, EncPreamble;
      p.WriteI32(0);
      p.WriteString8(Some(name));
      p.WriteLen(|rows|);
      p.WriteLen(|columnNames|);
      Preamble(old(p.data), name, |rows|, |columnNames|);
    }
  }

  lemma HeaderFound(pre: seq<Byte>, name: string, rows: nat, cols: nat, size: nat, shared: I32, rest: seq<Byte>,
                    d: seq<Byte>)
    requires d == pre + EncPreamble(name, rows, cols) + (U32(size) + EncI32(shared) + rest)
    ensures ShortEnough(Some(name)) && rows < U32_LIMIT && cols < U32_LIMIT && size < U32_LIMIT ==>
              var h := GetHeader(d, |pre|);
              && h.Ok? && h.value.0 == Header(0, Some(name), rows, cols, size, shared)
              && h.value.1 <= |d| && d[h.value.1..] == rest
  {
    hide EncI32, GetHeader, EncPreamble, Le, ShortEnough;
    var e := EncPreamble(name, rows, cols) + (U32(size) + EncI32(shared));
    assert d == pre + e + rest;
    assert Sits(d, |pre|, e);
    if ShortEnough(Some(name)) && rows < U32_LIMIT && cols < U32_LIMIT && size < U32_LIMIT {
      HeaderReads(d, |pre|, name, rows, cols, size, shared);
    }
  }

  lemma Regroup(a: seq<Byte>, b: seq<Byte>, c: seq<Byte>, d: seq<Byte>)
    ensures a + b + c + d == a + (b + c + d)
    ensures a + b + c == a + (b + c)
  {
  }

  // Zero bytes up to a multiple of four.
  method PadToWord(bytes: seq<Byte>) returns (padded: seq<Byte>)
    ensures padded == Padded(bytes)
  {
    padded := bytes;
    while |padded| % 4 != 0
      invariant |bytes| <= |padded| <= Align4(|bytes|) && padded == bytes + Zeros(|padded| - |bytes|)
      decreases Align4(|bytes|) - |padded|
    {
      padded := padded + [0];
    }
  }

  lemma NoPadding(b: seq<Byte>)
    requires |b| % 4 == 0
    ensures Padded(b) == b
  {
    assert Align4(|b|) == |b|;
  }

  // ---------- proofs for the builder's loops ----------

  lemma NullSlot()
    ensures Splice(Zeros(SLOT), 0, U32(0)) == SlotOf(Null, 0)
  {
  }

  // The next bytes of a half-written slot.
  lemma FillNext(done: seq<Byte>, next: seq<Byte>, left: nat)
    requires |next| <= left
    ensures Splice(done + Zeros(left), |done|, next) == done + next + Zeros(left - |next|)
  {
  }

  lemma WriteTwo(z: nat, rest: seq<Byte>, a: seq<Byte>, b: seq<Byte>)
    requires |a| == 4 && |b| == 8
    ensures Splice(Splice(Zeros(z + SLOT) + rest, z, a), z + 4, b) == Zeros(z) + (a + (b + Zeros(4)) + rest)
  {
    hide Zeros, Splice;
    var s1 := Splice(Zeros(SLOT), 0, a);
    WriteSlot(z, rest, 0, a);
    assert Zeros(z) + (s1 + rest) == Zeros(z) + s1 + rest;
    SpliceMiddle(Zeros(z), s1, rest, 4, b);
    FillNext([], a, SLOT);
    FillNext(a, b, 12);
    assert [] + Zeros(SLOT) == Zeros(SLOT) && [] + a == a;
    assert Splice(s1, 4, b) == a + (b + Zeros(4));
    assert Zeros(z) + Splice(s1, 4, b) + rest == Zeros(z) + (Splice(s1, 4, b) + rest);
  }

  lemma WriteThree(z: nat, rest: seq<Byte>, a: seq<Byte>, b: seq<Byte>, c: seq<Byte>)
    requires |a| == 4 && |b| == 4 && |c| == 4
    ensures Splice(Splice(Splice(Zeros(z + SLOT) + rest, z, a), z + 4, b), z + 8, c)
            == Zeros(z) + (a + (b + (c + Zeros(4))) + rest)
  {
    hide Zeros, Splice;
    var s1 := Splice(Zeros(SLOT), 0, a);
    WriteSlot(z, rest, 0, a);
    assert Zeros(z) + (s1 + rest) == Zeros(z) + s1 + rest;
    SpliceMiddle(Zeros(z), s1, rest, 4, b);
    var s2 := Splice(s1, 4, b);
    SpliceMiddle(Zeros(z), s2, rest, 8, c);
    FillNext([], a, SLOT);
    FillNext(a, b, 12);
    FillNext(a + b, c, 8);
    assert [] + Zeros(SLOT) == Zeros(SLOT) && [] + a == a;
    assert Splice(s2, 8, c) == a + (b + (c + Zeros(4)));
    assert Zeros(z) + Splice(s2, 8, c) + rest == Zeros(z) + (Splice(s2, 8, c) + rest);
  }

  lemma CellAppended(done: seq<Cell>, val: Cell)
    requires CellsOk(done) && CellOk(val)
    ensures CellsOk(done + [val])
    ensures Heap(done + [val]) == Heap(done) + StringBytes(val)
    ensures Slots(done + [val]) == SlotOf(val, |Heap(done)|) + Slots(done)
  {
    assert (done + [val])[..|done|] == done;
  }

  // The cells written after r rows and c cells of the next.
  ghost function DoneCells(rows: seq<seq<Cell>>, cols: nat, r: nat, c: nat): seq<Cell>
    requires r <= |rows| && c <= cols && (r == |rows| ==> c == 0)
  {
    Flat(rows[..r], cols) + if r < |rows| then RowCells(rows[r], cols)[..c] else []
  }

  ghost predicate Done(rows: seq<seq<Cell>>, cols: nat, r: nat, c: nat, heap: seq<Byte>, slots: seq<Byte>)
    requires r <= |rows| && c <= cols && (r == |rows| ==> c == 0)
  {
    var done := DoneCells(rows, cols, r, c);
    && CellsOk(done) && SLOT * |done| <= |slots|
    && heap == Heap(done) && slots == Zeros(|slots| - SLOT * |done|) + Slots(done)
  }

  lemma NothingDone(rows: seq<seq<Cell>>, cols: nat, size: nat)
    ensures Done(rows, cols, 0, 0, [], Zeros(size))
  {
    assert rows[..0] == [];
    if |rows| > 0 {
      assert RowCells(rows[0], cols)[..0] == [];
    }
    assert DoneCells(rows, cols, 0, 0) == [];
    assert Zeros(size) + [] == Zeros(size);
  }

  lemma OneMoreCell(row: seq<Cell>, c: nat)
    requires c < |row|
    ensures row[..c + 1] == row[..c] + [row[c]]
  {
  }

  lemma Append(a: seq<Cell>, b: seq<Cell>, c: seq<Cell>)
    ensures a + (b + c) == a + b + c
  {
  }

  lemma NextCell(rows: seq<seq<Cell>>, cols: nat, r: nat, c: nat)
    requires r < |rows| && c < cols && CellsOk(Flat(rows, cols))
    ensures |DoneCells(rows, cols, r, c)| == Field(cols, r, c) < |rows| * cols
    ensures CellOk(CellAt(rows[r], c))
    ensures DoneCells(rows, cols, r, c + 1) == DoneCells(rows, cols, r, c) + [CellAt(rows[r], c)]
  {
    hide Flat, CellOk;
    FlatAt(rows, cols, r, c);
    OneMoreCell(RowCells(rows[r], cols), c);
    Append(Flat(rows[..r], cols), RowCells(rows[r], cols)[..c], [CellAt(rows[r], c)]);
  }

  lemma OneMore(rows: seq<seq<Cell>>, cols: nat, r: nat, c: nat, heap: seq<Byte>, slots: seq<Byte>)
    requires r < |rows| && c < cols && CellsOk(Flat(rows, cols))
    requires Done(rows, cols, r, c, heap, slots) && |slots| == |rows| * cols * SLOT
    ensures var done, k := DoneCells(rows, cols, r, c), Field(cols, r, c);
            && CellsOk(done) && CellOk(CellAt(rows[r], c)) && k == |done| && SLOT * (k + 1) <= |slots|
            && heap == Heap(done) && slots == Zeros(|slots| - SLOT * k) + Slots(done)
            && DoneCells(rows, cols, r, c + 1) == done + [CellAt(rows[r], c)]
  {
    hide Heap, Slots, Zeros, Flat, DoneCells, CellsOk, Field;
    NextCell(rows, cols, r, c);
  }

  lemma DoneIs(rows: seq<seq<Cell>>, cols: nat, r: nat, c: nat, heap: seq<Byte>, slots: seq<Byte>)
    requires r < |rows| && c <= cols
    requires var done := DoneCells(rows, cols, r, c);
             && CellsOk(done) && SLOT * |done| <= |slots|
             && heap == Heap(done) && slots == Zeros(|slots| - SLOT * |done|) + Slots(done)
    ensures Done(rows, cols, r, c, heap, slots)
  {
  }

  lemma NextRow(rows: seq<seq<Cell>>, cols: nat, r: nat, heap: seq<Byte>, slots: seq<Byte>)
    requires r < |rows| && Done(rows, cols, r, cols, heap, slots)
    ensures Done(rows, cols, r + 1, 0, heap, slots)
  {
    hide Heap, Slots, CellsOk;
    var row := RowCells(rows[r], cols);
    assert row[..cols] == row;
    assert rows[..r + 1][..r] == rows[..r];
    assert Flat(rows[..r + 1], cols) == Flat(rows[..r], cols) + row;
    if r + 1 < |rows| {
      assert RowCells(rows[r + 1], cols)[..0] == [];
    }
    assert DoneCells(rows, cols, r + 1, 0) == DoneCells(rows, cols, r, cols);
  }

  lemma AllDone(rows: seq<seq<Cell>>, cols: nat, heap: seq<Byte>, slots: seq<Byte>)
    requires Done(rows, cols, |rows|, 0, heap, slots) && |slots| == |rows| * cols * SLOT
    ensures CellsOk(Flat(rows, cols)) && heap + slots == Window(Flat(rows, cols))
  {
    hide Heap, Slots, CellsOk;
    assert rows[..|rows|] == rows;
    assert DoneCells(rows, cols, |rows|, 0) == Flat(rows, cols);
    assert Zeros(0) + Slots(Flat(rows, cols)) == Slots(Flat(rows, cols));
  }

  lemma WindowAligned(cells: seq<Cell>)
    requires CellsOk(cells)
    ensures |Window(cells)| % 4 == 0
  {
    hide Heap, Slots;
    FourthsAdd(|Heap(cells)|, SLOT * |cells|);
  }

  lemma Preamble(d: seq<Byte>, name: string, rows: nat, cols: nat)
    ensures d + EncI32(0) + EncString8(Some(name)) + U32(rows) + U32(cols) == d + EncPreamble(name, rows, cols)
  {
    hide EncI32, EncString8, Le;
    assert EncPreamble(name, rows, cols) == EncI32(0) + EncString8(Some(name)) + U32(rows) + U32(cols);
  }

  // The size declared for a window is the number of bytes that follow, as long as it fits its field.
  lemma DeclaredSize(cells: seq<Cell>)
    requires CellsOk(cells)
    ensures LeNat(U32(|Window(cells)|)) == |Window(cells)| <==> |Window(cells)| < U32_LIMIT
  {
    assert Pow256(4) == U32_LIMIT;
    LeOfLeNat(U32(|Window(cells)|));
    if |Window(cells)| < U32_LIMIT {
      LeNatOfLe(4, |Window(cells)|);
    }
  }

  // Cell c of row r, read back from the window of all rows.
  lemma RowsRead(rows: seq<seq<Cell>>, cols: nat, r: nat, c: nat)
    requires r < |rows| && c < cols && CellsOk(Flat(rows, cols))
    requires Field(cols, r, c) < |Flat(rows, cols)| && InReach(Flat(rows, cols), Field(cols, r, c))
    ensures ReadCell(Window(Flat(rows, cols)), r * cols + c) == Some(if c < |rows[r]| then rows[r][c] else Null)
  {
    hide Window, ReadCell, Flat, CellsOk, InReach;
    FlatAt(rows, cols, r, c);
    WindowReads(Flat(rows, cols), Field(cols, r, c));
  }
}
