// Android sparse images (crates/aro-image/src/sparse.rs): what an image means, the expansion as a
// function of its input bytes, and the expander's loops.
module SparseImage {
  import opened Bytes

  const MAGIC: nat := 0xed26_ff3a
  const CHUNK_RAW: nat := 0xCAC1
  const CHUNK_FILL: nat := 0xCAC2
  const CHUNK_DONT_CARE: nat := 0xCAC3
  const CHUNK_CRC32: nat := 0xCAC4
  const BUF_SIZE: nat := 0x10_0000

  datatype Failure = UnexpectedEof | NotSparse | BadHeaderSize | SizeMismatch | UnknownChunk

  // ---------- files ----------

  // f cut or zero-extended to n bytes (`set_len`).
  function Resized(f: seq<Byte>, n: nat): (g: seq<Byte>)
    ensures |g| == n
  {
    if n <= |f| then f[..n] else f + Zeros(n - |f|)
  }

  // b written at offset o; writing past the end leaves a hole of zeros, writing nothing does nothing.
  function WriteAt(f: seq<Byte>, o: nat, b: seq<Byte>): (g: seq<Byte>)
  {
    if b == [] then f
    else Resized(f, o) + b + if o + |b| <= |f| then f[o + |b|..] else []
  }

  lemma WriteAtTwice(f: seq<Byte>, o: nat, a: seq<Byte>, b: seq<Byte>)
    ensures WriteAt(WriteAt(f, o, a), o + |a|, b) == WriteAt(f, o, a + b)
  {
    if a == [] {
      assert a + b == b;
    } else if b == [] {
      assert a + b == a;
    } else {
      var g, x := WriteAt(f, o, a), o + |a| + |b|;
      var head := Resized(f, o);
      hide Zeros;
      assert g == head + a + if o + |a| <= |f| then f[o + |a|..] else [];
      assert g[..o + |a|] == head + a;
      assert Resized(g, o + |a|) == head + a;
      hide Resized;
      assert (if x <= |g| then g[x..] else []) == (if x <= |f| then f[x..] else []);
      assert head + a + b == head + (a + b);
    }
  }

  lemma WriteNothing(f: seq<Byte>, o: nat)
    ensures WriteAt(f, o, []) == f
  {
  }

  class OutFile {
    var data: seq<Byte>
    var pos: nat

    constructor ()
      ensures data == [] && pos == 0
    {
      data, pos := [], 0;
    }

    method Seek(o: nat)
      modifies this`pos
      ensures pos == o
    {
      pos := o;
    }

    method WriteAll(buf: array<Byte>, n: nat)
      requires n <= buf.Length
      modifies this
      ensures data == WriteAt(old(data), old(pos), buf[..n]) && pos == old(pos) + n
    {
      data := WriteAt(data, pos, buf[..n]);
      pos := pos + n;
    }

    method SetLen(n: nat)
      modifies this`data
      ensures data == Resized(old(data), n)
    {
      data := Resized(data, n);
    }
  }

  class InFile {
    const data: seq<Byte>
    var pos: nat

    constructor (data: seq<Byte>)
      ensures this.data == data && pos == 0
    {
      this.data, pos := data, 0;
    }

    method Seek(o: nat)
      modifies this`pos
      ensures pos == o
    {
      pos := o;
    }

    // read_exact into the first n bytes of buf.
    method ReadExact(buf: array<Byte>, n: nat) returns (ok: bool)
      requires n <= buf.Length
      modifies this`pos, buf
      ensures ok <==> n == 0 || old(pos) + n <= |data|
      ensures ok ==> pos == old(pos) + n
      ensures ok && n > 0 ==> buf[..n] == data[old(pos)..old(pos) + n]
      ensures buf[n..] == old(buf[n..])
    {
      if n > 0 && pos + n > |data| {
        return false;
      }
      for i := 0 to n
        invariant pos == old(pos)
        invariant forall k :: 0 <= k < i ==> buf[k] == data[pos + k]
        invariant buf[n..] == old(buf[n..])
      {
        buf[i] := data[pos + i];
      }
      pos := pos + n;
      return true;
    }
  }

  // ---------- expansion as a function of the input ----------

  function Repeat(pattern: seq<Byte>, n: nat): (b: seq<Byte>)
    requires |pattern| == 4
    ensures |b| == n
  {
    seq(n, i requires 0 <= i < n => pattern[i % 4])
  }

  // Position in the input, output so far, position in the output.
  datatype State = State(p: nat, f: seq<Byte>, o: nat)

  // One chunk.
  function Step(d: seq<Byte>, st: State, headerSize: nat, blkSz: nat): (r: Result<State, Failure>)
    requires headerSize >= 12
  {
    if st.p + headerSize > |d| then Err(UnexpectedEof)
    else
      var ty := U16At(d, st.p);
      var total := U32At(d, st.p + 8);
      var span: nat := U32At(d, st.p + 4) * blkSz;
      var q := st.p + headerSize;
      if ty == CHUNK_RAW then
        if total as int - headerSize != span then Err(SizeMismatch)
        else if span > 0 && q + span > |d| then Err(UnexpectedEof)
        else Ok(State(q + span, WriteAt(st.f, st.o, if span > 0 then d[q..q + span] else []), st.o + span))
      else if ty == CHUNK_FILL then
        if q + 4 > |d| then Err(UnexpectedEof)
        else
          var pattern := d[q..q + 4];
          Ok(State(q + 4, if pattern == [0, 0, 0, 0] then st.f else WriteAt(st.f, st.o, Repeat(pattern, span)),
                   st.o + span))
      else if ty == CHUNK_DONT_CARE then Ok(State(q, st.f, st.o + span))
      // The seek by total - headerSize is relative to q.
      else if ty == CHUNK_CRC32 then Ok(State(st.p + total, st.f, st.o))
      else Err(UnknownChunk)
  }

  function Steps(d: seq<Byte>, st: State, headerSize: nat, blkSz: nat, n: nat): (r: Result<State, Failure>)
    requires headerSize >= 12
    decreases n
  {
    if n == 0 then Ok(st)
    else
      var next :- Step(d, st, headerSize, blkSz);
      Steps(d, next, headerSize, blkSz, n - 1)
  }

  // The file left in `out` and the raw size returned.
  function Expanded(d: seq<Byte>, out: seq<Byte>): (r: Result<seq<Byte>, Failure>)
  {
    if |d| < 28 then Err(UnexpectedEof)
    else if U32At(d, 0) != MAGIC then Err(NotSparse)
    else if U16At(d, 10) < 12 then Err(BadHeaderSize)
    else
      var end :- Steps(d, State(U16At(d, 8), out, 0), U16At(d, 10), U32At(d, 12), U32At(d, 20));
      Ok(Resized(end.f, U32At(d, 16) * U32At(d, 12)))
  }

  // When one chunk fails, and how: its header does not fit the input, its type is none of the four, the
  // size of a raw chunk is not that of its blocks, or its data does not fit the input.
  lemma StepErrors(d: seq<Byte>, st: State, headerSize: nat, blkSz: nat)
    requires headerSize >= 12
    ensures var r, p := Step(d, st, headerSize, blkSz), st.p;
            && (r == Err(UnknownChunk) <==>
              p + headerSize <= |d| && U16At(d, p) !in {0xCAC1, 0xCAC2, 0xCAC3, 0xCAC4})
            && (r == Err(SizeMismatch) <==>
              && p + headerSize <= |d| && U16At(d, p) == 0xCAC1
              && U32At(d, p + 8) != headerSize + U32At(d, p + 4) * blkSz)
            && (r == Err(UnexpectedEof) <==>
              || p + headerSize > |d|
              || (U16At(d, p) == 0xCAC2 && p + headerSize + 4 > |d|)
              || (U16At(d, p) == 0xCAC1 && U32At(d, p + 8) == headerSize + U32At(d, p + 4) * blkSz
                  && headerSize < U32At(d, p + 8) && p + U32At(d, p + 8) > |d|))
            && r != Err(NotSparse) && r != Err(BadHeaderSize)
  {
    hide WriteAt, U16At, U32At;
  }

  // The whole list fails as its first failing chunk does, and only if one fails.
  lemma {:induction false} StepsFail(d: seq<Byte>, st: State, headerSize: nat, blkSz: nat, n: nat)
    requires headerSize >= 12
    ensures var r := Steps(d, st, headerSize, blkSz, n);
            r.Err? <==> exists k :: FailsAt(d, st, headerSize, blkSz, n, k)
    ensures forall k :: FailsAt(d, st, headerSize, blkSz, n, k) ==>
              Steps(d, st, headerSize, blkSz, n)
              == Err(Step(d, Steps(d, st, headerSize, blkSz, k).value, headerSize, blkSz).error)
    decreases n
  {
    hide Step;
    if n > 0 {
      var first := Step(d, st, headerSize, blkSz);
      if first.Err? {
        assert FailsAt(d, st, headerSize, blkSz, n, 0);
      } else {
        var m: nat := n - 1;
        StepsFail(d, first.value, headerSize, blkSz, m);
        if k: nat :| FailsAt(d, first.value, headerSize, blkSz, m, k) {
          assert FailsAt(d, st, headerSize, blkSz, n, k + 1);
        }
        forall k: nat | FailsAt(d, st, headerSize, blkSz, n, k)
          ensures k > 0 && FailsAt(d, first.value, headerSize, blkSz, m, k - 1)
        {
        }
      }
    }
  }

  // The first k of n chunks expand, and the next one does not.
  predicate FailsAt(d: seq<Byte>, st: State, headerSize: nat, blkSz: nat, n: nat, k: nat)
    requires headerSize >= 12
  {
    && k < n
    && var before := Steps(d, st, headerSize, blkSz, k);
    before.Ok? && Step(d, before.value, headerSize, blkSz).Err?
  }

  // ---------- the expander ----------

  method CopyRaw(input: InFile, output: OutFile, buf: array<Byte>, span: nat) returns (ok: bool)
    requires buf.Length == BUF_SIZE
    modifies input`pos, output, buf
    ensures ok <==> span == 0 || old(input.pos) + span <= |input.data|
    ensures ok ==> input.pos == old(input.pos) + span
    ensures ok ==> output.data == WriteAt(old(output.data), old(output.pos),
                                          if span > 0 then input.data[old(input.pos)..old(input.pos) + span] else [])
  {
    hide WriteAt;
    ghost var q, f, o := input.pos, output.data, output.pos;
    ghost var done: seq<Byte> := [];
    var left: nat := span;
    WriteNothing(f, o);
    while left > 0
      invariant left <= span && |done| == span - left
      invariant input.pos == q + |done| && output.pos == o + |done|
      invariant |done| > 0 ==> q + |done| <= |input.data| && done == input.data[q..q + |done|]
      invariant output.data == WriteAt(f, o, done)
    {
      var n := if left < buf.Length then left else buf.Length;
      var read := input.ReadExact(buf, n);
      if !read {
        return false;
      }
      ghost var part := buf[..n];
      output.WriteAll(buf, n);
      WriteAtTwice(f, o, done, part);
      done := done + part;
      left := left - n;
    }
    return true;
  }

  // `buf.chunks_exact_mut(4)` set to the pattern.
  method FillBuffer(buf: array<Byte>, pattern: seq<Byte>)
    requires buf.Length == BUF_SIZE && |pattern| == 4
    modifies buf
    ensures buf[..] == Repeat(pattern, BUF_SIZE)
  {
    var i := 0;
    while i < BUF_SIZE
      invariant i <= BUF_SIZE && i % 4 == 0
      invariant forall k :: 0 <= k < i ==> buf[k] == pattern[k % 4]
    {
      buf[i], buf[i + 1], buf[i + 2], buf[i + 3] := pattern[0], pattern[1], pattern[2], pattern[3];
      i := i + 4;
    }
    ghost var b := Repeat(pattern, BUF_SIZE);
    assert |buf[..]| == |b| && forall k :: 0 <= k < |b| ==> buf[..][k] == b[k];
  }

  // Appending a block of the pattern keeps it in phase.
  lemma InPhase(pattern: seq<Byte>, done: nat, n: nat)
    requires |pattern| == 4 && n <= BUF_SIZE && (done % 4 == 0 || n == 0)
    ensures Repeat(pattern, done) + Repeat(pattern, BUF_SIZE)[..n] == Repeat(pattern, done + n)
  {
    var a, b := Repeat(pattern, done) + Repeat(pattern, BUF_SIZE)[..n], Repeat(pattern, done + n);
    forall i | 0 <= i < done + n
      ensures a[i] == b[i]
    {
      if i >= done {
        assert (i - done) % 4 == i % 4;
      }
    }
  }

  method WriteFill(output: OutFile, buf: array<Byte>, pattern: seq<Byte>, span: nat)
    requires buf.Length == BUF_SIZE && |pattern| == 4
    modifies output, buf
    ensures output.data == WriteAt(old(output.data), old(output.pos), Repeat(pattern, span))
  {
    hide WriteAt, Repeat;
    ghost var f, o := output.data, output.pos;
    WriteNothing(f, o);
    assert Repeat(pattern, 0) == [];
    FillBuffer(buf, pattern);
    var left: nat := span;
    while left > 0
      invariant left <= span
      invariant buf[..] == Repeat(pattern, BUF_SIZE)
      invariant left > 0 ==> (span - left) % 4 == 0
      invariant output.pos == o + (span - left)
      invariant output.data == WriteAt(f, o, Repeat(pattern, span - left))
    {
      var n := if left < buf.Length then left else buf.Length;
      assert buf[..n] == buf[..][..n];
      InPhase(pattern, span - left, n);
      WriteAtTwice(f, o, Repeat(pattern, span - left), buf[..n]);
      output.WriteAll(buf, n);
      left := left - n;
    }
  }

  // A fill chunk: its pattern is read and, unless it is zero, written out.
  method FillChunk(input: InFile, output: OutFile, buf: array<Byte>, span: nat, outPos: nat) returns (ok: bool)
    requires buf.Length == BUF_SIZE
    modifies input`pos, output, buf
    ensures ok <==> old(input.pos) + 4 <= |input.data|
    ensures ok ==> input.pos == old(input.pos) + 4
    ensures ok ==>
              var pattern := input.data[old(input.pos)..old(input.pos) + 4];
              output.data == if pattern == [0, 0, 0, 0] then old(output.data)
                             else WriteAt(old(output.data), outPos, Repeat(pattern, span))
  {
    hide WriteAt, Repeat;
    var fill := new Byte[4];
    ok := input.ReadExact(fill, 4);
    if !ok {
      return;
    }
    assert fill[..4] == fill[..];
    if fill[..] != [0, 0, 0, 0] {
      output.Seek(outPos);
      WriteFill(output, buf, fill[..], span);
    }
  }

  // One round of the chunk loop.
  method ExpandChunk(input: InFile, output: OutFile, buf: array<Byte>, hdr: array<Byte>, blkSz: nat, outPos: nat)
      returns (r: Result<nat, Failure>)
    requires buf.Length == BUF_SIZE && hdr.Length >= 12 && buf != hdr
    modifies input`pos, output, buf, hdr
    ensures var s := Step(input.data, State(old(input.pos), old(output.data), outPos), hdr.Length, blkSz);
            if s.Err? then r == Err(s.error) else r.Ok? && s.value == State(input.pos, output.data, r.value)
  {
    hide WriteAt, U16At, U32At, Repeat, Resized, LeNat;
    ghost var p := input.pos;
    var read := input.ReadExact(hdr, hdr.Length);
    if !read {
      return Err(UnexpectedEof);
    }
    HeaderFields(input.data, p, hdr[..]);
    assert hdr[..hdr.Length] == hdr[..];
    var ty := U16At(hdr[..], 0);
    var nBlocks := U32At(hdr[..], 4);
    var totalSz := U32At(hdr[..], 8);
    MulNat(nBlocks, blkSz);
    var span: nat := nBlocks * blkSz;
    if ty == CHUNK_RAW {
      if totalSz as int - hdr.Length != span {
        return Err(SizeMismatch);
      }
      output.Seek(outPos);
      var ok := CopyRaw(input, output, buf, span);
      if !ok {
        return Err(UnexpectedEof);
      }
    } else if ty == CHUNK_FILL {
      var ok := FillChunk(input, output, buf, span, outPos);
      if !ok {
        return Err(UnexpectedEof);
      }
    } else if ty == CHUNK_DONT_CARE {
    } else if ty == CHUNK_CRC32 {
      input.Seek(input.pos - hdr.Length + totalSz);
      return Ok(outPos);
    } else {
      return Err(UnknownChunk);
    }
    return Ok(outPos + span);
  }

  lemma MulNat(a: nat, b: nat)
    ensures a * b >= 0
  {
  }

  lemma HeaderFields(d: seq<Byte>, p: nat, h: seq<Byte>)
    requires |h| >= 12 && p + |h| <= |d| && h == d[p..p + |h|]
    ensures U16At(h, 0) == U16At(d, p) && U32At(h, 4) == U32At(d, p + 4) && U32At(h, 8) == U32At(d, p + 8)
  {
    SubSlice(d, p, |h|, 0, 2);
    SubSlice(d, p, |h|, 4, 8);
    SubSlice(d, p, |h|, 8, 12);
  }

  method Expand(input: InFile, output: OutFile) returns (r: Result<nat, Failure>)
    modifies input`pos, output
    ensures var e := Expanded(input.data, old(output.data));
            if e.Err? then r == Err(e.error) else output.data == e.value && r == Ok(|e.value|)
    ensures var d := input.data;
            && (r == Err(NotSparse) <==> |d| >= 28 && U32At(d, 0) != 0xed26_ff3a)
            && (r == Err(BadHeaderSize) <==> |d| >= 28 && U32At(d, 0) == 0xed26_ff3a && U16At(d, 10) < 12)
            && (|d| < 28 ==> r == Err(UnexpectedEof))
            && (r.Ok? ==> r.value == U32At(d, 16) * U32At(d, 12))
  {
    hide Step, U16At, U32At, Resized;
    input.Seek(0);
    var h := new Byte[28];
    var read := input.ReadExact(h, 28);
    if !read {
      return Err(UnexpectedEof);
    }
    assert h[..28] == h[..];
    FileHeaderFields(input.data, h[..]);
    if U32At(h[..], 0) != MAGIC {
      return Err(NotSparse);
    }
    var fileHdrSz := U16At(h[..], 8);
    var chunkHdrSz := U16At(h[..], 10);
    var blkSz := U32At(h[..], 12);
    var totalBlks := U32At(h[..], 16);
    var totalChunks := U32At(h[..], 20);
    if chunkHdrSz < 12 {
      return Err(BadHeaderSize);
    }
    input.Seek(fileHdrSz);
    var outPos := 0;
    var chunkHdr := new Byte[chunkHdrSz];
    var buf := new Byte[BUF_SIZE];
    ghost var whole := Steps(input.data, State(fileHdrSz, output.data, 0), chunkHdrSz, blkSz, totalChunks);
    for i := 0 to totalChunks
      invariant whole == Steps(input.data, State(input.pos, output.data, outPos), chunkHdrSz, blkSz, totalChunks - i)
    {
      ghost var st := State(input.pos, output.data, outPos);
      var next := ExpandChunk(input, output, buf, chunkHdr, blkSz, outPos);
      if next.Err? {
        StepErrors(input.data, st, chunkHdrSz, blkSz);
        return Err(next.error);
      }
      outPos := next.value;
    }
    var rawSize := totalBlks * blkSz;
    output.SetLen(rawSize);
    return Ok(rawSize);
  }

  lemma FileHeaderFields(d: seq<Byte>, h: seq<Byte>)
    requires |h| == 28 <= |d| && h == d[0..28]
    ensures U32At(h, 0) == U32At(d, 0) && U16At(h, 8) == U16At(d, 8) && U16At(h, 10) == U16At(d, 10)
    ensures U32At(h, 12) == U32At(d, 12) && U32At(h, 16) == U32At(d, 16) && U32At(h, 20) == U32At(d, 20)
  {
    SubSlice(d, 0, 28, 0, 4);
    SubSlice(d, 0, 28, 8, 10);
    SubSlice(d, 0, 28, 10, 12);
    SubSlice(d, 0, 28, 12, 16);
    SubSlice(d, 0, 28, 16, 20);
    SubSlice(d, 0, 28, 20, 24);
  }

  // ---------- what an image means ----------

  datatype Kind = Raw(data: seq<Byte>) | Fill(pattern: seq<Byte>) | DontCare | Crc(data: seq<Byte>)

  // A chunk; reserved and ext are header bytes the expander skips.
  datatype Chunk = Chunk(kind: Kind, blocks: nat, reserved: nat, ext: seq<Byte>)

  // A whole image; ext is what its file header holds beyond 28 bytes.
  datatype Image = Image(chunkHeaderSize: nat, blkSz: nat, totalBlks: nat, checksum: nat, ext: seq<Byte>, chunks: seq<Chunk>)

  function Payload(k: Kind): seq<Byte>
  {
    match k case Raw(data) => data case Fill(pattern) => pattern case DontCare => [] case Crc(data) => data
  }

  function Tag(k: Kind): nat
  {
    match k
    case Raw(_) => 0xCAC1 case Fill(_) => 0xCAC2 case DontCare => 0xCAC3 case Crc(_) => 0xCAC4
  }

  predicate ChunkOk(c: Chunk, headerSize: nat, blkSz: nat)
  {
    && c.blocks < U32_LIMIT && headerSize + |Payload(c.kind)| < U32_LIMIT && headerSize == 12 + |c.ext|
    && (c.kind.Raw? ==> |c.kind.data| == c.blocks * blkSz)
    && (c.kind.Fill? ==> |c.kind.pattern| == 4)
  }

  ghost predicate ImageOk(img: Image)
  {
    && 12 <= img.chunkHeaderSize < U16_LIMIT && 28 + |img.ext| < U16_LIMIT
    && img.blkSz < U32_LIMIT && img.totalBlks < U32_LIMIT && |img.chunks| < U32_LIMIT
    && forall i :: 0 <= i < |img.chunks| ==> ChunkOk(img.chunks[i], img.chunkHeaderSize, img.blkSz)
  }

  function EncChunk(c: Chunk, headerSize: nat): (e: seq<Byte>)
  {
    U16(Tag(c.kind)) + (U16(c.reserved)
    + (U32(c.blocks) + (U32(headerSize + |Payload(c.kind)|) + (c.ext + Payload(c.kind)))))
  }

  function EncChunks(cs: seq<Chunk>, headerSize: nat): (e: seq<Byte>)
  {
    if cs == [] then [] else EncChunk(cs[0], headerSize) + EncChunks(cs[1..], headerSize)
  }

  function EncImage(img: Image): (e: seq<Byte>)
  {
    U32(0xed26_ff3a) + (U16(1) + (U16(0) + (U16(28 + |img.ext|) + (U16(img.chunkHeaderSize) + (U32(img.blkSz)
    + (U32(img.totalBlks) + (U32(|img.chunks|) + (U32(img.checksum)
    + (img.ext + EncChunks(img.chunks, img.chunkHeaderSize))))))))))
  }

  // The raw bytes of a chunk.
  function Content(c: Chunk, blkSz: nat): (b: seq<Byte>)
    requires c.kind.Fill? ==> |c.kind.pattern| == 4
  {
    match c.kind
    case Raw(data) => data
    case Fill(pattern) => Repeat(pattern, c.blocks * blkSz)
    case DontCare => Zeros(c.blocks * blkSz)
    case Crc(_) => []
  }

  ghost function Contents(cs: seq<Chunk>, headerSize: nat, blkSz: nat): (b: seq<Byte>)
    requires forall i :: 0 <= i < |cs| ==> ChunkOk(cs[i], headerSize, blkSz)
  {
    if cs == [] then []
    else
      assert ChunkOk(cs[0], headerSize, blkSz);
      Content(cs[0], blkSz) + Contents(cs[1..], headerSize, blkSz)
  }

  // ---------- expansion means that ----------

  lemma WriteExtends(f: seq<Byte>, o: nat, b: seq<Byte>)
    requires |f| <= o
    ensures |WriteAt(f, o, b)| <= o + |b|
    ensures Resized(WriteAt(f, o, b), o + |b|) == Resized(f, o) + b
  {
  }

  lemma HoleExtends(f: seq<Byte>, o: nat, n: nat)
    requires |f| <= o
    ensures Resized(f, o + n) == Resized(f, o) + Zeros(n)
  {
  }

  lemma ChunkWords(d: seq<Byte>, p: nat, c: Chunk, headerSize: nat, blkSz: nat)
    requires ChunkOk(c, headerSize, blkSz) && Sits(d, p, EncChunk(c, headerSize))
    ensures |EncChunk(c, headerSize)| == headerSize + |Payload(c.kind)|
    ensures p + headerSize <= |d| && U16At(d, p) == Tag(c.kind) && U32At(d, p + 4) == c.blocks
    ensures U32At(d, p + 8) == headerSize + |Payload(c.kind)|
    ensures Sits(d, p + headerSize, Payload(c.kind))
  {
    hide Le, LeNat, U16At, U32At, Payload, Sits;
    var pay := Payload(c.kind);
    var e3 := c.ext + pay;
    var e2 := U32(headerSize + |pay|) + e3;
    var e1 := U32(c.blocks) + e2;
    SitsSplit(d, p, U16(Tag(c.kind)), U16(c.reserved) + e1);
    SitsSplit(d, p + 2, U16(c.reserved), e1);
    SitsSplit(d, p + 4, U32(c.blocks), e2);
    SitsSplit(d, p + 8, U32(headerSize + |pay|), e3);
    SitsSplit(d, p + 12, c.ext, pay);
    SitsRead16(d, p, Tag(c.kind));
    SitsRead32(d, p + 4, c.blocks);
    SitsRead32(d, p + 8, headerSize + |pay|);
    SitsBounds(d, p + headerSize, pay);
  }

  lemma SitsBounds(d: seq<Byte>, p: nat, e: seq<Byte>)
    requires Sits(d, p, e)
    ensures p + |e| <= |d|
  {
  }

  // One chunk appends its content to what is laid out so far.
  lemma StepMeans(d: seq<Byte>, st: State, c: Chunk, headerSize: nat, blkSz: nat)
    requires headerSize >= 12 && ChunkOk(c, headerSize, blkSz) && Sits(d, st.p, EncChunk(c, headerSize))
    requires |st.f| <= st.o
    ensures var r, b := Step(d, st, headerSize, blkSz), Content(c, blkSz);
            && r.Ok? && r.value.p == st.p + |EncChunk(c, headerSize)| && r.value.o == st.o + |b|
            && |r.value.f| <= r.value.o && Resized(r.value.f, r.value.o) == Resized(st.f, st.o) + b
  {
    hide WriteAt, Resized, U16At, U32At, Repeat, EncChunk;
    ChunkWords(d, st.p, c, headerSize, blkSz);
    var b, q := Content(c, blkSz), st.p + headerSize;
    match c.kind
    case Raw(data) =>
      WriteExtends(st.f, st.o, b);
    case Fill(pattern) =>
      WriteExtends(st.f, st.o, b);
      if pattern == [0, 0, 0, 0] {
        HoleExtends(st.f, st.o, |b|);
        ZeroFill(|b|);
      }
    case DontCare =>
      HoleExtends(st.f, st.o, |b|);
    case Crc(data) =>
      assert Resized(st.f, st.o) + [] == Resized(st.f, st.o);
  }

  lemma ZeroFill(n: nat)
    ensures Repeat([0, 0, 0, 0], n) == Zeros(n)
  {
  }

  lemma {:induction false} StepsMean(d: seq<Byte>, st: State, cs: seq<Chunk>, headerSize: nat, blkSz: nat)
    requires headerSize >= 12 && forall i :: 0 <= i < |cs| ==> ChunkOk(cs[i], headerSize, blkSz)
    requires Sits(d, st.p, EncChunks(cs, headerSize)) && |st.f| <= st.o
    ensures var r, b := Steps(d, st, headerSize, blkSz, |cs|), Contents(cs, headerSize, blkSz);
            && r.Ok? && r.value.o == st.o + |b|
            && |r.value.f| <= r.value.o && Resized(r.value.f, r.value.o) == Resized(st.f, st.o) + b
    decreases cs
  {
    hide Step, EncChunk, Resized, Content, ChunkOk, Sits;
    if cs == [] {
      assert Resized(st.f, st.o) + [] == Resized(st.f, st.o);
    } else {
      SitsSplit(d, st.p, EncChunk(cs[0], headerSize), EncChunks(cs[1..], headerSize));
      KindOk(cs[0], headerSize, blkSz);
      StepMeans(d, st, cs[0], headerSize, blkSz);
      var next := Step(d, st, headerSize, blkSz).value;
      StepsMean(d, next, cs[1..], headerSize, blkSz);
      var a, b, c := Resized(st.f, st.o), Content(cs[0], blkSz), Contents(cs[1..], headerSize, blkSz);
      assert a + b + c == a + (b + c);
    }
  }

  lemma KindOk(c: Chunk, headerSize: nat, blkSz: nat)
    requires ChunkOk(c, headerSize, blkSz)
    ensures c.kind.Fill? ==> |c.kind.pattern| == 4
  {
  }

  lemma ImageWords(d: seq<Byte>, img: Image)
    requires ImageOk(img) && Sits(d, 0, EncImage(img))
    ensures |d| >= 28 && U32At(d, 0) == MAGIC && U16At(d, 8) == 28 + |img.ext| && U16At(d, 10) == img.chunkHeaderSize
    ensures U32At(d, 12) == img.blkSz && U32At(d, 16) == img.totalBlks && U32At(d, 20) == |img.chunks|
    ensures Sits(d, 28 + |img.ext|, EncChunks(img.chunks, img.chunkHeaderSize))
  {
    hide Le, LeNat, U16At, U32At, Sits, EncChunks, ChunkOk;
    var e4 := U32(img.blkSz) + (U32(img.totalBlks) + (U32(|img.chunks|)
              + (U32(img.checksum) + (img.ext + EncChunks(img.chunks, img.chunkHeaderSize)))));
    var e3 := U16(img.chunkHeaderSize) + e4;
    var e2 := U16(28 + |img.ext|) + e3;
    var e1 := U16(0) + e2;
    SitsSplit(d, 0, U32(MAGIC), U16(1) + e1);
    SitsSplit(d, 4, U16(1), e1);
    SitsSplit(d, 6, U16(0), e2);
    SitsSplit(d, 8, U16(28 + |img.ext|), e3);
    SitsSplit(d, 10, U16(img.chunkHeaderSize), e4);
    SitsRead32(d, 0, MAGIC);
    SitsRead16(d, 8, 28 + |img.ext|);
    SitsRead16(d, 10, img.chunkHeaderSize);
    SizeWords(d, img.blkSz, img.totalBlks, |img.chunks|, img.checksum, img.ext, EncChunks(img.chunks, img.chunkHeaderSize));
  }

  // The four words behind the header sizes, the rest of the header and the chunks.
  lemma SizeWords(d: seq<Byte>, blkSz: nat, total: nat, count: nat, checksum: nat, ext: seq<Byte>, chunks: seq<Byte>)
    requires blkSz < U32_LIMIT && total < U32_LIMIT && count < U32_LIMIT
    requires Sits(d, 12, U32(blkSz) + (U32(total) + (U32(count) + (U32(checksum) + (ext + chunks)))))
    ensures |d| >= 28 && U32At(d, 12) == blkSz && U32At(d, 16) == total && U32At(d, 20) == count
    ensures Sits(d, 28 + |ext|, chunks)
  {
    hide Le, LeNat, U32At, Sits;
    var e := U32(checksum) + (ext + chunks);
    SitsSplit(d, 12, U32(blkSz), U32(total) + (U32(count) + e));
    SitsSplit(d, 16, U32(total), U32(count) + e);
    SitsSplit(d, 20, U32(count), e);
    SitsSplit(d, 24, U32(checksum), ext + chunks);
    SitsSplit(d, 28, ext, chunks);
    SitsBounds(d, 28, ext);
    SitsRead32(d, 12, blkSz);
    SitsRead32(d, 16, total);
    SitsRead32(d, 20, count);
  }

  // Expanding an image into an empty output yields its chunks' contents, cut or zero-extended to the
  // declared size; trailing input is ignored.
  lemma ImageMeans(img: Image, trailing: seq<Byte>)
    requires ImageOk(img)
    ensures var b := Contents(img.chunks, img.chunkHeaderSize, img.blkSz);
            && Expanded(EncImage(img) + trailing, []) == Ok(Resized(b, img.totalBlks * img.blkSz))
            && (|b| == img.totalBlks * img.blkSz <==> Expanded(EncImage(img) + trailing, []) == Ok(b))
  {
    hide EncImage, Steps, EncChunks, U16At, U32At;
    var d := EncImage(img) + trailing;
    var b := Contents(img.chunks, img.chunkHeaderSize, img.blkSz);
    assert Sits(d, 0, EncImage(img));
    ImageWords(d, img);
    var st := State(28 + |img.ext|, [], 0);
    StepsMean(d, st, img.chunks, img.chunkHeaderSize, img.blkSz);
    var end := Steps(d, st, img.chunkHeaderSize, img.blkSz, |img.chunks|).value;
    assert Resized([], 0) + b == b;
    ResizedTwice(end.f, end.o, img.totalBlks * img.blkSz);
    assert Resized(b, |b|) == b;
  }

  lemma ResizedTwice(f: seq<Byte>, o: nat, n: nat)
    requires |f| <= o
    ensures Resized(Resized(f, o), n) == Resized(f, n)
  {
  }
}
