// The software compositor's pixel passes (crates/arod/src/compositor.rs, present_composite): each
// pass over the destination bytes equals a per-pixel specification.
module Compositor {
  import opened Bytes

  datatype Px = Px(r: Byte, g: Byte, b: Byte, a: Byte)

  // Position and strides in pixels; x and y are i32.
  datatype Overlay = Overlay(x: I32, y: I32, width: nat, height: nat, stride: nat, pixels: seq<Byte>)

  // Widths and heights of buffers under 2 GiB, at four bytes a pixel.
  const DIM_LIMIT: nat := 0x2000_0000

  function PxOf(s: seq<Byte>, p: nat): Px
    requires 4 * p + 4 <= |s|
  {
    Px(s[4 * p], s[4 * p + 1], s[4 * p + 2], s[4 * p + 3])
  }

  function PxAt(d: array<Byte>, p: nat): Px
    requires 4 * p + 4 <= d.Length
    reads d
  {
    Px(d[4 * p], d[4 * p + 1], d[4 * p + 2], d[4 * p + 3])
  }

  // ---------- blending one pixel ----------

  function Min255(n: nat): Byte
  {
    if n < 255 then n else 255
  }

  // Premultiplied src-over of one channel, in integers.
  function Channel(s: Byte, a: Byte, d: Byte): Byte
  {
    var k: nat := 255 - a;
    MulLe(0, d, k);
    Min255(s + (d * k + 127) / 255)
  }

  // s drawn over the opaque d.
  function Over(s: Px, d: Px): Px
  {
    if s.a == 0 then d
    else if s.a == 255 then Px(s.r, s.g, s.b, 255)
    else Px(Channel(s.r, s.a, d.r), Channel(s.g, s.a, d.g), Channel(s.b, s.a, d.b), 255)
  }

  // For a premultiplied pixel the clamp never bites, and the result is s + d * (1 - a / 255) rounded
  // to the nearest integer.
  lemma ChannelIsNearest(s: Byte, a: Byte, d: Byte)
    requires s <= a
    ensures s + (d * (255 - a) + 127) / 255 <= 255
    ensures Channel(s, a, d) == s + (d * (255 - a) + 127) / 255
    ensures var exact, v := 255 * s + d * (255 - a), 255 * Channel(s, a, d);
            -127 <= v - exact <= 127
  {
    var k := 255 - a;
    var x := d * k;
    MulLe(d, 255, k);
    var q := (x + 127) / 255;
    assert 255 * q <= x + 127 < 255 * q + 255;
    assert q <= k;
  }

  lemma MulLe(a: nat, b: nat, k: nat)
    ensures a <= b ==> a * k <= b * k
    ensures a < b ==> a * k + k <= b * k
  {
    if a < b {
      MulLe(a, b - 1, k);
      assert b * k == (b - 1) * k + k;
    }
  }

  // v is s + d * (1 - a / 255) to the nearest integer, or 255 where that is more.
  predicate Near(s: Byte, a: Byte, d: Byte, v: Byte)
  {
    var exact := 255 * s + d * (255 - a);
    if v == 255 then exact >= 255 * 255 - 127 else -127 <= 255 * v - exact <= 127
  }

  // r is what s drawn over the opaque d looks like.
  predicate Drawn(s: Px, d: Px, r: Px)
  {
    if s.a == 0 then r == d
    else r.a == 255 && Near(s.r, s.a, d.r, r.r) && Near(s.g, s.a, d.g, r.g) && Near(s.b, s.a, d.b, r.b)
  }

  lemma RoundIff(s: Byte, x: nat, v: Byte)
    ensures (if v == 255 then 255 * s + x >= 255 * 255 - 127 else -127 <= 255 * v - (255 * s + x) <= 127) <==>
            v == Min255(s + (x + 127) / 255)
  {
    var q := (x + 127) / 255;
    assert 255 * q <= x + 127 < 255 * q + 255;
  }

  lemma ChannelIff(s: Byte, a: Byte, d: Byte, v: Byte)
    ensures Near(s, a, d, v) <==> v == Channel(s, a, d)
  {
    var k: nat := 255 - a;
    MulLe(0, d, k);
    RoundIff(s, d * k, v);
  }

  lemma OpaqueChannel(s: Byte, d: Byte, v: Byte)
    ensures Near(s, 255, d, v) <==> v == s
  {
  }

  // There is one such pixel, the one the integer arithmetic computes.
  lemma DrawnIff(s: Px, d: Px, r: Px)
    ensures Drawn(s, d, r) <==> r == Over(s, d)
  {
    hide Near, Channel;
    ChannelIff(s.r, s.a, d.r, r.r);
    ChannelIff(s.g, s.a, d.g, r.g);
    ChannelIff(s.b, s.a, d.b, r.b);
    OpaqueChannel(s.r, d.r, r.r);
    OpaqueChannel(s.g, d.g, r.g);
    OpaqueChannel(s.b, d.b, r.b);
  }

  // ---------- the picture, pixel by pixel ----------

  function Opaque(p: Px): Px
  {
    p.(a := 255)
  }

  function Swizzled(p: Px): Px
  {
    Px(p.b, p.g, p.r, p.a)
  }

  // What a canvas copied over `was` leaves at byte i.
  function Copied(canvas: seq<Byte>, i: nat, was: Byte): Byte
  {
    if i < |canvas| then canvas[i] else was
  }

  function CopiedPx(canvas: seq<Byte>, p: nat, was: Px): Px
  {
    Px(Copied(canvas, 4 * p, was.r), Copied(canvas, 4 * p + 1, was.g), Copied(canvas, 4 * p + 2, was.b),
       Copied(canvas, 4 * p + 3, was.a))
  }

  // The layer below the overlay.
  function BasePx(surfaceView: Option<seq<Byte>>, canvas: seq<Byte>, size: nat, p: nat, was: Px): Px
  {
    if surfaceView.Some? then
      var below := Opaque(CopiedPx(surfaceView.value, p, was));
      if canvas != [] && |canvas| == size && 4 * p + 4 <= size then Over(PxOf(canvas, p), below) else below
    else if canvas != [] then Opaque(CopiedPx(canvas, p, was))
    else was
  }

  predicate OverlayOk(ov: Overlay)
  {
    && ov.width <= ov.stride && ov.width < DIM_LIMIT && ov.height < DIM_LIMIT
    && ov.stride * ov.height * 4 <= |ov.pixels| < 0x8000_0000
  }

  // The overlay pixel over pixel (sy, sx) of the base, if the overlay covers it inside the w by h base.
  function OverlayAt(ov: Overlay, w: nat, h: nat, sy: int, sx: int): (r: Option<Px>)
    requires OverlayOk(ov)
  {
    var oy, ox := sy - ov.y, sx - ov.x;
    if 0 <= oy < ov.height && 0 <= ox < ov.width && 0 <= sy < h && 0 <= sx < w then
      InRows(ov.stride, ov.height, oy, ox);
      Some(PxOf(ov.pixels, oy * ov.stride + ox))
    else None
  }

  function OverlayPx(ov: Overlay, w: nat, h: nat, stride: nat, p: nat): (r: Option<Px>)
    requires OverlayOk(ov)
  {
    if stride == 0 then None else OverlayAt(ov, w, h, p / stride, p % stride)
  }

  function Covered(ov: Overlay, w: nat, h: nat, stride: nat, p: nat, below: Px): Px
    requires OverlayOk(ov)
  {
    match OverlayPx(ov, w, h, stride, p) case None => below case Some(s) => Over(s, below)
  }

  // Pixel p of the presented frame.
  function FramePx(surfaceView: Option<seq<Byte>>, canvas: seq<Byte>, overlay: Option<Overlay>, swizzle: bool,
                   w: nat, h: nat, stride: nat, p: nat, was: Px): Px
    requires overlay.Some? ==> OverlayOk(overlay.value)
  {
    var base := BasePx(surfaceView, canvas, stride * h * 4, p, was);
    var full := if overlay.Some? then Covered(overlay.value, w, h, stride, p, base) else base;
    if swizzle then Swizzled(full) else full
  }

  // ---------- row arithmetic ----------

  lemma InRows(stride: nat, height: nat, row: nat, col: nat)
    requires row < height && col < stride
    ensures row * stride + col < stride * height
    ensures (row + 1) * stride <= stride * height
  {
    assert stride * height == stride * (row + 1) + stride * (height - row - 1);
  }

  lemma RowCol(stride: nat, row: nat, col: nat)
    requires col < stride
    ensures (row * stride + col) / stride == row && (row * stride + col) % stride == col
  {
    var p := row * stride + col;
    DivMod(p, stride);
    MulLe(row, p / stride, stride);
    MulLe(p / stride, row, stride);
  }

  lemma DivMod(p: nat, stride: nat)
    requires stride > 0
    ensures p / stride >= 0 && 0 <= p % stride < stride
    ensures p / stride * stride + p % stride == p
  {
  }

  // ---------- the passes ----------

  // copy_nonoverlapping of the canvas, then the alpha bytes set.
  method CopyOpaque(canvas: seq<Byte>, d: array<Byte>)
    requires d.Length % 4 == 0
    modifies d
    ensures forall p :: 0 <= p < d.Length / 4 ==> PxAt(d, p) == Opaque(CopiedPx(canvas, p, old(PxAt(d, p))))
    ensures forall k :: 0 <= k < d.Length ==>
              d[k] == if k % 4 == 3 then 255 else if k < |canvas| then canvas[k] else old(d[k])
  {
    var n := if |canvas| < d.Length then |canvas| else d.Length;
    var i := 0;
    while i < n
      invariant i <= n
      invariant forall k :: 0 <= k < i ==> d[k] == canvas[k]
      invariant forall k :: i <= k < d.Length ==> d[k] == old(d[k])
    {
      d[i] := canvas[i];
      i := i + 1;
    }
    assert forall k :: 0 <= k < d.Length ==> d[k] == Copied(canvas, k, old(d[k]));
    assert forall p :: 0 <= p < d.Length / 4 ==> PxAt(d, p) == CopiedPx(canvas, p, old(PxAt(d, p)));
    i := 3;
    while i < d.Length
      invariant i % 4 == 3 && i <= d.Length + 3
      invariant forall p :: 0 <= p < d.Length / 4 ==>
                  PxAt(d, p) == var c := CopiedPx(canvas, p, old(PxAt(d, p)));
                                if 4 * p + 3 < i then Opaque(c) else c
      invariant forall k :: 0 <= k < d.Length ==>
                  d[k] == if k % 4 == 3 && k < i then 255 else if k < |canvas| then canvas[k] else old(d[k])
    {
      d[i] := 255;
      i := i + 4;
    }
  }

  // One channel of a translucent pixel, invA being 255 less its alpha.
  method BlendChannel(s: Byte, invA: Byte, d: Byte) returns (c: Byte)
    ensures c == Channel(s, 255 - invA, d)
  {
    MulLe(0, d, invA);
    c := Min255(s + (d * invA + 127) / 255);
  }

  // Draw the pixel s over pixel p.
  method DrawOver(s: Px, d: array<Byte>, p: nat)
    requires 4 * p + 4 <= d.Length && s.a > 0
    modifies d
    ensures PxAt(d, p) == Over(s, old(PxAt(d, p)))
    ensures forall k :: 0 <= k < d.Length && !(4 * p <= k < 4 * p + 4) ==> d[k] == old(d[k])
  {
    hide Channel;
    var i := 4 * p;
    if s.a == 255 {
      d[i], d[i + 1], d[i + 2] := s.r, s.g, s.b;
      d[i + 3] := 255;
    } else {
      var invA: Byte := 255 - s.a;
      var dr, dg, db := d[i], d[i + 1], d[i + 2];
      var r := BlendChannel(s.r, invA, dr);
      var g := BlendChannel(s.g, invA, dg);
      var b := BlendChannel(s.b, invA, db);
      d[i], d[i + 1], d[i + 2] := r, g, b;
      d[i + 3] := 255;
    }
  }

  // The canvas blended over the surface view, whose pixels are opaque.
  method BlendCanvas(canvas: seq<Byte>, d: array<Byte>)
    requires d.Length % 4 == 0 && |canvas| == d.Length
    requires forall p :: 0 <= p < d.Length / 4 ==> PxAt(d, p).a == 255
    modifies d
    ensures forall p :: 0 <= p < d.Length / 4 ==> PxAt(d, p) == Over(PxOf(canvas, p), old(PxAt(d, p)))
  {
    var n := d.Length / 4;
    for p := 0 to n
      invariant forall q :: 0 <= q < p ==> PxAt(d, q) == Over(PxOf(canvas, q), old(PxAt(d, q)))
      invariant forall q :: p <= q < n ==> PxAt(d, q) == old(PxAt(d, q))
    {
      var s := PxOf(canvas, p);
      if s.a > 0 {
        DrawOver(s, d, p);
      }
    }
  }

  // i32 arithmetic wraps.
  function Wrap(n: int): (v: I32)
    ensures -0x8000_0000 <= n < 0x8000_0000 ==> v == n
  {
    var m := n % U32_LIMIT;
    if m < 0x8000_0000 then m else m - U32_LIMIT
  }

  // The range of overlay rows (or columns) inside a base of n, at position y with size len.
  function RangeStart(y: I32): nat
  {
    if Wrap(-(y as int)) > 0 then Wrap(-(y as int)) else 0
  }

  function RangeEnd(y: I32, n: nat, len: nat): nat
    requires n < DIM_LIMIT && len < DIM_LIMIT
  {
    var e := Wrap(n as int - y as int);
    if e < 0 then 0 else if e > len then len else e
  }

  // For every i32 position, wrap-around included, the range is exactly the part inside the base.
  lemma RangeIs(y: I32, n: nat, len: nat, k: nat)
    requires n < DIM_LIMIT && len < DIM_LIMIT
    ensures RangeStart(y) <= k < RangeEnd(y, n, len) <==> k < len && 0 <= y + k < n
  {
  }

  // Pixel p comes before (row, col) in row order.
  predicate Before(stride: nat, p: nat, row: int, col: int)
    requires stride > 0
  {
    p / stride < row || (p / stride == row && p % stride < col)
  }

  // The overlay reaches row r (column c) of the base.
  predicate RowHit(ov: Overlay, h: nat, r: int)
  {
    0 <= r < h && 0 <= r - ov.y < ov.height
  }

  predicate ColHit(ov: Overlay, w: nat, c: int)
  {
    0 <= c < w && 0 <= c - ov.x < ov.width
  }

  // Pixels before (row, col) are covered, the others still as they were.
  ghost predicate CoveredUpTo(ov: Overlay, w: nat, h: nat, stride: nat, d: array<Byte>, orig: seq<Byte>, row: int, col: int)
    requires OverlayOk(ov) && stride > 0 && d.Length == |orig| == stride * h * 4
    reads d
  {
    forall p :: 0 <= p < stride * h ==>
      PxAt(d, p) == if Before(stride, p, row, col) then Covered(ov, w, h, stride, p, PxOf(orig, p)) else PxOf(orig, p)
  }

  lemma MissedColumn(ov: Overlay, w: nat, h: nat, stride: nat, p: nat, below: Px)
    requires OverlayOk(ov) && stride > 0
    ensures !ColHit(ov, w, p % stride) ==> Covered(ov, w, h, stride, p, below) == below
  {
    hide Over;
    MissedAt(ov, w, h, p / stride, p % stride);
  }

  lemma MissedAt(ov: Overlay, w: nat, h: nat, sy: int, sx: int)
    requires OverlayOk(ov)
    ensures !ColHit(ov, w, sx) || !RowHit(ov, h, sy) ==> OverlayAt(ov, w, h, sy, sx) == None
  {
  }

  lemma MissedRow(ov: Overlay, w: nat, h: nat, stride: nat, p: nat, below: Px)
    requires OverlayOk(ov) && stride > 0
    ensures !RowHit(ov, h, p / stride) ==> Covered(ov, w, h, stride, p, below) == below
  {
    hide Over;
    MissedAt(ov, w, h, p / stride, p % stride);
  }

  // Moving on over columns the overlay does not reach.
  lemma SkipColumns(ov: Overlay, w: nat, h: nat, stride: nat, d: array<Byte>, orig: seq<Byte>, row: int, c0: int, c1: int)
    requires OverlayOk(ov) && stride > 0 && d.Length == |orig| == stride * h * 4
    requires CoveredUpTo(ov, w, h, stride, d, orig, row, c0)
    requires forall c {:trigger ColHit(ov, w, c)} :: c0 <= c < c1 ==> !ColHit(ov, w, c)
    requires c0 <= c1
    ensures CoveredUpTo(ov, w, h, stride, d, orig, row, c1)
  {
    hide Over, Covered;
    forall p | 0 <= p < stride * h
      ensures PxAt(d, p) ==
              if Before(stride, p, row, c1) then Covered(ov, w, h, stride, p, PxOf(orig, p)) else PxOf(orig, p)
    {
      DivMod(p, stride);
      MissedColumn(ov, w, h, stride, p, PxOf(orig, p));
      var hit := ColHit(ov, w, p % stride);
    }
  }

  // Moving on to the next row after the last column.
  lemma NextRow(ov: Overlay, w: nat, h: nat, stride: nat, d: array<Byte>, orig: seq<Byte>, row: int)
    requires OverlayOk(ov) && stride > 0 && d.Length == |orig| == stride * h * 4
    requires CoveredUpTo(ov, w, h, stride, d, orig, row, stride)
    ensures CoveredUpTo(ov, w, h, stride, d, orig, row + 1, 0)
  {
    hide Over, Covered;
    forall p | 0 <= p < stride * h
      ensures Before(stride, p, row + 1, 0) == Before(stride, p, row, stride)
    {
      DivMod(p, stride);
    }
  }

  // Rows the overlay does not reach.
  lemma SkipRows(ov: Overlay, w: nat, h: nat, stride: nat, d: array<Byte>, orig: seq<Byte>, r0: int, r1: int)
    requires OverlayOk(ov) && stride > 0 && d.Length == |orig| == stride * h * 4
    requires CoveredUpTo(ov, w, h, stride, d, orig, r0, 0)
    requires forall r {:trigger RowHit(ov, h, r)} :: r0 <= r < r1 ==> !RowHit(ov, h, r)
    requires r0 <= r1
    ensures CoveredUpTo(ov, w, h, stride, d, orig, r1, 0)
  {
    hide Over, Covered;
    forall p | 0 <= p < stride * h
      ensures PxAt(d, p) ==
              if Before(stride, p, r1, 0) then Covered(ov, w, h, stride, p, PxOf(orig, p)) else PxOf(orig, p)
    {
      DivMod(p, stride);
      MissedRow(ov, w, h, stride, p, PxOf(orig, p));
      var hit := RowHit(ov, h, p / stride);
    }
  }

  // Drawing the overlay pixel at (row, col).
  method DrawAt(ov: Overlay, w: nat, h: nat, stride: nat, d: array<Byte>, ghost orig: seq<Byte>, oy: nat, ox: nat)
    requires OverlayOk(ov) && w <= stride && d.Length == |orig| == stride * h * 4 && stride > 0
    requires oy < ov.height && ox < ov.width && 0 <= ov.y + oy < h && 0 <= ov.x + ox < w
    requires CoveredUpTo(ov, w, h, stride, d, orig, ov.y + oy, ov.x + ox)
    modifies d
    ensures CoveredUpTo(ov, w, h, stride, d, orig, ov.y + oy, ov.x + ox + 1)
  {
    hide Over, Covered, CoveredUpTo, WasCovered, PxOf;
    var sy: nat, sx: nat := ov.y + oy, ov.x + ox;
    var oPx, bPx := oy * ov.stride + ox, sy * stride + sx;
    InRows(ov.stride, ov.height, oy, ox);
    InRows(stride, h, sy, sx);
    var s := PxOf(ov.pixels, oPx);
    ghost var before := d[..];
    StillThere(ov, w, h, stride, d, orig, sy, sx);
    CoveredIs(ov, w, h, stride, oy, ox, PxOf(orig, bPx));
    if s.a > 0 {
      DrawOver(s, d, bPx);
    } else {
      OverTransparent(s, PxOf(orig, bPx));
    }
    OneMoreCovered(ov, w, h, stride, d, before, orig, sy, sx);
  }

  // The pixel about to be drawn over is still as it was.
  lemma StillThere(ov: Overlay, w: nat, h: nat, stride: nat, d: array<Byte>, orig: seq<Byte>, sy: nat, sx: nat)
    requires OverlayOk(ov) && d.Length == |orig| == stride * h * 4 && sx < stride && sy < h
    requires CoveredUpTo(ov, w, h, stride, d, orig, sy, sx)
    ensures sy * stride + sx < stride * h && PxAt(d, sy * stride + sx) == PxOf(orig, sy * stride + sx)
    ensures WasCovered(ov, w, h, stride, d[..], orig, sy, sx)
  {
    hide Covered;
    forall p | 0 <= p < stride * h
      ensures PxAt(d, p) == PxOf(d[..], p)
    {
    }
    InRows(stride, h, sy, sx);
    RowCol(stride, sy, sx);
  }

  lemma CoveredIs(ov: Overlay, w: nat, h: nat, stride: nat, oy: nat, ox: nat, below: Px)
    requires OverlayOk(ov) && w <= stride && oy < ov.height && ox < ov.width
    requires 0 <= ov.y + oy < h && 0 <= ov.x + ox < w
    ensures oy * ov.stride + ox < ov.stride * ov.height
    ensures Covered(ov, w, h, stride, (ov.y + oy) * stride + (ov.x + ox), below)
            == Over(PxOf(ov.pixels, oy * ov.stride + ox), below)
  {
    hide Over, PxOf;
    InRows(ov.stride, ov.height, oy, ox);
    RowCol(stride, ov.y + oy, ov.x + ox);
  }

  // CoveredUpTo of an array's contents.
  ghost predicate WasCovered(ov: Overlay, w: nat, h: nat, stride: nat, before: seq<Byte>, orig: seq<Byte>, row: int, col: int)
    requires OverlayOk(ov) && stride > 0 && |before| == |orig| == stride * h * 4
  {
    forall p :: 0 <= p < stride * h ==>
      PxOf(before, p) == if Before(stride, p, row, col) then Covered(ov, w, h, stride, p, PxOf(orig, p)) else PxOf(orig, p)
  }

  lemma OneMoreCovered(ov: Overlay, w: nat, h: nat, stride: nat, d: array<Byte>, before: seq<Byte>, orig: seq<Byte>,
                       sy: nat, sx: nat)
    requires OverlayOk(ov) && |before| == d.Length == |orig| == stride * h * 4 && sx < stride && sy < h
    requires WasCovered(ov, w, h, stride, before, orig, sy, sx)
    requires forall k :: 0 <= k < d.Length && !(4 * (sy * stride + sx) <= k < 4 * (sy * stride + sx) + 4) ==> d[k] == before[k]
    requires sy * stride + sx < stride * h
    requires PxAt(d, sy * stride + sx) == Covered(ov, w, h, stride, sy * stride + sx, PxOf(orig, sy * stride + sx))
    ensures CoveredUpTo(ov, w, h, stride, d, orig, sy, sx + 1)
  {
    hide Covered;
    RowCol(stride, sy, sx);
    forall p | 0 <= p < stride * h
      ensures PxAt(d, p) == if Before(stride, p, sy, sx + 1) then Covered(ov, w, h, stride, p, PxOf(orig, p))
                            else PxOf(orig, p)
    {
      DivMod(p, stride);
      if p != sy * stride + sx {
        assert PxAt(d, p) == PxOf(before, p);
      }
    }
  }

  lemma OverTransparent(s: Px, d: Px)
    requires s.a == 0
    ensures Over(s, d) == d
  {
  }

  method BlendOverlay(ov: Overlay, w: nat, h: nat, stride: nat, d: array<Byte>)
    requires OverlayOk(ov) && w <= stride && d.Length == stride * h * 4 < 0x8000_0000
    requires w < DIM_LIMIT && h < DIM_LIMIT
    modifies d
    ensures forall p :: 0 <= p < stride * h ==> PxAt(d, p) == Covered(ov, w, h, stride, p, old(PxAt(d, p)))
  {
    hide Over, Covered, RangeStart, RangeEnd, CoveredUpTo;
    if stride == 0 {
      return;
    }
    ghost var orig := d[..];
    var oyStart, oyEnd := RangeStart(ov.y), RangeEnd(ov.y, h, ov.height);
    var oxStart, oxEnd := RangeStart(ov.x), RangeEnd(ov.x, w, ov.width);
    Ranges(ov, w, h);
    var oy := oyStart;
    NothingCovered(ov, w, h, stride, d, orig);
    if oxStart < oxEnd {
      assert ColHit(ov, w, ov.x + oxStart) && ColHit(ov, w, ov.x + oxEnd - 1);
    }
    if oyStart < oyEnd {
      assert RowHit(ov, h, ov.y + oyStart) && RowHit(ov, h, ov.y + oyEnd - 1);
      SkipRows(ov, w, h, stride, d, orig, 0, ov.y + oyStart);
    }
    while oy < oyEnd
      invariant oyStart <= oy && (oyStart < oyEnd ==> oy <= oyEnd)
      invariant CoveredUpTo(ov, w, h, stride, d, orig, if oyStart < oyEnd then ov.y + oy else 0, 0)
    {
      var ox := oxStart;
      if oxStart < oxEnd {
        SkipColumns(ov, w, h, stride, d, orig, ov.y + oy, 0, ov.x + oxStart);
      }
      while ox < oxEnd
        invariant oxStart <= ox && (oxStart < oxEnd ==> ox <= oxEnd)
        invariant CoveredUpTo(ov, w, h, stride, d, orig, ov.y + oy, if oxStart < oxEnd then ov.x + ox else 0)
      {
        assert ColHit(ov, w, ov.x + ox) && RowHit(ov, h, ov.y + oy);
        DrawAt(ov, w, h, stride, d, orig, oy, ox);
        ox := ox + 1;
      }
      SkipColumns(ov, w, h, stride, d, orig, ov.y + oy, if oxStart < oxEnd then ov.x + ox else 0, stride);
      NextRow(ov, w, h, stride, d, orig, ov.y + oy);
      oy := oy + 1;
    }
    SkipRows(ov, w, h, stride, d, orig, if oyStart < oyEnd then ov.y + oy else 0, h);
    AllCovered(ov, w, h, stride, d, orig);
    assert forall p :: 0 <= p < stride * h ==> PxOf(orig, p) == old(PxAt(d, p));
  }

  // The loops run over exactly the overlay rows and columns inside the base.
  lemma Ranges(ov: Overlay, w: nat, h: nat)
    requires OverlayOk(ov) && w < DIM_LIMIT && h < DIM_LIMIT
    ensures forall r {:trigger RowHit(ov, h, r)} ::
              RowHit(ov, h, r) <==> RangeStart(ov.y) <= r - ov.y < RangeEnd(ov.y, h, ov.height)
    ensures forall c {:trigger ColHit(ov, w, c)} ::
              ColHit(ov, w, c) <==> RangeStart(ov.x) <= c - ov.x < RangeEnd(ov.x, w, ov.width)
  {
    forall r {:trigger RowHit(ov, h, r)}
      ensures RowHit(ov, h, r) <==> RangeStart(ov.y) <= r - ov.y < RangeEnd(ov.y, h, ov.height)
    {
      if r >= ov.y {
        RangeIs(ov.y, h, ov.height, r - ov.y);
      }
    }
    forall c {:trigger ColHit(ov, w, c)}
      ensures ColHit(ov, w, c) <==> RangeStart(ov.x) <= c - ov.x < RangeEnd(ov.x, w, ov.width)
    {
      if c >= ov.x {
        RangeIs(ov.x, w, ov.width, c - ov.x);
      }
    }
  }

  lemma NothingCovered(ov: Overlay, w: nat, h: nat, stride: nat, d: array<Byte>, orig: seq<Byte>)
    requires OverlayOk(ov) && stride > 0 && d.Length == |orig| == stride * h * 4 && orig == d[..]
    ensures CoveredUpTo(ov, w, h, stride, d, orig, 0, 0)
  {
    hide Covered;
  }

  lemma AllCovered(ov: Overlay, w: nat, h: nat, stride: nat, d: array<Byte>, orig: seq<Byte>)
    requires OverlayOk(ov) && stride > 0 && d.Length == |orig| == stride * h * 4
    requires CoveredUpTo(ov, w, h, stride, d, orig, h, 0)
    ensures forall p :: 0 <= p < stride * h ==> PxAt(d, p) == Covered(ov, w, h, stride, p, PxOf(orig, p))
  {
    hide Covered;
    forall p | 0 <= p < stride * h
      ensures Before(stride, p, h, 0)
    {
      DivMod(p, stride);
      MulLe(h, p / stride, stride);
      assert stride * h == h * stride;
    }
  }

  method SwizzlePass(d: array<Byte>)
    requires d.Length % 4 == 0
    modifies d
    ensures forall p :: 0 <= p < d.Length / 4 ==> PxAt(d, p) == Swizzled(old(PxAt(d, p)))
  {
    var n := d.Length / 4;
    for p := 0 to n
      invariant forall q :: 0 <= q < p ==> PxAt(d, q) == Swizzled(old(PxAt(d, q)))
      invariant forall q :: p <= q < n ==> PxAt(d, q) == old(PxAt(d, q))
    {
      var i := 4 * p;
      var r, b := d[i], d[i + 2];
      d[i] := b;
      d[i + 2] := r;
    }
  }

  // present_composite on one buffer slot d.
  method PresentComposite(surfaceView: Option<seq<Byte>>, canvas: seq<Byte>, overlay: Option<Overlay>, swizzle: bool,
                          w: nat, h: nat, stride: nat, d: array<Byte>)
    requires w <= stride && d.Length == stride * h * 4 < 0x8000_0000 && w < DIM_LIMIT && h < DIM_LIMIT
    requires overlay.Some? ==> OverlayOk(overlay.value)
    modifies d
    ensures forall p :: 0 <= p < stride * h ==>
              PxAt(d, p) == FramePx(surfaceView, canvas, overlay, swizzle, w, h, stride, p, old(PxAt(d, p)))
  {
    hide Over, CopiedPx, Covered, OverlayOk;
    ghost var n := stride * h;
    assert d.Length / 4 == n && d.Length % 4 == 0;
    if surfaceView.Some? {
      CopyOpaque(surfaceView.value, d);
      if canvas != [] && |canvas| == d.Length {
        BlendCanvas(canvas, d);
      }
    } else if canvas != [] {
      CopyOpaque(canvas, d);
    }
    assert forall p :: 0 <= p < n ==> PxAt(d, p) == BasePx(surfaceView, canvas, d.Length, p, old(PxAt(d, p)));
    if overlay.Some? {
      BlendOverlay(overlay.value, w, h, stride, d);
    }
    if swizzle {
      SwizzlePass(d);
    }
  }

  // ---------- what the frame looks like ----------

  // px is pixel p of the layer, opaque, with what was there before where the layer is too short.
  predicate LaidDown(layer: seq<Byte>, p: nat, was: Px, px: Px)
  {
    && px.a == 255
    && px.r == (if 4 * p < |layer| then layer[4 * p] else was.r)
    && px.g == (if 4 * p + 1 < |layer| then layer[4 * p + 1] else was.g)
    && px.b == (if 4 * p + 2 < |layer| then layer[4 * p + 2] else was.b)
  }

  // The overlay's pixel s at row oy and column ox lies over pixel p of the base.
  predicate LandsAt(ov: Overlay, w: nat, h: nat, stride: nat, oy: nat, ox: nat, p: nat, s: Px)
  {
    && oy < ov.height && ox < ov.width && 0 <= ov.y + oy < h && 0 <= ov.x + ox < w
    && p == (ov.y + oy) * stride + (ov.x + ox)
    && 4 * (oy * ov.stride + ox) + 4 <= |ov.pixels| && s == PxOf(ov.pixels, oy * ov.stride + ox)
  }

  lemma ShownLands(ov: Overlay, w: nat, h: nat, stride: nat, p: nat) returns (oy: nat, ox: nat)
    requires OverlayOk(ov) && w <= stride && OverlayPx(ov, w, h, stride, p).Some?
    ensures LandsAt(ov, w, h, stride, oy, ox, p, OverlayPx(ov, w, h, stride, p).value)
  {
    hide PxOf;
    oy, ox := p / stride - ov.y, p % stride - ov.x;
    DivMod(p, stride);
    InRows(ov.stride, ov.height, oy, ox);
  }

  lemma LandsShown(ov: Overlay, w: nat, h: nat, stride: nat, oy: nat, ox: nat, p: nat, s: Px)
    requires OverlayOk(ov) && w <= stride && LandsAt(ov, w, h, stride, oy, ox, p, s)
    ensures OverlayPx(ov, w, h, stride, p) == Some(s)
  {
    hide PxOf;
    RowCol(stride, ov.y + oy, ov.x + ox);
    InRows(ov.stride, ov.height, oy, ox);
  }

  // The overlay shows s at pixel p of the base exactly when its pixel at some row and column lies there.
  lemma OverlayIff(ov: Overlay, w: nat, h: nat, stride: nat, p: nat, s: Px)
    requires OverlayOk(ov) && w <= stride
    ensures OverlayPx(ov, w, h, stride, p) == Some(s) <==> exists oy: nat, ox: nat :: LandsAt(ov, w, h, stride, oy, ox, p, s)
  {
    hide LandsAt, OverlayPx;
    if OverlayPx(ov, w, h, stride, p) == Some(s) {
      var oy, ox := ShownLands(ov, w, h, stride, p);
    }
    if oy: nat, ox: nat :| LandsAt(ov, w, h, stride, oy, ox, p, s) {
      LandsShown(ov, w, h, stride, oy, ox, p, s);
    }
  }

  // A pixel of the frame, layer by layer: the surface view or else the canvas at the bottom, then the
  // canvas over the surface view if it has the size of the buffer, then the overlay, then the order of
  // the channels. Without any canvas the buffer keeps what it held.
  lemma FrameIs(surfaceView: Option<seq<Byte>>, canvas: seq<Byte>, overlay: Option<Overlay>, swizzle: bool,
                w: nat, h: nat, stride: nat, p: nat, was: Px)
      returns (bottom: Px, base: Px, full: Px)
    requires overlay.Some? ==> OverlayOk(overlay.value)
    requires p < stride * h
    ensures if surfaceView.Some? then LaidDown(surfaceView.value, p, was, bottom)
            else if canvas != [] then LaidDown(canvas, p, was, bottom)
            else bottom == was
    ensures if surfaceView.Some? && |canvas| == stride * h * 4 then Drawn(PxOf(canvas, p), bottom, base)
            else base == bottom
    ensures var top := if overlay.Some? then OverlayPx(overlay.value, w, h, stride, p) else None;
            if top.Some? then Drawn(top.value, base, full) else full == base
    ensures FramePx(surfaceView, canvas, overlay, swizzle, w, h, stride, p, was)
            == if swizzle then Px(full.b, full.g, full.r, full.a) else full
    ensures surfaceView.Some? || canvas != [] ==> full.a == 255
  {
    hide Over, Drawn, OverlayPx;
    var size := stride * h * 4;
    bottom := if surfaceView.Some? then Opaque(CopiedPx(surfaceView.value, p, was))
              else if canvas != [] then Opaque(CopiedPx(canvas, p, was))
              else was;
    base := BasePx(surfaceView, canvas, size, p, was);
    full := if overlay.Some? then Covered(overlay.value, w, h, stride, p, base) else base;
    if surfaceView.Some? && |canvas| == size {
      DrawnIff(PxOf(canvas, p), bottom, base);
      OverOpaque(PxOf(canvas, p), bottom);
    }
    if overlay.Some? && OverlayPx(overlay.value, w, h, stride, p).Some? {
      var s := OverlayPx(overlay.value, w, h, stride, p).value;
      DrawnIff(s, base, full);
      OverOpaque(s, base);
    }
  }

  lemma OverOpaque(s: Px, d: Px)
    ensures d.a == 255 ==> Over(s, d).a == 255
  {
  }
}
