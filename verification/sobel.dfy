/** planar_functions.cc and row_common.cc: the Sobel edge filter over three rows of grey that
    take turns in one buffer.  Pixels are whole values; the grey of a pixel and what is made of
    the two edges are parameters, as they are function pointers in the source. */
module Sobel {
  import opened Edges
  import opened Planar
  import opened Views

  // ----- what the filter is

  function Clamp255(v: int): byte {
    if v > 255 then 255 else if v < 0 then 0 else v
  }

  function Edge(a: byte, b: byte, c: byte, aSub: byte, bSub: byte, cSub: byte): byte {
    Clamp255(Abs(Minus(a, aSub) + Minus(b, bSub) * 2 + Minus(c, cSub)))
  }

  function Luma<P>(m: seq<P>, v: View, grey: P -> byte, x: int, y: int): byte {
    if 0 <= v.At(x, y) < |m| then grey(m[v.At(x, y)]) else 0
  }

  /** The grey of the pixel nearest to (x, y). */
  function Grey<P>(m: seq<P>, v: View, w: int, h: int, grey: P -> byte, x: int, y: int): byte {
    Luma(m, v, grey, Clamp(x, w), Clamp(y, h))
  }

  function SobelX<P>(m: seq<P>, v: View, w: int, h: int, grey: P -> byte, x: int, y: int): byte {
    Edge(Grey(m, v, w, h, grey, x - 1, y - 1), Grey(m, v, w, h, grey, x - 1, y), Grey(m, v, w, h, grey, x - 1, y + 1),
         Grey(m, v, w, h, grey, x + 1, y - 1), Grey(m, v, w, h, grey, x + 1, y), Grey(m, v, w, h, grey, x + 1, y + 1))
  }

  function SobelY<P>(m: seq<P>, v: View, w: int, h: int, grey: P -> byte, x: int, y: int): byte {
    Edge(Grey(m, v, w, h, grey, x - 1, y - 1), Grey(m, v, w, h, grey, x, y - 1), Grey(m, v, w, h, grey, x + 1, y - 1),
         Grey(m, v, w, h, grey, x - 1, y + 1), Grey(m, v, w, h, grey, x, y + 1), Grey(m, v, w, h, grey, x + 1, y + 1))
  }

  function SobelImage<P, Q>(m: seq<P>, v: View, w: int, h: int, grey: P -> byte, combine: (byte, byte) -> Q)
    : (int, int) -> Q
  {
    (x, y) => combine(SobelX(m, v, w, h, grey, x, y), SobelY(m, v, w, h, grey, x, y))
  }

  // ----- grey rows

  /** Cells r - 1 .. r + w + 1 hold row y and its two replicated ends. */
  ghost predicate GreyRow<P>(rows: seq<byte>, r: int, m: seq<P>, v: View, w: int, h: int, grey: P -> byte, y: int) {
    && 1 <= r && r + w + 1 <= |rows|
    && forall k | r - 1 <= k < r + w + 1 :: rows[k] == Grey(m, v, w, h, grey, k - r, y)
  }

  lemma GreyRowKept<P>(before: seq<byte>, after: seq<byte>, r: int, m: seq<P>, v: View, w: int, h: int, grey: P -> byte,
                       y: int)
    requires GreyRow(before, r, m, v, w, h, grey, y) && |after| == |before|
    requires forall k | r - 1 <= k < r + w + 1 :: after[k] == before[k]
    ensures GreyRow(after, r, m, v, w, h, grey, y)
  {
    hide Grey;
  }

  /** Above the first row and below the last there is only that row. */
  lemma GreyRowClamped<P>(rows: seq<byte>, r: int, m: seq<P>, v: View, w: int, h: int, grey: P -> byte, y: int, z: int)
    requires GreyRow(rows, r, m, v, w, h, grey, y) && Clamp(y, h) == Clamp(z, h)
    ensures GreyRow(rows, r, m, v, w, h, grey, z)
  {
    hide Luma;
  }

  lemma GreyAt<P>(m: seq<P>, s: int, stride: int, w: int, h: int, grey: P -> byte, y: int, sp: int)
    requires InBounds(Plane(s, stride), w, h, |m|) && 0 < w && 0 <= y < h && sp == s + y * stride
    ensures 0 <= sp && sp + w <= |m|
    ensures forall x | 0 <= x < w :: grey(m[sp + x]) == Grey(m, Plane(s, stride), w, h, grey, x, y)
  {
    PlaneRow(s, stride, w, h, |m|, y);
    hide View.At;
  }

  /** One row of the source in grey, its first pixel once more before it and its last one `pad`
      times behind it. */
  method ConvertRow<P>(src: array<P>, sp: int, rows: array<byte>, r: int, width: int, pad: nat, grey: P -> byte,
                       ghost s: int, ghost stride: int, ghost height: int, ghost y: int)
    requires 0 < width && 0 <= y < height && InBounds(Plane(s, stride), width, height, src.Length)
    requires sp == s + y * stride
    requires 1 <= r && 1 <= pad && r + width + pad <= rows.Length
    requires src as object != rows
    modifies rows
    ensures GreyRow(rows[..], r, src[..], Plane(s, stride), width, height, grey, y)
    ensures forall k | 0 <= k < rows.Length && !(r - 1 <= k < r + width + pad) :: rows[k] == old(rows[k])
  {
    hide InBounds, Grey, Plane;
    ghost var v, m := Plane(s, stride), src[..];
    GreyAt(m, s, stride, width, height, grey, y, sp);
    var x := 0;
    while x < width
      invariant 0 <= x <= width
      invariant forall k | r <= k < r + x :: rows[k] == Grey(m, v, width, height, grey, k - r, y)
      invariant forall k | 0 <= k < rows.Length && !(r <= k < r + x) :: rows[k] == old(rows[k])
    {
      assert grey(m[sp + x]) == Grey(m, v, width, height, grey, x, y);
      rows[r + x] := grey(src[sp + x]);
      x := x + 1;
    }
    rows[r - 1] := rows[r];
    var p := 0;
    while p < pad
      invariant 0 <= p <= pad
      invariant forall k | r <= k < r + width :: rows[k] == Grey(m, v, width, height, grey, k - r, y)
      invariant rows[r - 1] == rows[r]
      invariant p >= 1 ==> rows[r + width] == rows[r + width - 1]
      invariant forall k | 0 <= k < rows.Length && !(r - 1 <= k < r + width + p) :: rows[k] == old(rows[k])
    {
      rows[r + width + p] := rows[r + width - 1];
      p := p + 1;
    }
    GreyEnds(m, v, width, height, grey, y);
  }

  lemma GreyEnds<P>(m: seq<P>, v: View, w: int, h: int, grey: P -> byte, y: int)
    requires 0 < w
    ensures Grey(m, v, w, h, grey, -1, y) == Grey(m, v, w, h, grey, 0, y)
    ensures Grey(m, v, w, h, grey, w, y) == Grey(m, v, w, h, grey, w - 1, y)
  {
  }

  // ----- the two edge kernels

  function Across(rows: seq<byte>, a: int, b: int, c: int, i: int): byte
    requires 0 <= a + i && a + i + 2 < |rows| && 0 <= b + i && b + i + 2 < |rows| && 0 <= c + i && c + i + 2 < |rows|
  {
    Edge(rows[a + i], rows[b + i], rows[c + i], rows[a + i + 2], rows[b + i + 2], rows[c + i + 2])
  }

  function Down(rows: seq<byte>, a: int, c: int, i: int): byte
    requires 0 <= a + i && a + i + 2 < |rows| && 0 <= c + i && c + i + 2 < |rows|
  {
    Edge(rows[a + i], rows[a + i + 1], rows[a + i + 2], rows[c + i], rows[c + i + 1], rows[c + i + 2])
  }

  /** SobelXRow_C: the three rows are given from their cell before the first. */
  method SobelXRow(rows: array<byte>, a: int, b: int, c: int, d: int, width: nat)
    requires 0 <= d && d + width <= a && d + width <= b && d + width <= c
    requires a + width + 2 <= rows.Length && b + width + 2 <= rows.Length && c + width + 2 <= rows.Length
    modifies rows
    ensures forall k | d <= k < d + width :: rows[k] == Across(old(rows[..]), a, b, c, k - d)
    ensures forall k | 0 <= k < rows.Length && !(d <= k < d + width) :: rows[k] == old(rows[k])
  {
    hide Edge;
    ghost var before := rows[..];
    var i := 0;
    while i < width
      invariant 0 <= i <= width
      invariant forall k | d <= k < d + i :: rows[k] == Across(before, a, b, c, k - d)
      invariant forall k | 0 <= k < rows.Length && !(d <= k < d + i) :: rows[k] == before[k]
    {
      rows[d + i] := Edge(rows[a + i], rows[b + i], rows[c + i], rows[a + i + 2], rows[b + i + 2], rows[c + i + 2]);
      i := i + 1;
    }
  }

  /** SobelYRow_C: the rows above and below. */
  method SobelYRow(rows: array<byte>, a: int, c: int, d: int, width: nat)
    requires 0 <= d && d + width <= a && d + width <= c
    requires a + width + 2 <= rows.Length && c + width + 2 <= rows.Length
    modifies rows
    ensures forall k | d <= k < d + width :: rows[k] == Down(old(rows[..]), a, c, k - d)
    ensures forall k | 0 <= k < rows.Length && !(d <= k < d + width) :: rows[k] == old(rows[k])
  {
    hide Edge;
    ghost var before := rows[..];
    var i := 0;
    while i < width
      invariant 0 <= i <= width
      invariant forall k | d <= k < d + i :: rows[k] == Down(before, a, c, k - d)
      invariant forall k | 0 <= k < rows.Length && !(d <= k < d + i) :: rows[k] == before[k]
    {
      rows[d + i] := Edge(rows[a + i], rows[a + i + 1], rows[a + i + 2], rows[c + i], rows[c + i + 1], rows[c + i + 2]);
      i := i + 1;
    }
  }

  lemma EdgesFrom<P>(rows: seq<byte>, r0: int, r1: int, r2: int, m: seq<P>, v: View, w: int, h: int, grey: P -> byte,
                     x: int, y: int)
    requires GreyRow(rows, r0, m, v, w, h, grey, y - 1) && GreyRow(rows, r1, m, v, w, h, grey, y)
    requires GreyRow(rows, r2, m, v, w, h, grey, y + 1)
    requires 0 <= x < w
    ensures Across(rows, r0 - 1, r1 - 1, r2 - 1, x) == SobelX(m, v, w, h, grey, x, y)
    ensures Down(rows, r0 - 1, r2 - 1, x) == SobelY(m, v, w, h, grey, x, y)
  {
    hide Edge, Grey;
    Three(rows, r0, m, v, w, h, grey, x, y - 1);
    Three(rows, r1, m, v, w, h, grey, x, y);
    Three(rows, r2, m, v, w, h, grey, x, y + 1);
  }

  lemma Three<P>(rows: seq<byte>, r: int, m: seq<P>, v: View, w: int, h: int, grey: P -> byte, x: int, y: int)
    requires GreyRow(rows, r, m, v, w, h, grey, y) && 0 <= x < w
    ensures rows[r - 1 + x] == Grey(m, v, w, h, grey, x - 1, y)
    ensures rows[r - 1 + x + 1] == Grey(m, v, w, h, grey, x, y)
    ensures rows[r - 1 + x + 2] == Grey(m, v, w, h, grey, x + 1, y)
  {
    hide Grey;
    assert rows[x + r - 1] == Grey(m, v, w, h, grey, x + r - 1 - r, y);
    assert rows[x + r] == Grey(m, v, w, h, grey, x + r - r, y);
    assert rows[x + r + 1] == Grey(m, v, w, h, grey, x + r + 1 - r, y);
  }

  // ----- the ring of three

  /** Three slots from `base` on, `size` apart, in some order. */
  predicate Ring(base: int, size: int, r0: int, r1: int, r2: int) {
    || (r0 == base && r1 == base + size && r2 == base + 2 * size)
    || (r1 == base && r2 == base + size && r0 == base + 2 * size)
    || (r2 == base && r0 == base + size && r1 == base + 2 * size)
  }

  /** The upper two rows of the window are in place. */
  ghost predicate Primed<P>(rows: seq<byte>, r0: int, r1: int, m: seq<P>, v: View, w: int, h: int, grey: P -> byte,
                            y: int) {
    GreyRow(rows, r0, m, v, w, h, grey, y - 1) && GreyRow(rows, r1, m, v, w, h, grey, y)
  }

  /** The lower row is converted over the oldest one; the other two stay. */
  method FillLowest<P>(src: array<P>, sp: int, rows: array<byte>, r0: int, r1: int, r2: int, base: int, size: int,
                       width: int, grey: P -> byte,
                       ghost s: int, ghost stride: int, ghost height: int, ghost y: int)
    requires 0 < width && 0 <= y < height && InBounds(Plane(s, stride), width, height, src.Length)
    requires sp == s + (if y < height - 1 then y + 1 else y) * stride
    requires src as object != rows && 1 <= base && width + 2 <= size && base + 3 * size <= rows.Length
    requires Ring(base, size, r0, r1, r2)
    requires Primed(rows[..], r0, r1, src[..], Plane(s, stride), width, height, grey, y)
    modifies rows
    ensures Primed(rows[..], r0, r1, src[..], Plane(s, stride), width, height, grey, y)
    ensures GreyRow(rows[..], r2, src[..], Plane(s, stride), width, height, grey, y + 1)
  {
    ghost var m, v, before := src[..], Plane(s, stride), rows[..];
    ghost var z := if y < height - 1 then y + 1 else y;
    hide InBounds, GreyRow, Plane;
    ConvertRow(src, sp, rows, r2, width, 1, grey, s, stride, height, z);
    GreyRowKept(before, rows[..], r0, m, v, width, height, grey, y - 1);
    GreyRowKept(before, rows[..], r1, m, v, width, height, grey, y);
    GreyRowClamped(rows[..], r2, m, v, width, height, grey, z, y + 1);
  }

  /** Both edges of row y, in the scratch rows at 0 and at `size`. */
  ghost predicate EdgesDone<P>(rows: seq<byte>, size: int, m: seq<P>, v: View, w: int, h: int, grey: P -> byte,
                               y: int) {
    && w <= size && size + w <= |rows|
    && (forall k | 0 <= k < w :: rows[k] == SobelX(m, v, w, h, grey, k, y))
    && (forall k | size <= k < size + w :: rows[k] == SobelY(m, v, w, h, grey, k - size, y))
  }

  method FindEdges<P>(rows: array<byte>, r0: int, r1: int, r2: int, base: int, size: int, width: int,
                      ghost m: seq<P>, ghost v: View, ghost height: int, ghost grey: P -> byte, ghost y: int)
    requires 0 < width && width + 2 <= size && 2 * size < base && base + 3 * size <= rows.Length
    requires Ring(base, size, r0, r1, r2)
    requires Primed(rows[..], r0, r1, m, v, width, height, grey, y)
    requires GreyRow(rows[..], r2, m, v, width, height, grey, y + 1)
    modifies rows
    ensures GreyRow(rows[..], r1, m, v, width, height, grey, y)
    ensures GreyRow(rows[..], r2, m, v, width, height, grey, y + 1)
    ensures EdgesDone(rows[..], size, m, v, width, height, grey, y)
  {
    hide GreyRow, SobelX, SobelY, Across, Down;
    ghost var before := rows[..];
    forall x | 0 <= x < width
      ensures Across(before, r0 - 1, r1 - 1, r2 - 1, x) == SobelX(m, v, width, height, grey, x, y)
      ensures Down(before, r0 - 1, r2 - 1, x) == SobelY(m, v, width, height, grey, x, y)
    {
      EdgesFrom(before, r0, r1, r2, m, v, width, height, grey, x, y);
    }
    SobelXRow(rows, r0 - 1, r1 - 1, r2 - 1, 0, width);
    ghost var between := rows[..];
    SobelYRow(rows, r0 - 1, r2 - 1, size, width);
    forall k | size <= k < size + width ensures rows[k] == SobelY(m, v, width, height, grey, k - size, y) {
      DownKept(before, between, r0 - 1, r2 - 1, k - size);
    }
    GreyRowKept(before, rows[..], r1, m, v, width, height, grey, y);
    GreyRowKept(before, rows[..], r2, m, v, width, height, grey, y + 1);
  }

  lemma DownKept(before: seq<byte>, after: seq<byte>, a: int, c: int, x: int)
    requires 0 <= a + x && 0 <= c + x && a + x + 2 < |before| && c + x + 2 < |before| && |after| == |before|
    requires forall k | a + x <= k < a + x + 3 :: after[k] == before[k]
    requires forall k | c + x <= k < c + x + 3 :: after[k] == before[k]
    ensures Down(after, a, c, x) == Down(before, a, c, x)
  {
    hide Edge;
  }

  /** The row kernel the caller chose, pixel by pixel. */
  method CombineRow<P, Q>(rows: array<byte>, size: int, dst: array<Q>, ghost d: int, ghost dstStride: int, dp: int,
                          width: int, ghost height: int, ghost y: int,
                          combine: (byte, byte) -> Q, ghost m: seq<P>, ghost v: View, ghost grey: P -> byte,
                          ghost m0: seq<Q>)
    requires rows as object != dst && 0 < width && 0 <= y < height && dp == d + y * dstStride
    requires InBounds(Plane(d, dstStride), width, height, dst.Length) && Distinct(Plane(d, dstStride), width, height)
    requires |m0| == dst.Length
    requires EdgesDone(rows[..], size, m, v, width, height, grey, y)
    requires Made(m0, dst[..], Plane(d, dstStride), width, y, SobelImage(m, v, width, height, grey, combine))
    modifies dst
    ensures Made(m0, dst[..], Plane(d, dstStride), width, y + 1, SobelImage(m, v, width, height, grey, combine))
  {
    hide InBounds, Distinct, Made, SobelX, SobelY, View.At, SobelImage;
    ghost var m1, image := dst[..], SobelImage(m, v, width, height, grey, combine);
    PlaneRow(d, dstStride, width, height, dst.Length, y);
    var x := 0;
    while x < width
      invariant 0 <= x <= width
      invariant forall k | dp <= k < dp + x :: dst[k] == image(k - dp, y)
      invariant forall k | 0 <= k < dst.Length && !(dp <= k < dp + x) :: dst[k] == m1[k]
    {
      ImageAt(m, v, width, height, grey, combine, x, y);
      assert rows[..][size + x] == SobelY(m, v, width, height, grey, size + x - size, y);
      assert rows[..][x] == SobelX(m, v, width, height, grey, x, y);
      dst[dp + x] := combine(rows[x], rows[size + x]);
      x := x + 1;
    }
    MadeRow(m0, m1, dst[..], d, dstStride, dp, width, y, height, image);
  }

  lemma ImageAt<P, Q>(m: seq<P>, v: View, w: int, h: int, grey: P -> byte, combine: (byte, byte) -> Q, x: int, y: int)
    ensures SobelImage(m, v, w, h, grey, combine)(x, y)
      == combine(SobelX(m, v, w, h, grey, x, y), SobelY(m, v, w, h, grey, x, y))
  {
  }

  /** The size of a row buffer: sixteen more than the width, rounded up to 32. */
  function RowSize(width: int): int {
    (width + 16 + 31) / 32 * 32
  }

  lemma RowSizeBound(width: int)
    requires 0 < width
    ensures width + 16 <= RowSize(width)
  {
  }

  lemma Cycled<P>(rows: seq<byte>, r1: int, r2: int, m: seq<P>, v: View, w: int, h: int, grey: P -> byte, y: int)
    requires GreyRow(rows, r1, m, v, w, h, grey, y) && GreyRow(rows, r2, m, v, w, h, grey, y + 1)
    ensures Primed(rows, r1, r2, m, v, w, h, grey, y + 1)
  {
  }

  /** Sixteen zeros behind the third row, which no result depends on. */
  method ClearTail<P>(rows: array<byte>, ghost r0: int, ghost r1: int, r2: int, width: int, ghost m: seq<P>,
                      ghost v: View, ghost h: int, ghost grey: P -> byte)
    requires 0 < width && r1 + width + 1 <= r2 + width && r0 + width + 1 <= r2 + width && 0 <= r2
    requires r2 + width + 16 <= rows.Length
    requires Primed(rows[..], r0, r1, m, v, width, h, grey, 0)
    modifies rows
    ensures Primed(rows[..], r0, r1, m, v, width, h, grey, 0)
  {
    hide GreyRow;
    ghost var before := rows[..];
    forall k | r2 + width <= k < r2 + width + 16 {
      rows[k] := 0;
    }
    GreyRowInside(before, r0, m, v, width, h, grey, -1);
    GreyRowInside(before, r1, m, v, width, h, grey, 0);
    GreyRowKept(before, rows[..], r0, m, v, width, h, grey, -1);
    GreyRowKept(before, rows[..], r1, m, v, width, h, grey, 0);
  }

  lemma GreyRowInside<P>(rows: seq<byte>, r: int, m: seq<P>, v: View, w: int, h: int, grey: P -> byte, y: int)
    requires GreyRow(rows, r, m, v, w, h, grey, y)
    ensures 1 <= r && r + w + 1 <= |rows|
  {
  }

  method SobelRows<P, Q>(src: array<P>, s: int, stride: int, dst: array<Q>, d: int, dstStride: int, width: int,
                         height: int,
                         grey: P -> byte, combine: (byte, byte) -> Q)
    requires src as object != dst && 0 < width && 0 < height
    requires InBounds(Plane(s, stride), width, height, src.Length)
    requires InBounds(Plane(d, dstStride), width, height, dst.Length) && Distinct(Plane(d, dstStride), width, height)
    modifies dst
    ensures Made(old(dst[..]), dst[..], Plane(d, dstStride), width, height,
                 SobelImage(src[..], Plane(s, stride), width, height, grey, combine))
  {
    hide InBounds, Distinct, Made, GreyRow, Primed, EdgesDone, SobelImage, View.At, Plane, RowSize;
    ghost var m0, m, v := dst[..], src[..], Plane(s, stride);
    ghost var image := SobelImage(m, v, width, height, grey, combine);
    var size := RowSize(width);
    RowSizeBound(width);
    var base := size * 2 + 16;
    var rows := new byte[size * 2 + (16 + size * 3 + 16)];
    var r0, r1, r2 := base, base + size, base + 2 * size;
    ConvertRow(src, s, rows, r0, width, 16, grey, s, stride, height, 0);
    ghost var first := rows[..];
    ConvertRow(src, s, rows, r1, width, 16, grey, s, stride, height, 0);
    GreyRowKept(first, rows[..], r0, m, v, width, height, grey, 0);
    GreyRowClamped(rows[..], r0, m, v, width, height, grey, 0, -1);
    Cycled(rows[..], r0, r1, m, v, width, height, grey, -1);
    ClearTail(rows, r0, r1, r2, width, m, v, height, grey);
    NothingMade(m0, Plane(d, dstStride), width, image);
    var sp, dp, y := s, d, 0;
    while y < height
      invariant 0 <= y <= height && dp == d + y * dstStride
      invariant sp == s + (if y < height then y else height - 1) * stride
      invariant Ring(base, size, r0, r1, r2)
      invariant y < height ==> Primed(rows[..], r0, r1, m, v, width, height, grey, y)
      invariant Made(m0, dst[..], Plane(d, dstStride), width, y, image)
    {
      if y < height - 1 {
        sp := sp + stride;
      }
      FillLowest(src, sp, rows, r0, r1, r2, base, size, width, grey, s, stride, height, y);
      FindEdges(rows, r0, r1, r2, base, size, width, m, v, height, grey, y);
      CombineRow(rows, size, dst, d, dstStride, dp, width, height, y, combine, m, v, grey, m0);
      Cycled(rows[..], r1, r2, m, v, width, height, grey, y);
      var rt := r0;
      r0 := r1;
      r1 := r2;
      r2 := rt;
      dp := dp + dstStride;
      y := y + 1;
    }
  }

  /** The whole filter; a negative height reads the image bottom up. */
  method ARGBSobelize<P, Q>(src: array?<P>, s: int, srcStride: int, dst: array?<Q>, d: int, dstStride: int, width: int,
                            height: int,
                            grey: P -> byte, combine: (byte, byte) -> Q) returns (status: int)
    requires src != null && dst != null && 0 < width ==>
      && src as object != dst && InBounds(Plane(s, srcStride), width, Abs(height), src.Length)
      && InBounds(Plane(d, dstStride), width, Abs(height), dst.Length)
      && Distinct(Plane(d, dstStride), width, Abs(height))
    modifies if dst == null then {} else {dst}
    ensures status == if src == null || dst == null || width <= 0 || height == 0 then -1 else 0
    ensures status == -1 && dst != null ==> dst[..] == old(dst[..])
    ensures status == 0 ==>
      Made(old(dst[..]), dst[..], Plane(d, dstStride), width, Abs(height),
           SobelImage(src[..], Upright(Plane(s, srcStride), height), width, Abs(height), grey, combine))
  {
    hide InBounds, Distinct, Made, SobelImage, View.At;
    if src == null || dst == null || width <= 0 || height == 0 {
      return -1;
    }
    var h, sp, stride := height, s, srcStride;
    if h < 0 {
      h := -h;
      sp := sp + (h - 1) * stride;
      stride := -stride;
      FlipBounds(Plane(s, srcStride), width, h, src.Length);
      FlippedPlane(s, srcStride, h);
    }
    SobelRows(src, sp, stride, dst, d, dstStride, width, h, grey, combine);
    status := 0;
  }

  // ----- the three row kernels

  datatype Pixel = Pixel(b: byte, g: byte, r: byte, a: byte)

  function Plus(x: int, y: int): int {
    x + y
  }

  function SobelToPlane(x: byte, y: byte): byte {
    Clamp255(Plus(x, y))
  }

  function SobelPixel(x: byte, y: byte): Pixel {
    var s := Clamp255(Plus(x, y));
    Pixel(s, s, s, 255)
  }

  function SobelXYPixel(x: byte, y: byte): Pixel {
    Pixel(y, Clamp255(Plus(x, y)), x, 255)
  }

  /** RGBToYJ: weights that add up to 256, rounded. */
  function ToYJ(p: Pixel): byte {
    (Weight(77, p.r) + Weight(150, p.g) + Weight(29, p.b) + 128) / 256
  }

  function Weight(w: int, v: int): int {
    w * v
  }

  /** The grey of a pixel lies between its darkest and its brightest channel; grey stays as it is. */
  lemma GreyBetween(p: Pixel, lo: byte, hi: byte)
    requires lo <= p.r <= hi && lo <= p.g <= hi && lo <= p.b <= hi
    ensures lo <= ToYJ(p) <= hi
  {
  }

  /** The grey is the nearest integer to its weighted sum, and less than one away from the luma of
      ITU-R BT.601, section 2.5.1: 0.299 of red, 0.587 of green and 0.114 of blue. */
  lemma GreyIsLuma(p: Pixel)
    ensures -128 <= 256 * ToYJ(p) - (77 * p.r + 150 * p.g + 29 * p.b) <= 128
    ensures -1000 < 1000 * ToYJ(p) - (299 * p.r + 587 * p.g + 114 * p.b) < 1000
  {
  }

  method ARGBSobel(src: array?<Pixel>, s: int, srcStride: int, dst: array?<Pixel>, d: int, dstStride: int, width: int,
                   height: int)
    returns (status: int)
    requires src != null && dst != null && 0 < width ==>
      && src != dst && InBounds(Plane(s, srcStride), width, Abs(height), src.Length)
      && InBounds(Plane(d, dstStride), width, Abs(height), dst.Length)
      && Distinct(Plane(d, dstStride), width, Abs(height))
    modifies if dst == null then {} else {dst}
    ensures status == if src == null || dst == null || width <= 0 || height == 0 then -1 else 0
    ensures status == -1 && dst != null ==> dst[..] == old(dst[..])
    ensures status == 0 ==>
      Made(old(dst[..]), dst[..], Plane(d, dstStride), width, Abs(height),
           SobelImage(src[..], Upright(Plane(s, srcStride), height), width, Abs(height), ToYJ, SobelPixel))
  {
    hide *;
    status := ARGBSobelize(src, s, srcStride, dst, d, dstStride, width, height, ToYJ, SobelPixel);
  }

  method ARGBSobelToPlane(src: array?<Pixel>, s: int, srcStride: int, dst: array?<byte>, d: int, dstStride: int,
                          width: int, height: int)
    returns (status: int)
    requires src != null && dst != null && 0 < width ==>
      && InBounds(Plane(s, srcStride), width, Abs(height), src.Length)
      && InBounds(Plane(d, dstStride), width, Abs(height), dst.Length)
      && Distinct(Plane(d, dstStride), width, Abs(height))
    modifies if dst == null then {} else {dst}
    ensures status == if src == null || dst == null || width <= 0 || height == 0 then -1 else 0
    ensures status == -1 && dst != null ==> dst[..] == old(dst[..])
    ensures status == 0 ==>
      Made(old(dst[..]), dst[..], Plane(d, dstStride), width, Abs(height),
           SobelImage(src[..], Upright(Plane(s, srcStride), height), width, Abs(height), ToYJ, SobelToPlane))
  {
    hide *;
    status := ARGBSobelize(src, s, srcStride, dst, d, dstStride, width, height, ToYJ, SobelToPlane);
  }

  method ARGBSobelXY(src: array?<Pixel>, s: int, srcStride: int, dst: array?<Pixel>, d: int, dstStride: int, width: int,
                     height: int)
    returns (status: int)
    requires src != null && dst != null && 0 < width ==>
      && src != dst && InBounds(Plane(s, srcStride), width, Abs(height), src.Length)
      && InBounds(Plane(d, dstStride), width, Abs(height), dst.Length)
      && Distinct(Plane(d, dstStride), width, Abs(height))
    modifies if dst == null then {} else {dst}
    ensures status == if src == null || dst == null || width <= 0 || height == 0 then -1 else 0
    ensures status == -1 && dst != null ==> dst[..] == old(dst[..])
    ensures status == 0 ==>
      Made(old(dst[..]), dst[..], Plane(d, dstStride), width, Abs(height),
           SobelImage(src[..], Upright(Plane(s, srcStride), height), width, Abs(height), ToYJ, SobelXYPixel))
  {
    hide *;
    status := ARGBSobelize(src, s, srcStride, dst, d, dstStride, width, height, ToYJ, SobelXYPixel);
  }

  /** What is made of the two edges: their sum as far as a byte goes, alone, in all three colours, or with
      the edge across in red and the edge down in blue; every pixel is opaque. */
  lemma KernelResults(x: byte, y: byte)
    ensures var s := SobelToPlane(x, y);
      s <= x + y && (s == 255 || s == x + y)
    ensures var s, p := SobelToPlane(x, y), SobelPixel(x, y);
      p.b == p.g == p.r == s && p.a == 255
    ensures var s, p := SobelToPlane(x, y), SobelXYPixel(x, y);
      p.r == x && p.g == s && p.b == y && p.a == 255
  {
  }

  /** Red and blue trade places when the two edges do; the grey results do not notice. */
  lemma KernelsSwapped(x: byte, y: byte)
    ensures SobelToPlane(y, x) == SobelToPlane(x, y) && SobelPixel(y, x) == SobelPixel(x, y)
    ensures SobelXYPixel(y, x) == SobelXYPixel(x, y).(b := x, r := y)
  {
  }

  // ----- what the filter sees

  /** The image is black but for one pixel of grey g. */
  ghost predicate OnePoint<P>(m: seq<P>, v: View, w: int, h: int, grey: P -> byte, cx: int, cy: int, g: byte) {
    forall x, y | 0 <= x < w && 0 <= y < h :: Luma(m, v, grey, x, y) == if x == cx && y == cy then g else 0
  }

  /** The grey of that image, d columns and e rows from the point. */
  function Point(d: int, e: int, g: byte): byte {
    if d == 0 && e == 0 then g else 0
  }

  lemma PointGrey<P>(m: seq<P>, v: View, w: int, h: int, grey: P -> byte, cx: int, cy: int, g: byte, x: int, y: int)
    requires 0 < cx < w - 1 && 0 < cy < h - 1 && OnePoint(m, v, w, h, grey, cx, cy, g)
    ensures Grey(m, v, w, h, grey, x, y) == Point(x - cx, y - cy, g)
  {
    hide Luma;
  }

  lemma PointEdges(d: int, e: int, g: byte)
    ensures Edge(Point(d - 1, e - 1, g), Point(d - 1, e, g), Point(d - 1, e + 1, g),
                 Point(d + 1, e - 1, g), Point(d + 1, e, g), Point(d + 1, e + 1, g)) as int ==
      if d != -1 && d != 1 then 0
      else if e == 0 then (if 2 * g < 255 then 2 * g else 255) else if e == -1 || e == 1 then g else 0
  {
    if d == 1 {
    } else if d == -1 {
    } else {
    }
  }

  /** A point off the border shows in the edges across as g, 2 * g, g down the columns on either side
      of it and nowhere else, and in the edges down as the same turned. */
  lemma PointResponse<P>(m: seq<P>, v: View, w: int, h: int, grey: P -> byte, cx: int, cy: int, g: byte, x: int, y: int)
    requires 0 < cx < w - 1 && 0 < cy < h - 1 && OnePoint(m, v, w, h, grey, cx, cy, g)
    ensures SobelX(m, v, w, h, grey, x, y) as int ==
      if x != cx - 1 && x != cx + 1 then 0
      else if y == cy then (if 2 * g < 255 then 2 * g else 255) else if y == cy - 1 || y == cy + 1 then g else 0
    ensures SobelY(m, v, w, h, grey, x, y) as int ==
      if y != cy - 1 && y != cy + 1 then 0
      else if x == cx then (if 2 * g < 255 then 2 * g else 255) else if x == cx - 1 || x == cx + 1 then g else 0
  {
    hide Grey, OnePoint, Edge, Point;
    PointGrey(m, v, w, h, grey, cx, cy, g, x - 1, y - 1);
    PointGrey(m, v, w, h, grey, cx, cy, g, x - 1, y);
    PointGrey(m, v, w, h, grey, cx, cy, g, x - 1, y + 1);
    PointGrey(m, v, w, h, grey, cx, cy, g, x, y - 1);
    PointGrey(m, v, w, h, grey, cx, cy, g, x, y + 1);
    PointGrey(m, v, w, h, grey, cx, cy, g, x + 1, y - 1);
    PointGrey(m, v, w, h, grey, cx, cy, g, x + 1, y);
    PointGrey(m, v, w, h, grey, cx, cy, g, x + 1, y + 1);
    PointEdges(x - cx, y - cy, g);
    PointTurned(x - cx, y - cy, g);
    PointEdges(y - cy, x - cx, g);
  }

  lemma PointTurned(d: int, e: int, g: byte)
    ensures forall i, j :: Point(i, j, g) == Point(j, i, g)
  {
  }

  /** Around (x, y) the grey rises by d from column to column and by e from row to row. */
  ghost predicate Ramp<P>(m: seq<P>, v: View, w: int, h: int, grey: P -> byte, x: int, y: int, d: int, e: int) {
    forall i, j | x - 1 <= i <= x + 1 && y - 1 <= j <= y + 1 ::
      Grey(m, v, w, h, grey, i, j) as int == Grey(m, v, w, h, grey, x, y) + Plus(Step(i - x, d), Step(j - y, e))
  }

  function Step(k: int, d: int): int {
    k * d
  }

  /** On a slope the edges are eight times its two steps, as far as a byte goes. */
  lemma RampResponse<P>(m: seq<P>, v: View, w: int, h: int, grey: P -> byte, x: int, y: int, d: int, e: int)
    requires Ramp(m, v, w, h, grey, x, y, d, e)
    ensures SobelX(m, v, w, h, grey, x, y) as int == if 8 * Abs(d) < 255 then 8 * Abs(d) else 255
    ensures SobelY(m, v, w, h, grey, x, y) as int == if 8 * Abs(e) < 255 then 8 * Abs(e) else 255
  {
    hide Grey;
  }

  // ----- what the filter keeps

  lemma GreyTransposed<P>(m: seq<P>, v: View, w: int, h: int, grey: P -> byte, x: int, y: int)
    ensures Grey(m, v.Transposed(), h, w, grey, y, x) == Grey(m, v, w, h, grey, x, y)
  {
    TransposeAt(v, Clamp(y, h), Clamp(x, w));
    hide Clamp;
  }

  /** The edges down the transposed image are the edges across the image. */
  lemma EdgesTransposed<P>(m: seq<P>, v: View, w: int, h: int, grey: P -> byte, x: int, y: int)
    ensures SobelY(m, v.Transposed(), h, w, grey, y, x) == SobelX(m, v, w, h, grey, x, y)
    ensures SobelX(m, v.Transposed(), h, w, grey, y, x) == SobelY(m, v, w, h, grey, x, y)
  {
    hide Edge, Grey, View.Transposed;
    GreyTransposed(m, v, w, h, grey, x - 1, y - 1);
    GreyTransposed(m, v, w, h, grey, x - 1, y);
    GreyTransposed(m, v, w, h, grey, x - 1, y + 1);
    GreyTransposed(m, v, w, h, grey, x, y - 1);
    GreyTransposed(m, v, w, h, grey, x, y + 1);
    GreyTransposed(m, v, w, h, grey, x + 1, y - 1);
    GreyTransposed(m, v, w, h, grey, x + 1, y);
    GreyTransposed(m, v, w, h, grey, x + 1, y + 1);
  }

  lemma GreyFlipped<P>(m: seq<P>, v: View, w: int, h: int, grey: P -> byte, x: int, y: int)
    requires 0 < h
    ensures Grey(m, v.FlippedY(h), w, h, grey, x, y) == Grey(m, v, w, h, grey, x, h - 1 - y)
  {
    FlipAt(v, h, Clamp(x, w), Clamp(y, h));
    ClampReversed(y, h);
    hide Clamp, View.At, View.FlippedY;
  }

  lemma EdgeReversed(a: byte, b: byte, c: byte, d: byte, e: byte, f: byte)
    ensures Edge(a, b, c, d, e, f) == Edge(c, b, a, f, e, d) == Edge(d, e, f, a, b, c)
  {
  }

  /** Both edges of the image upside down are those of the image, upside down. */
  lemma EdgesFlipped<P>(m: seq<P>, v: View, w: int, h: int, grey: P -> byte, x: int, y: int)
    requires 0 < h
    ensures SobelX(m, v.FlippedY(h), w, h, grey, x, y) == SobelX(m, v, w, h, grey, x, h - 1 - y)
    ensures SobelY(m, v.FlippedY(h), w, h, grey, x, y) == SobelY(m, v, w, h, grey, x, h - 1 - y)
  {
    hide Edge, Grey, View.FlippedY;
    GreyFlipped(m, v, w, h, grey, x - 1, y - 1);
    GreyFlipped(m, v, w, h, grey, x - 1, y);
    GreyFlipped(m, v, w, h, grey, x - 1, y + 1);
    GreyFlipped(m, v, w, h, grey, x, y - 1);
    GreyFlipped(m, v, w, h, grey, x, y + 1);
    GreyFlipped(m, v, w, h, grey, x + 1, y - 1);
    GreyFlipped(m, v, w, h, grey, x + 1, y);
    GreyFlipped(m, v, w, h, grey, x + 1, y + 1);
    var z := h - 1 - y;
    EdgeReversed(Grey(m, v, w, h, grey, x - 1, z - 1), Grey(m, v, w, h, grey, x - 1, z),
                 Grey(m, v, w, h, grey, x - 1, z + 1),
                 Grey(m, v, w, h, grey, x + 1, z - 1), Grey(m, v, w, h, grey, x + 1, z),
                 Grey(m, v, w, h, grey, x + 1, z + 1));
    EdgeReversed(Grey(m, v, w, h, grey, x - 1, z - 1), Grey(m, v, w, h, grey, x, z - 1),
                 Grey(m, v, w, h, grey, x + 1, z - 1),
                 Grey(m, v, w, h, grey, x - 1, z + 1), Grey(m, v, w, h, grey, x, z + 1),
                 Grey(m, v, w, h, grey, x + 1, z + 1));
  }

  /** The filter of the transposed image is the transposed filter of the image, for both results
      that only add the two edges. */
  lemma SobelTransposed<P>(m: seq<P>, v: View, w: int, h: int, grey: P -> byte, x: int, y: int)
    ensures SobelImage(m, v.Transposed(), h, w, grey, SobelToPlane)(y, x)
      == SobelImage(m, v, w, h, grey, SobelToPlane)(x, y)
    ensures SobelImage(m, v.Transposed(), h, w, grey, SobelPixel)(y, x)
      == SobelImage(m, v, w, h, grey, SobelPixel)(x, y)
  {
    hide SobelX, SobelY, View.Transposed;
    EdgesTransposed(m, v, w, h, grey, x, y);
    KernelsSwapped(SobelX(m, v, w, h, grey, x, y), SobelY(m, v, w, h, grey, x, y));
  }
}
