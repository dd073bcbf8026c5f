/** The transpose kernels of rotate_common.cc, rotate_gcc.cc and rotate_any.cc. */
module TransposeKernels {
  import opened Views

  /** Eight source rows become eight adjacent bytes in each destination row. */
  method TransposeWx8C(src: array<byte>, s: int, srcStride: int, dst: array<byte>, d: int, dstStride: int, width: int)
    requires src != dst && 0 <= width
    requires InBounds(Plane(s, srcStride).Transposed(), 8, width, src.Length)
    requires InBounds(Plane(d, dstStride), 8, width, dst.Length) && Distinct(Plane(d, dstStride), 8, width)
    modifies dst
    ensures Copied(old(dst[..]), dst[..], Plane(d, dstStride), 8, width, src[..], Plane(s, srcStride).Transposed())
  {
    hide *;
    ghost var dv, sv := Plane(d, dstStride), Plane(s, srcStride).Transposed();
    ghost var m0 := dst[..];
    var sp, dp := s, d;
    var i := 0;
    CopiedNothing(m0, dv, 8, 0, src[..], sv);
    while i < width
      invariant 0 <= i <= width
      invariant sp == s + i && dp == d + i * dstStride
      invariant Copied(m0, dst[..], dv, 8, i, src[..], sv)
    {
      ghost var m1 := dst[..];
      RowsPart(dv, dst.Length, sv, src.Length, 8, width, i, 1);
      PlaneDown(d, dstStride, i);
      PlaneRight(s, srcStride, i);
      CopyEight(src, sp, srcStride, dst, dp, dstStride);
      StackRows(m0, m1, dst[..], dv, 8, i, 1, width, src[..], sv);
      sp := sp + 1;
      dp := dp + dstStride;
      i := i + 1;
    }
  }

  /** The unrolled body of the kernel: one source column becomes one destination row. */
  method CopyEight(src: array<byte>, sp: int, srcStride: int, dst: array<byte>, dp: int, ghost dstStride: int)
    requires src != dst
    requires InBounds(Plane(sp, srcStride).Transposed(), 8, 1, src.Length)
    requires InBounds(Plane(dp, dstStride), 8, 1, dst.Length)
    modifies dst
    ensures Copied(old(dst[..]), dst[..], Plane(dp, dstStride), 8, 1, src[..], Plane(sp, srcStride).Transposed())
  {
    hide *;
    ghost var dv, sv := Plane(dp, dstStride), Plane(sp, srcStride).Transposed();
    EightAddresses(dp, dstStride, dst.Length, sp, srcStride, src.Length);
    dst[dp + 0] := src[sp + 0 * srcStride];
    dst[dp + 1] := src[sp + 1 * srcStride];
    dst[dp + 2] := src[sp + 2 * srcStride];
    dst[dp + 3] := src[sp + 3 * srcStride];
    dst[dp + 4] := src[sp + 4 * srcStride];
    dst[dp + 5] := src[sp + 5 * srcStride];
    dst[dp + 6] := src[sp + 6 * srcStride];
    dst[dp + 7] := src[sp + 7 * srcStride];
    CopiedRow(old(dst[..]), dst[..], dv, 8, src[..], sv);
  }

  lemma EightAddresses(dp: int, dstStride: int, dstLen: int, sp: int, srcStride: int, srcLen: int)
    requires InBounds(Plane(sp, srcStride).Transposed(), 8, 1, srcLen)
    requires InBounds(Plane(dp, dstStride), 8, 1, dstLen)
    ensures 0 <= dp && dp + 8 <= dstLen
    ensures 0 <= sp < srcLen && 0 <= sp + srcStride < srcLen && 0 <= sp + 2 * srcStride < srcLen
    ensures 0 <= sp + 3 * srcStride < srcLen
    ensures 0 <= sp + 4 * srcStride < srcLen && 0 <= sp + 5 * srcStride < srcLen && 0 <= sp + 6 * srcStride < srcLen
    ensures 0 <= sp + 7 * srcStride < srcLen
    ensures Plane(dp, dstStride).off == dp && Plane(dp, dstStride).dx == 1
    ensures forall j | 0 <= j < 8 ::
      Plane(dp, dstStride).At(j, 0) == dp + j && Plane(sp, srcStride).Transposed().At(j, 0) == sp + j * srcStride
  {
    var dv, sv := Plane(dp, dstStride), Plane(sp, srcStride).Transposed();
    assert 0 <= dv.At(0, 0) && dv.At(7, 0) < dstLen;
    assert 0 <= sv.At(0, 0) < srcLen && 0 <= sv.At(1, 0) < srcLen && 0 <= sv.At(2, 0) < srcLen
      && 0 <= sv.At(3, 0) < srcLen;
    assert 0 <= sv.At(4, 0) < srcLen && 0 <= sv.At(5, 0) < srcLen && 0 <= sv.At(6, 0) < srcLen
      && 0 <= sv.At(7, 0) < srcLen;
  }

  // ----- TransposeWx8_SSSE3, register by register

  type Xmm = r: seq<byte> | |r| == 16 witness seq(16, _ => 0)

  /** movq load: eight bytes, upper half cleared. */
  function MovqLoad(mem: seq<byte>, p: int): Xmm
    requires 0 <= p && p + 8 <= |mem|
  {
    mem[p..p + 8] + [0, 0, 0, 0, 0, 0, 0, 0]
  }

  function Punpcklbw(a: Xmm, b: Xmm): Xmm {
    [a[0], b[0], a[1], b[1], a[2], b[2], a[3], b[3], a[4], b[4], a[5], b[5], a[6], b[6], a[7], b[7]]
  }

  function Punpcklwd(a: Xmm, b: Xmm): Xmm {
    [a[0], a[1], b[0], b[1], a[2], a[3], b[2], b[3], a[4], a[5], b[4], b[5], a[6], a[7], b[6], b[7]]
  }

  function Punpckldq(a: Xmm, b: Xmm): Xmm {
    [a[0], a[1], a[2], a[3], b[0], b[1], b[2], b[3], a[4], a[5], a[6], a[7], b[4], b[5], b[6], b[7]]
  }

  /** palignr $8 of a register with itself swaps its halves. */
  function Palignr8(a: Xmm): Xmm {
    [a[8], a[9], a[10], a[11], a[12], a[13], a[14], a[15], a[0], a[1], a[2], a[3], a[4], a[5], a[6], a[7]]
  }

  /** Columns i and i + 1 of eight rows, as two rows of eight. */
  ghost function TwoColumns(r: seq<Xmm>, i: int): Xmm
    requires |r| == 8 && 0 <= i < 7
  {
    [r[0][i], r[1][i], r[2][i], r[3][i], r[4][i], r[5][i], r[6][i], r[7][i],
     r[0][i + 1], r[1][i + 1], r[2][i + 1], r[3][i + 1], r[4][i + 1], r[5][i + 1], r[6][i + 1], r[7][i + 1]]
  }

  /** The three rounds of unpacking.  Register r_j enters holding source row j; each output
      leaves holding two destination rows, in the order the stores use them. */
  method UnpackNetwork(r0: Xmm, r1: Xmm, r2: Xmm, r3: Xmm, r4: Xmm, r5: Xmm, r6: Xmm, r7: Xmm)
    returns (q0: Xmm, q2: Xmm, q1: Xmm, q3: Xmm)
    ensures var r := [r0, r1, r2, r3, r4, r5, r6, r7];
      q0 == TwoColumns(r, 0) && q2 == TwoColumns(r, 2) && q1 == TwoColumns(r, 4) && q3 == TwoColumns(r, 6)
  {
    // Bytes of two rows side by side.
    var xmm0 := Punpcklbw(r0, r1);
    var xmm1 := Palignr8(xmm0);
    var xmm2 := Punpcklbw(r2, r3);
    var xmm3 := Palignr8(xmm2);
    var xmm4 := Punpcklbw(r4, r5);
    var xmm5 := Palignr8(xmm4);
    var xmm6 := Punpcklbw(r6, r7);
    var xmm7 := Palignr8(xmm6);
    // Pairs of two rows side by side: four rows in each register.
    xmm0 := Punpcklwd(xmm0, xmm2);
    xmm1 := Punpcklwd(xmm1, xmm3);
    xmm2 := Palignr8(xmm0);
    xmm3 := Palignr8(xmm1);
    xmm4 := Punpcklwd(xmm4, xmm6);
    xmm5 := Punpcklwd(xmm5, xmm7);
    xmm6 := Palignr8(xmm4);
    xmm7 := Palignr8(xmm5);
    // All eight rows, two columns to a register.
    q0 := Punpckldq(xmm0, xmm4);
    q2 := Punpckldq(xmm2, xmm6);
    q1 := Punpckldq(xmm1, xmm5);
    q3 := Punpckldq(xmm3, xmm7);
  }

  /** movq store of the low half of a register. */
  method MovqStore(dst: array<byte>, p: int, ghost stride: int, xmm: Xmm)
    requires InBounds(Plane(p, stride), 8, 1, dst.Length)
    modifies dst
    ensures Copied(old(dst[..]), dst[..], Plane(p, stride), 8, 1, xmm, Plane(0, 8))
  {
    RowAddresses(p, stride, dst.Length);
    RowAddresses(0, 8, 16);
    forall j | 0 <= j < 8 {
      dst[p + j] := xmm[j];
    }
    CopiedRow(old(dst[..]), dst[..], Plane(p, stride), 8, xmm, Plane(0, 8));
  }

  lemma RowAddresses(p: int, stride: int, len: int)
    requires (0 <= p && p + 8 <= len) || InBounds(Plane(p, stride), 8, 1, len)
    ensures 0 <= p && p + 8 <= len && InBounds(Plane(p, stride), 8, 1, len)
    ensures forall j | 0 <= j < 8 :: Plane(p, stride).At(j, 0) == p + j
  {
    if InBounds(Plane(p, stride), 8, 1, len) {
      assert 0 <= Plane(p, stride).At(0, 0) && Plane(p, stride).At(7, 0) < len;
    }
  }

  /** A store of each half of a register, the second one destination row further down. */
  method StorePair(dst: array<byte>, dp: int, dstStride: int, xmm: Xmm)
    requires InBounds(Plane(dp, dstStride), 8, 2, dst.Length) && Distinct(Plane(dp, dstStride), 8, 2)
    modifies dst
    ensures Copied(old(dst[..]), dst[..], Plane(dp, dstStride), 8, 2, xmm, Plane(0, 8))
  {
    hide *;
    ghost var dv, sv, m0 := Plane(dp, dstStride), Plane(0, 8), dst[..];
    HalfAddresses(xmm);
    ShiftZero(dv);
    RowsPart(dv, dst.Length, sv, 16, 8, 2, 0, 1);
    RowsPart(dv, dst.Length, sv, 16, 8, 2, 1, 1);
    PlaneDown(dp, dstStride, 1);
    PlaneDown(0, 8, 1);
    MovqStore(dst, dp, dstStride, xmm);
    ghost var m1 := dst[..];
    var swapped := Palignr8(xmm);
    MovqStore(dst, dp + dstStride, dstStride, swapped);
    CopiedVia(m1, dst[..], dv.Shift(0, 1), 8, 1, swapped, sv, xmm, sv.Shift(0, 1));
    StackRows(m0, m1, dst[..], dv, 8, 1, 1, 2, xmm, sv);
  }

  lemma HalfSwapped(xmm: Xmm, x: int)
    requires 0 <= x < 8
    ensures Palignr8(xmm)[x] == xmm[8 + x]
  {
  }

  lemma HalfCell(x: int, y: int)
    requires 0 <= x < 8 && 0 <= y < 2
    ensures Plane(0, 8).At(x, y) == x + 8 * y && Plane(0, 8).Shift(0, 1).At(x, 0) == 8 + x
  {
  }

  lemma HalfAddresses(xmm: Xmm)
    ensures InBounds(Plane(0, 8), 8, 2, 16)
    ensures forall x, y | 0 <= x < 8 && 0 <= y < 1 ::
      Palignr8(xmm)[Plane(0, 8).At(x, y)] == xmm[Plane(0, 8).Shift(0, 1).At(x, y)]
  {
    hide View.At, View.Shift, Plane, Palignr8;
    forall x, y | 0 <= x < 8 && 0 <= y < 2
      ensures 0 <= Plane(0, 8).At(x, y) < 16
    {
      HalfCell(x, y);
    }
    forall x, y | 0 <= x < 8 && 0 <= y < 1
      ensures 0 <= Plane(0, 8).Shift(0, 1).At(x, y) < 16
    {
      HalfCell(x, y);
    }
    forall x, y | 0 <= x < 8 && 0 <= y < 1
      ensures Palignr8(xmm)[Plane(0, 8).At(x, y)] == xmm[Plane(0, 8).Shift(0, 1).At(x, y)]
    {
      HalfCell(x, y);
      HalfSwapped(xmm, x);
    }
  }

  /** The columns the kernel goes through: it tests its counter after the work, so a width of zero
      still costs a tile. */
  function Tiled(width: int): int {
    if width == 0 then 8 else width
  }

  /** A tile of eight by eight at a time, in eight registers. */
  method TransposeWx8Ssse3(src: array<byte>, s: int, srcStride: int, dst: array<byte>, d: int, dstStride: int,
                           width: int)
    requires src != dst
    requires 0 <= width && width % 8 == 0
    requires InBounds(Plane(s, srcStride).Transposed(), 8, Tiled(width), src.Length)
    requires InBounds(Plane(d, dstStride), 8, Tiled(width), dst.Length)
    requires Distinct(Plane(d, dstStride), 8, Tiled(width))
    modifies dst
    ensures Copied(old(dst[..]), dst[..], Plane(d, dstStride), 8, Tiled(width), src[..],
                   Plane(s, srcStride).Transposed())
  {
    TiledWhole(width);
    ghost var cols, tiles := Tiled(width), Tiled(width) / 8;
    hide *;
    ghost var dv, sv, m0 := Plane(d, dstStride), Plane(s, srcStride).Transposed(), dst[..];
    CopiedNothing(m0, dv, 8, 0, src[..], sv);
    var sp, dp, n, again := s, d, width, true;
    ghost var k, i := 0, 0;
    while again
      invariant i == 8 * k && n == width - i && 0 <= k <= tiles && (again <==> k < tiles)
      invariant sp == s + i && dp == d + i * dstStride
      invariant Copied(m0, dst[..], dv, 8, i, src[..], sv)
      decreases tiles - k
    {
      ghost var m1 := dst[..];
      RowsPart(dv, dst.Length, sv, src.Length, 8, cols, i, 8);
      PlaneDown(d, dstStride, i);
      PlaneRight(s, srcStride, i);
      sp, dp := TransposeTile(src, sp, srcStride, dst, dp, dstStride);
      StackRows(m0, m1, dst[..], dv, 8, i, 8, cols, src[..], sv);
      NextTile(i, dstStride);
      n := n - 8;
      again := n > 0;
      k, i := k + 1, i + 8;
    }
  }

  lemma NextTile(i: int, stride: int)
    ensures (i + 8) * stride == i * stride + 8 * stride
  {
  }

  lemma TiledWhole(width: int)
    requires 0 <= width && width % 8 == 0
    ensures Tiled(width) == 8 * (Tiled(width) / 8) && 1 <= Tiled(width) / 8
    ensures width > 0 ==> Tiled(width) == width
    ensures width == 0 ==> Tiled(width) == 8
  {
  }

  ghost function EndToEnd(a: Xmm, b: Xmm, c: Xmm, d: Xmm): (r: seq<byte>)
    ensures |r| == 64
  {
    var ab: seq<byte> := a + b;
    var cd: seq<byte> := c + d;
    ab + cd
  }

  /** One pass of the loop: load, unpack, store. */
  method TransposeTile(src: array<byte>, s: int, srcStride: int, dst: array<byte>, d: int, dstStride: int)
    returns (sp: int, dp: int)
    requires src != dst
    requires InBounds(Plane(s, srcStride).Transposed(), 8, 8, src.Length)
    requires InBounds(Plane(d, dstStride), 8, 8, dst.Length) && Distinct(Plane(d, dstStride), 8, 8)
    modifies dst
    ensures sp == s + 8 && dp == d + 8 * dstStride
    ensures Copied(old(dst[..]), dst[..], Plane(d, dstStride), 8, 8, src[..], Plane(s, srcStride).Transposed())
  {
    hide *;
    ghost var m0 := dst[..];
    TileAddresses(s, srcStride, src.Length);
    TileHeld(src[..], s, srcStride);
    var q0, q2, q1, q3;
    sp, q0, q2, q1, q3 := LoadTile(src, s, srcStride);
    dp := StoreTile(dst, d, dstStride, q0, q2, q1, q3);
    ghost var q: seq<byte> := EndToEnd(q0, q2, q1, q3);
    CopiedVia(m0, dst[..], Plane(d, dstStride), 8, 8, q, Plane(0, 8), src[..], Plane(s, srcStride).Transposed());
  }

  predicate RowsFit(s: int, stride: int, len: int) {
    && 0 <= s && s + 8 <= len && 0 <= s + stride && s + stride + 8 <= len
    && 0 <= s + 2 * stride && s + 2 * stride + 8 <= len && 0 <= s + 3 * stride && s + 3 * stride + 8 <= len
    && 0 <= s + 4 * stride && s + 4 * stride + 8 <= len && 0 <= s + 5 * stride && s + 5 * stride + 8 <= len
    && 0 <= s + 6 * stride && s + 6 * stride + 8 <= len && 0 <= s + 7 * stride && s + 7 * stride + 8 <= len
  }

  /** The eight source rows under a tile. */
  ghost function TileRows(mem: seq<byte>, s: int, stride: int): (r: seq<Xmm>)
    requires RowsFit(s, stride, |mem|)
    ensures |r| == 8
  {
    [MovqLoad(mem, s), MovqLoad(mem, s + stride), MovqLoad(mem, s + 2 * stride), MovqLoad(mem, s + 3 * stride),
     MovqLoad(mem, s + 4 * stride), MovqLoad(mem, s + 5 * stride), MovqLoad(mem, s + 6 * stride),
     MovqLoad(mem, s + 7 * stride)]
  }

  /** Eight loads, two source rows per pointer step; the pointer then goes back up eight rows
      and right eight columns. */
  method LoadTile(src: array<byte>, s: int, srcStride: int) returns (sp: int, q0: Xmm, q2: Xmm, q1: Xmm, q3: Xmm)
    requires RowsFit(s, srcStride, src.Length)
    ensures sp == s + 8
    ensures var r := TileRows(src[..], s, srcStride);
      q0 == TwoColumns(r, 0) && q2 == TwoColumns(r, 2) && q1 == TwoColumns(r, 4) && q3 == TwoColumns(r, 6)
  {
    hide MovqLoad, TwoColumns;
    sp := s;
    var xmm0 := MovqLoad(src[..], sp);
    var xmm1 := MovqLoad(src[..], sp + srcStride);
    sp := sp + 2 * srcStride;
    var xmm2 := MovqLoad(src[..], sp);
    var xmm3 := MovqLoad(src[..], sp + srcStride);
    sp := sp + 2 * srcStride;
    var xmm4 := MovqLoad(src[..], sp);
    var xmm5 := MovqLoad(src[..], sp + srcStride);
    sp := sp + 2 * srcStride;
    var xmm6 := MovqLoad(src[..], sp);
    var xmm7 := MovqLoad(src[..], sp + srcStride);
    sp := sp + 2 * srcStride;
    sp := sp + 8 + 8 * -srcStride;
    q0, q2, q1, q3 := UnpackNetwork(xmm0, xmm1, xmm2, xmm3, xmm4, xmm5, xmm6, xmm7);
  }

  lemma TileAddresses(s: int, stride: int, len: int)
    requires InBounds(Plane(s, stride).Transposed(), 8, 8, len)
    ensures RowsFit(s, stride, len)
  {
    var v := Plane(s, stride).Transposed();
    assert 0 <= v.At(0, 0) && v.At(0, 7) < len && 0 <= v.At(1, 0) && v.At(1, 7) < len;
    assert 0 <= v.At(2, 0) && v.At(2, 7) < len && 0 <= v.At(3, 0) && v.At(3, 7) < len;
    assert 0 <= v.At(4, 0) && v.At(4, 7) < len && 0 <= v.At(5, 0) && v.At(5, 7) < len;
    assert 0 <= v.At(6, 0) && v.At(6, 7) < len && 0 <= v.At(7, 0) && v.At(7, 7) < len;
  }

  lemma TwoColumnsAt(r: seq<Xmm>, i: int, b: int, j: int)
    requires |r| == 8 && 0 <= i < 7 && 0 <= b < 2 && 0 <= j < 8
    ensures TwoColumns(r, i)[8 * b + j] == r[j][i + b]
  {
  }

  lemma ColumnsEndToEnd(r: seq<Xmm>, x: int, y: int)
    requires |r| == 8 && 0 <= x < 8 && 0 <= y < 8
    ensures EndToEnd(TwoColumns(r, 0), TwoColumns(r, 2), TwoColumns(r, 4), TwoColumns(r, 6))[8 * y + x] == r[x][y]
  {
    var p := if y < 2 then 0 else if y < 4 then 2 else if y < 6 then 4 else 6;
    hide TwoColumns;
    assert EndToEnd(TwoColumns(r, 0), TwoColumns(r, 2), TwoColumns(r, 4), TwoColumns(r, 6))[8 * y + x]
      == TwoColumns(r, p)[8 * (y - p) + x];
    TwoColumnsAt(r, p, y - p, x);
  }

  /** Byte x of destination row y, wherever the network put it, is byte y of source row x. */
  lemma TileHeld(mem: seq<byte>, s: int, stride: int)
    requires RowsFit(s, stride, |mem|) && InBounds(Plane(s, stride).Transposed(), 8, 8, |mem|)
    ensures InBounds(Plane(0, 8), 8, 8, 64)
    ensures var r := TileRows(mem, s, stride);
      forall x, y | 0 <= x < 8 && 0 <= y < 8 ::
        EndToEnd(TwoColumns(r, 0), TwoColumns(r, 2), TwoColumns(r, 4), TwoColumns(r, 6))[Plane(0, 8).At(x, y)]
          == mem[Plane(s, stride).Transposed().At(x, y)]
  {
    var r := TileRows(mem, s, stride);
    hide *;
    InTile(s, stride, |mem|);
    forall x, y | 0 <= x < 8 && 0 <= y < 8
      ensures EndToEnd(TwoColumns(r, 0), TwoColumns(r, 2), TwoColumns(r, 4), TwoColumns(r, 6))[Plane(0, 8).At(x, y)]
        == mem[Plane(s, stride).Transposed().At(x, y)]
    {
      TileHeldAt(mem, s, stride, x, y);
      TileAt(s, stride, x, y);
    }
  }

  lemma TileHeldAt(mem: seq<byte>, s: int, stride: int, x: int, y: int)
    requires RowsFit(s, stride, |mem|) && 0 <= x < 8 && 0 <= y < 8
    ensures 0 <= s + x * stride + y < |mem|
    ensures var r := TileRows(mem, s, stride);
      EndToEnd(TwoColumns(r, 0), TwoColumns(r, 2), TwoColumns(r, 4), TwoColumns(r, 6))[8 * y + x]
        == mem[s + x * stride + y]
  {
    hide *;
    TileRowAt(mem, s, stride, x);
    LoadAt(mem, s + x * stride, y);
    ColumnsEndToEnd(TileRows(mem, s, stride), x, y);
  }

  lemma InTile(s: int, stride: int, len: int)
    requires InBounds(Plane(s, stride).Transposed(), 8, 8, len)
    ensures InBounds(Plane(0, 8), 8, 8, 64)
    ensures forall x, y | 0 <= x < 8 && 0 <= y < 8 ::
      0 <= Plane(0, 8).At(x, y) < 64 && 0 <= Plane(s, stride).Transposed().At(x, y) < len
  {
  }

  lemma TileAt(s: int, stride: int, x: int, y: int)
    ensures Plane(0, 8).At(x, y) == 8 * y + x && Plane(s, stride).Transposed().At(x, y) == s + x * stride + y
  {
  }

  lemma TileRowAt(mem: seq<byte>, s: int, stride: int, x: int)
    requires RowsFit(s, stride, |mem|) && 0 <= x < 8
    ensures 0 <= s + x * stride && s + x * stride + 8 <= |mem|
    ensures TileRows(mem, s, stride)[x] == MovqLoad(mem, s + x * stride)
  {
    hide MovqLoad;
    if x < 4 {
      if x == 0 {} else if x == 1 {} else if x == 2 {} else {}
    } else {
      if x == 4 {} else if x == 5 {} else if x == 6 {} else {}
    }
  }

  lemma LoadAt(mem: seq<byte>, p: int, y: int)
    requires 0 <= p && p + 8 <= |mem| && 0 <= y < 8
    ensures MovqLoad(mem, p)[y] == mem[p + y]
  {
  }

  /** Each register holds two destination rows; four stores of a pair fill the tile. */
  method StoreTile(dst: array<byte>, d: int, dstStride: int, q0: Xmm, q2: Xmm, q1: Xmm, q3: Xmm) returns (dp: int)
    requires InBounds(Plane(d, dstStride), 8, 8, dst.Length) && Distinct(Plane(d, dstStride), 8, 8)
    requires InBounds(Plane(0, 8), 8, 8, 64)
    modifies dst
    ensures dp == d + 8 * dstStride
    ensures Copied(old(dst[..]), dst[..], Plane(d, dstStride), 8, 8, EndToEnd(q0, q2, q1, q3), Plane(0, 8))
  {
    hide *;
    ghost var dv, sv, q, m0 := Plane(d, dstStride), Plane(0, 8), EndToEnd(q0, q2, q1, q3), dst[..];
    PairHeld(q0, q2, q1, q3);
    ShiftZero(dv);
    ShiftZero(sv);
    RowsPart(dv, dst.Length, sv, 64, 8, 8, 0, 2);
    RowsPart(dv, dst.Length, sv, 64, 8, 8, 2, 2);
    RowsPart(dv, dst.Length, sv, 64, 8, 8, 4, 2);
    RowsPart(dv, dst.Length, sv, 64, 8, 8, 6, 2);
    PlaneDown(d, dstStride, 2);
    PlaneDown(d, dstStride, 4);
    PlaneDown(d, dstStride, 6);
    dp := d;
    StorePair(dst, dp, dstStride, q0);
    ghost var m2 := dst[..];
    CopiedVia(m0, m2, dv, 8, 2, q0, sv, q, sv);
    dp := dp + 2 * dstStride;
    StorePair(dst, dp, dstStride, q2);
    ghost var m4 := dst[..];
    CopiedVia(m2, m4, dv.Shift(0, 2), 8, 2, q2, sv, q, sv.Shift(0, 2));
    StackRows(m0, m2, m4, dv, 8, 2, 2, 8, q, sv);
    dp := dp + 2 * dstStride;
    StorePair(dst, dp, dstStride, q1);
    ghost var m6 := dst[..];
    CopiedVia(m4, m6, dv.Shift(0, 4), 8, 2, q1, sv, q, sv.Shift(0, 4));
    StackRows(m0, m4, m6, dv, 8, 4, 2, 8, q, sv);
    dp := dp + 2 * dstStride;
    StorePair(dst, dp, dstStride, q3);
    CopiedVia(m6, dst[..], dv.Shift(0, 6), 8, 2, q3, sv, q, sv.Shift(0, 6));
    StackRows(m0, m6, dst[..], dv, 8, 6, 2, 8, q, sv);
    dp := dp + 2 * dstStride;
  }

  lemma PairHeld(q0: Xmm, q2: Xmm, q1: Xmm, q3: Xmm)
    ensures var q := EndToEnd(q0, q2, q1, q3); var v := Plane(0, 8);
      forall x, y | 0 <= x < 8 && 0 <= y < 2 ::
        && 0 <= v.At(x, y) < 16 && 0 <= v.Shift(0, 2).At(x, y) < 64 && 0 <= v.Shift(0, 4).At(x, y) < 64
        && 0 <= v.Shift(0, 6).At(x, y) < 64
        && q[v.At(x, y)] == q0[v.At(x, y)]
        && q[v.Shift(0, 2).At(x, y)] == q2[v.At(x, y)]
        && q[v.Shift(0, 4).At(x, y)] == q1[v.At(x, y)]
        && q[v.Shift(0, 6).At(x, y)] == q3[v.At(x, y)]
  {
  }

  // ----- rotate_any.cc: the vector kernel for whole tiles, the C kernel for the remaining columns

  method TransposeWx8AnySsse3(src: array<byte>, s: int, srcStride: int, dst: array<byte>, d: int, dstStride: int,
                              width: int)
    requires src != dst && 0 <= width
    requires InBounds(Plane(s, srcStride).Transposed(), 8, width, src.Length)
    requires InBounds(Plane(d, dstStride), 8, width, dst.Length) && Distinct(Plane(d, dstStride), 8, width)
    modifies dst
    ensures Copied(old(dst[..]), dst[..], Plane(d, dstStride), 8, width, src[..], Plane(s, srcStride).Transposed())
  {
    hide *;
    ghost var dv, sv, m0 := Plane(d, dstStride), Plane(s, srcStride).Transposed(), dst[..];
    var r := width % 8;
    var n := width - r;
    RowsPart(dv, dst.Length, sv, src.Length, 8, width, 0, n);
    RowsPart(dv, dst.Length, sv, src.Length, 8, width, n, r);
    ShiftZero(dv);
    ShiftZero(sv);
    PlaneDown(d, dstStride, n);
    PlaneRight(s, srcStride, n);
    CopiedNothing(m0, dv, 8, 0, src[..], sv);
    if n > 0 {
      TiledWhole(n);
      TransposeWx8Ssse3(src, s, srcStride, dst, d, dstStride, n);
    }
    ghost var m1 := dst[..];
    TransposeWx8C(src, s + n, srcStride, dst, d + n * dstStride, dstStride, r);
    StackRows(m0, m1, dst[..], dv, 8, n, r, width, src[..], sv);
  }

  // ----- the rows that do not fill a tile

  method TransposeWxHC(src: array<byte>, s: int, srcStride: int, dst: array<byte>, d: int, dstStride: int, width: int,
                       height: int)
    requires src != dst && 0 <= width && 0 <= height
    requires InBounds(Plane(s, srcStride).Transposed(), height, width, src.Length)
    requires InBounds(Plane(d, dstStride), height, width, dst.Length) && Distinct(Plane(d, dstStride), height, width)
    modifies dst
    ensures Copied(old(dst[..]), dst[..], Plane(d, dstStride), height, width, src[..], Plane(s, srcStride).Transposed())
  {
    hide *;
    ghost var dv, sv, m0 := Plane(d, dstStride), Plane(s, srcStride).Transposed(), dst[..];
    CopiedNothing(m0, dv, height, 0, src[..], sv);
    var i := 0;
    while i < width
      invariant 0 <= i <= width
      invariant Copied(m0, dst[..], dv, height, i, src[..], sv)
    {
      ghost var m1, rd, rs := dst[..], dv.Shift(0, i), sv.Shift(0, i);
      RowsPart(dv, dst.Length, sv, src.Length, height, width, i, 1);
      CopiedNothing(m1, rd, 0, 1, src[..], rs);
      var j := 0;
      while j < height
        invariant 0 <= j <= height
        invariant Copied(m1, dst[..], rd, j, 1, src[..], rs)
      {
        ghost var m2 := dst[..];
        ColumnsPart(rd, dst.Length, rs, src.Length, height, 1, j, 1);
        TransposedCell(d, dstStride, s, srcStride, i, j);
        CellBounds(rd.Shift(j, 0), dst.Length);
        CellBounds(rs.Shift(j, 0), src.Length);
        dst[d + i * dstStride + j] := src[s + j * srcStride + i];
        CopiedCell(m2, rd.Shift(j, 0), src[..], rs.Shift(j, 0));
        assert dst[..] == m2[d + i * dstStride + j := src[s + j * srcStride + i]];
        StackColumns(m1, m2, dst[..], rd, j, 1, height, 1, src[..], rs);
        j := j + 1;
      }
      StackRows(m0, m1, dst[..], dv, height, i, 1, width, src[..], sv);
      i := i + 1;
    }
  }

  lemma TransposedCell(d: int, dstStride: int, s: int, srcStride: int, i: int, j: int)
    ensures Plane(d, dstStride).Shift(0, i).Shift(j, 0).off == d + i * dstStride + j
    ensures Plane(s, srcStride).Transposed().Shift(0, i).Shift(j, 0).off == s + j * srcStride + i
  {
  }
}
