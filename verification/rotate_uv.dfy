/** rotate_common.cc and rotate.cc on interleaved chroma: each transpose or rotation also
    splits U from V into two planes. */
module RotateUV {
  import opened Views
  import opened Rows
  import opened Planar
  import opened Rotate

  /** Both destination planes, made from U and from V. */
  ghost predicate UVCopied(a0: seq<byte>, a1: seq<byte>, av: View, b0: seq<byte>, b1: seq<byte>, bv: View, w: int,
                           h: int,
                           src: seq<byte>, us: View, vs: View)
  {
    Copied(a0, a1, av, w, h, src, us) && Copied(b0, b1, bv, w, h, src, vs)
  }

  ghost predicate UVRoom(av: View, aLen: int, bv: View, bLen: int, us: View, vs: View, srcLen: int, w: int, h: int) {
    && InBounds(av, w, h, aLen) && Distinct(av, w, h) && InBounds(us, w, h, srcLen)
    && InBounds(bv, w, h, bLen) && Distinct(bv, w, h) && InBounds(vs, w, h, srcLen)
  }

  lemma UVColumnsPart(av: View, aLen: int, bv: View, bLen: int, us: View, vs: View, srcLen: int, w: int, h: int, c: int,
                      n: int)
    requires UVRoom(av, aLen, bv, bLen, us, vs, srcLen, w, h) && 0 <= c && c + n <= w
    ensures UVRoom(av.Shift(c, 0), aLen, bv.Shift(c, 0), bLen, us.Shift(c, 0), vs.Shift(c, 0), srcLen, n, h)
  {
    ColumnsPart(av, aLen, us, srcLen, w, h, c, n);
    ColumnsPart(bv, bLen, vs, srcLen, w, h, c, n);
  }

  lemma UVStackColumns(a0: seq<byte>, a1: seq<byte>, a2: seq<byte>, av: View, b0: seq<byte>, b1: seq<byte>,
                       b2: seq<byte>, bv: View,
                       c: int, n: int, w: int, h: int, src: seq<byte>, us: View, vs: View)
    requires 0 <= c && 0 <= n && c + n <= w && UVRoom(av, |a0|, bv, |b0|, us, vs, |src|, w, h)
    requires UVCopied(a0, a1, av, b0, b1, bv, c, h, src, us, vs)
    requires UVCopied(a1, a2, av.Shift(c, 0), b1, b2, bv.Shift(c, 0), n, h, src, us.Shift(c, 0), vs.Shift(c, 0))
    ensures UVCopied(a0, a2, av, b0, b2, bv, c + n, h, src, us, vs)
  {
    hide View.At, View.Shift;
    StackColumns(a0, a1, a2, av, c, n, w, h, src, us);
    StackColumns(b0, b1, b2, bv, c, n, w, h, src, vs);
  }

  lemma UVRowsPart(av: View, aLen: int, bv: View, bLen: int, us: View, vs: View, srcLen: int, w: int, h: int, r: int,
                   n: int)
    requires UVRoom(av, aLen, bv, bLen, us, vs, srcLen, w, h) && 0 <= r && r + n <= h
    ensures UVRoom(av.Shift(0, r), aLen, bv.Shift(0, r), bLen, us.Shift(0, r), vs.Shift(0, r), srcLen, w, n)
  {
    RowsPart(av, aLen, us, srcLen, w, h, r, n);
    RowsPart(bv, bLen, vs, srcLen, w, h, r, n);
  }

  lemma UVStackRows(a0: seq<byte>, a1: seq<byte>, a2: seq<byte>, av: View, b0: seq<byte>, b1: seq<byte>, b2: seq<byte>,
                    bv: View,
                    w: int, r: int, n: int, h: int, src: seq<byte>, us: View, vs: View)
    requires 0 <= r && 0 <= n && r + n <= h && UVRoom(av, |a0|, bv, |b0|, us, vs, |src|, w, h)
    requires UVCopied(a0, a1, av, b0, b1, bv, w, r, src, us, vs)
    requires UVCopied(a1, a2, av.Shift(0, r), b1, b2, bv.Shift(0, r), w, n, src, us.Shift(0, r), vs.Shift(0, r))
    ensures UVCopied(a0, a2, av, b0, b2, bv, w, r + n, src, us, vs)
  {
    hide View.At, View.Shift;
    StackRows(a0, a1, a2, av, w, r, n, h, src, us);
    StackRows(b0, b1, b2, bv, w, r, n, h, src, vs);
  }

  lemma UVNothing(a: seq<byte>, av: View, b: seq<byte>, bv: View, w: int, h: int, src: seq<byte>, us: View, vs: View)
    requires w <= 0 || h <= 0
    ensures UVCopied(a, a, av, b, b, bv, w, h, src, us, vs)
  {
  }

  lemma UVCellWritten(a: seq<byte>, av: View, b: seq<byte>, bv: View, src: seq<byte>, us: View, vs: View)
    requires UVRoom(av, |a|, bv, |b|, us, vs, |src|, 1, 1)
    ensures 0 <= av.off < |a| && 0 <= bv.off < |b| && 0 <= us.off < |src| && 0 <= vs.off < |src|
    ensures UVCopied(a, a[av.off := src[us.off]], av, b, b[bv.off := src[vs.off]], bv, 1, 1, src, us, vs)
  {
    CellBounds(av, |a|);
    CellBounds(bv, |b|);
    CellBounds(us, |src|);
    CellBounds(vs, |src|);
    CopiedCell(a, av, src, us);
    CopiedCell(b, bv, src, vs);
  }

  lemma UVStepAddresses(a: int, strideA: int, b: int, strideB: int, s: int, srcStride: int, n: int)
    ensures Plane(a, strideA).Shift(n, 0) == Plane(a + n, strideA)
    ensures Plane(b, strideB).Shift(n, 0) == Plane(b + n, strideB)
    ensures UPlane(s, srcStride).Transposed().Shift(n, 0) == UPlane(s + n * srcStride, srcStride).Transposed()
    ensures VPlane(s, srcStride).Transposed().Shift(n, 0) == VPlane(s + n * srcStride, srcStride).Transposed()
    ensures (n + 8) * srcStride == n * srcStride + 8 * srcStride
    ensures Plane(a, strideA).Shift(0, n) == Plane(a + n * strideA, strideA)
    ensures Plane(b, strideB).Shift(0, n) == Plane(b + n * strideB, strideB)
    ensures UPlane(s, srcStride).Transposed().Shift(0, n) == UPlane(s + 2 * n, srcStride).Transposed()
    ensures VPlane(s, srcStride).Transposed().Shift(0, n) == VPlane(s + 2 * n, srcStride).Transposed()
  {
  }

  /** Half of the unrolled body of TransposeUVWx8_C: four source rows. */
  method CopyFourUV(src: array<byte>, sp: int, srcStride: int, dstA: array<byte>, ap: int, ghost strideA: int,
                    dstB: array<byte>, bp: int, ghost strideB: int)
    requires src != dstA && src != dstB && dstA != dstB
    requires InBounds(UPlane(sp, srcStride).Transposed(), 4, 1, src.Length)
    requires InBounds(VPlane(sp, srcStride).Transposed(), 4, 1, src.Length)
    requires InBounds(Plane(ap, strideA), 4, 1, dstA.Length) && InBounds(Plane(bp, strideB), 4, 1, dstB.Length)
    modifies dstA, dstB
    ensures UVCopied(old(dstA[..]), dstA[..], Plane(ap, strideA), old(dstB[..]), dstB[..], Plane(bp, strideB), 4, 1,
                     src[..], UPlane(sp, srcStride).Transposed(), VPlane(sp, srcStride).Transposed())
  {
    hide View.At, Copied, InBounds;
    FourUV(sp, srcStride, src.Length);
    RowInside(ap, strideA, 4, dstA.Length);
    RowInside(bp, strideB, 4, dstB.Length);
    dstA[ap + 0] := src[sp + 0 * srcStride + 0];
    dstB[bp + 0] := src[sp + 0 * srcStride + 1];
    dstA[ap + 1] := src[sp + 1 * srcStride + 0];
    dstB[bp + 1] := src[sp + 1 * srcStride + 1];
    dstA[ap + 2] := src[sp + 2 * srcStride + 0];
    dstB[bp + 2] := src[sp + 2 * srcStride + 1];
    dstA[ap + 3] := src[sp + 3 * srcStride + 0];
    dstB[bp + 3] := src[sp + 3 * srcStride + 1];
    FourLaid(old(dstA[..]), dstA[..], ap, strideA, src[..], UPlane(sp, srcStride).Transposed());
    FourLaid(old(dstB[..]), dstB[..], bp, strideB, src[..], VPlane(sp, srcStride).Transposed());
  }

  lemma FourUV(sp: int, stride: int, len: int)
    requires InBounds(UPlane(sp, stride).Transposed(), 4, 1, len)
    requires InBounds(VPlane(sp, stride).Transposed(), 4, 1, len)
    ensures 0 <= sp && sp + 1 < len && 0 <= sp + stride && sp + stride + 1 < len
    ensures 0 <= sp + 2 * stride && sp + 2 * stride + 1 < len && 0 <= sp + 3 * stride && sp + 3 * stride + 1 < len
  {
    var u, v := UPlane(sp, stride).Transposed(), VPlane(sp, stride).Transposed();
    assert 0 <= u.At(0, 0) && v.At(0, 0) < len && 0 <= u.At(1, 0) && v.At(1, 0) < len;
    assert 0 <= u.At(2, 0) && v.At(2, 0) < len && 0 <= u.At(3, 0) && v.At(3, 0) < len;
  }

  lemma FourLaid(m: seq<byte>, m': seq<byte>, dp: int, stride: int, src: seq<byte>, sv: View)
    requires 0 <= dp && dp + 4 <= |m| && |m'| == |m| && InBounds(sv, 4, 1, |src|)
    requires forall k | 0 <= k < |m| && !(dp <= k < dp + 4) :: m'[k] == m[k]
    requires 0 <= sv.off < |src| && 0 <= sv.off + sv.dx < |src| && 0 <= sv.off + 2 * sv.dx < |src|
    requires 0 <= sv.off + 3 * sv.dx < |src|
    requires m'[dp] == src[sv.off] && m'[dp + 1] == src[sv.off + sv.dx]
    requires m'[dp + 2] == src[sv.off + 2 * sv.dx] && m'[dp + 3] == src[sv.off + 3 * sv.dx]
    ensures Copied(m, m', Plane(dp, stride), 4, 1, src, sv)
  {
    forall k | dp <= k < dp + 4
      ensures m'[k] == src[sv.At(k - dp, 0)]
    {
      if k == dp {} else if k == dp + 1 {} else if k == dp + 2 {} else {}
    }
    RowLaid(m, m', dp, stride, 4, src, sv);
  }

  /** The unrolled body of TransposeUVWx8_C. */
  method CopyEightUV(src: array<byte>, sp: int, srcStride: int, dstA: array<byte>, ap: int, ghost strideA: int,
                     dstB: array<byte>, bp: int, ghost strideB: int)
    requires src != dstA && src != dstB && dstA != dstB
    requires UVRoom(Plane(ap, strideA), dstA.Length, Plane(bp, strideB), dstB.Length,
                    UPlane(sp, srcStride).Transposed(), VPlane(sp, srcStride).Transposed(), src.Length, 8, 1)
    modifies dstA, dstB
    ensures UVCopied(old(dstA[..]), dstA[..], Plane(ap, strideA), old(dstB[..]), dstB[..], Plane(bp, strideB), 8, 1,
                     src[..], UPlane(sp, srcStride).Transposed(), VPlane(sp, srcStride).Transposed())
  {
    hide View.At, View.Shift, View.Transposed, Plane, UPlane, VPlane, Copied, InBounds, Distinct;
    ghost var av, bv, a0, b0 := Plane(ap, strideA), Plane(bp, strideB), dstA[..], dstB[..];
    ghost var us, vs := UPlane(sp, srcStride).Transposed(), VPlane(sp, srcStride).Transposed();
    UVColumnsPart(av, dstA.Length, bv, dstB.Length, us, vs, src.Length, 8, 1, 0, 4);
    UVColumnsPart(av, dstA.Length, bv, dstB.Length, us, vs, src.Length, 8, 1, 4, 4);
    ShiftZero(av); ShiftZero(bv); ShiftZero(us); ShiftZero(vs);
    UVStepAddresses(ap, strideA, bp, strideB, sp, srcStride, 4);
    CopyFourUV(src, sp, srcStride, dstA, ap, strideA, dstB, bp, strideB);
    ghost var a1, b1 := dstA[..], dstB[..];
    CopyFourUV(src, sp + 4 * srcStride, srcStride, dstA, ap + 4, strideA, dstB, bp + 4, strideB);
    UVStackColumns(a0, a1, dstA[..], av, b0, b1, dstB[..], bv, 4, 4, 8, 1, src[..], us, vs);
  }

  method TransposeUVWx8C(src: array<byte>, s: int, srcStride: int, dstA: array<byte>, a: int, strideA: int,
                         dstB: array<byte>, b: int, strideB: int, width: int)
    requires src != dstA && src != dstB && dstA != dstB && 0 <= width
    requires UVRoom(Plane(a, strideA), dstA.Length, Plane(b, strideB), dstB.Length,
                    UPlane(s, srcStride).Transposed(), VPlane(s, srcStride).Transposed(), src.Length, 8, width)
    modifies dstA, dstB
    ensures UVCopied(old(dstA[..]), dstA[..], Plane(a, strideA), old(dstB[..]), dstB[..], Plane(b, strideB), 8, width,
                     src[..], UPlane(s, srcStride).Transposed(), VPlane(s, srcStride).Transposed())
  {
    hide *;
    ghost var av, bv, a0, b0 := Plane(a, strideA), Plane(b, strideB), dstA[..], dstB[..];
    ghost var us, vs := UPlane(s, srcStride).Transposed(), VPlane(s, srcStride).Transposed();
    UVNothing(a0, av, b0, bv, 8, 0, src[..], us, vs);
    var sp, ap, bp, i := s, a, b, 0;
    while i < width
      invariant 0 <= i <= width && sp == s + 2 * i && ap == a + i * strideA && bp == b + i * strideB
      invariant UVCopied(a0, dstA[..], av, b0, dstB[..], bv, 8, i, src[..], us, vs)
    {
      ghost var a1, b1 := dstA[..], dstB[..];
      UVRowsPart(av, dstA.Length, bv, dstB.Length, us, vs, src.Length, 8, width, i, 1);
      UVStepAddresses(a, strideA, b, strideB, s, srcStride, i);
      CopyEightUV(src, sp, srcStride, dstA, ap, strideA, dstB, bp, strideB);
      UVStackRows(a0, a1, dstA[..], av, b0, b1, dstB[..], bv, 8, i, 1, width, src[..], us, vs);
      sp := sp + 2;
      ap := ap + strideA;
      bp := bp + strideB;
      i := i + 1;
    }
  }

  lemma UVCell(a: int, strideA: int, b: int, strideB: int, s: int, srcStride: int, i: int, j: int)
    requires i % 2 == 0
    ensures Plane(a, strideA).Shift(0, i / 2).Shift(j, 0).off == a + j + i / 2 * strideA
    ensures Plane(b, strideB).Shift(0, i / 2).Shift(j, 0).off == b + j + i / 2 * strideB
    ensures UPlane(s, srcStride).Transposed().Shift(0, i / 2).Shift(j, 0).off == s + i + j * srcStride
    ensures VPlane(s, srcStride).Transposed().Shift(0, i / 2).Shift(j, 0).off == s + i + j * srcStride + 1
  {
  }

  method TransposeUVWxHC(src: array<byte>, s: int, srcStride: int, dstA: array<byte>, a: int, strideA: int,
                         dstB: array<byte>, b: int, strideB: int, width: int, height: int)
    requires src != dstA && src != dstB && dstA != dstB && 0 <= width && 0 <= height
    requires UVRoom(Plane(a, strideA), dstA.Length, Plane(b, strideB), dstB.Length,
                    UPlane(s, srcStride).Transposed(), VPlane(s, srcStride).Transposed(), src.Length, height, width)
    modifies dstA, dstB
    ensures UVCopied(old(dstA[..]), dstA[..], Plane(a, strideA), old(dstB[..]), dstB[..], Plane(b, strideB), height,
                     width,
                     src[..], UPlane(s, srcStride).Transposed(), VPlane(s, srcStride).Transposed())
  {
    hide *;
    ghost var av, bv, a0, b0 := Plane(a, strideA), Plane(b, strideB), dstA[..], dstB[..];
    ghost var us, vs := UPlane(s, srcStride).Transposed(), VPlane(s, srcStride).Transposed();
    UVNothing(a0, av, b0, bv, height, 0, src[..], us, vs);
    var i := 0;
    while i < width * 2
      invariant 0 <= i <= width * 2 && i % 2 == 0
      invariant UVCopied(a0, dstA[..], av, b0, dstB[..], bv, height, i / 2, src[..], us, vs)
    {
      ghost var a1, b1, n := dstA[..], dstB[..], i / 2;
      ghost var ar, br, ur, vr := av.Shift(0, n), bv.Shift(0, n), us.Shift(0, n), vs.Shift(0, n);
      UVRowsPart(av, dstA.Length, bv, dstB.Length, us, vs, src.Length, height, width, n, 1);
      UVNothing(a1, ar, b1, br, 0, 1, src[..], ur, vr);
      var j := 0;
      while j < height
        invariant 0 <= j <= height
        invariant UVCopied(a1, dstA[..], ar, b1, dstB[..], br, j, 1, src[..], ur, vr)
      {
        ghost var a2, b2 := dstA[..], dstB[..];
        UVColumnsPart(ar, dstA.Length, br, dstB.Length, ur, vr, src.Length, height, 1, j, 1);
        UVCellWritten(a2, ar.Shift(j, 0), b2, br.Shift(j, 0), src[..], ur.Shift(j, 0), vr.Shift(j, 0));
        UVCell(a, strideA, b, strideB, s, srcStride, i, j);
        dstA[a + j + i / 2 * strideA] := src[s + i + j * srcStride];
        dstB[b + j + i / 2 * strideB] := src[s + i + j * srcStride + 1];
        assert dstA[..] == a2[a + j + i / 2 * strideA := src[s + i + j * srcStride]];
        assert dstB[..] == b2[b + j + i / 2 * strideB := src[s + i + j * srcStride + 1]];
        UVStackColumns(a1, a2, dstA[..], ar, b1, b2, dstB[..], br, j, 1, height, 1, src[..], ur, vr);
        j := j + 1;
      }
      UVStackRows(a0, a1, dstA[..], av, b0, b1, dstB[..], bv, height, n, 1, width, src[..], us, vs);
      i := i + 2;
    }
  }

  method TransposeUV(src: array<byte>, s: int, srcStride: int, dstA: array<byte>, a: int, strideA: int,
                     dstB: array<byte>, b: int, strideB: int, width: int, height: int)
    requires src != dstA && src != dstB && dstA != dstB && 0 <= width && 0 <= height
    requires UVRoom(Plane(a, strideA), dstA.Length, Plane(b, strideB), dstB.Length,
                    UPlane(s, srcStride).Transposed(), VPlane(s, srcStride).Transposed(), src.Length, height, width)
    modifies dstA, dstB
    ensures UVCopied(old(dstA[..]), dstA[..], Plane(a, strideA), old(dstB[..]), dstB[..], Plane(b, strideB), height,
                     width,
                     src[..], UPlane(s, srcStride).Transposed(), VPlane(s, srcStride).Transposed())
  {
    hide *;
    ghost var av, bv, a0, b0 := Plane(a, strideA), Plane(b, strideB), dstA[..], dstB[..];
    ghost var us, vs := UPlane(s, srcStride).Transposed(), VPlane(s, srcStride).Transposed();
    UVNothing(a0, av, b0, bv, 0, width, src[..], us, vs);
    var sp, ap, bp, i := s, a, b, height;
    ghost var done := 0;
    // One band of eight rows at a time.
    while i >= 8
      invariant 0 <= i <= height && done == height - i
      invariant sp == s + done * srcStride && ap == a + done && bp == b + done
      invariant UVCopied(a0, dstA[..], av, b0, dstB[..], bv, done, width, src[..], us, vs)
    {
      ghost var a1, b1 := dstA[..], dstB[..];
      UVColumnsPart(av, dstA.Length, bv, dstB.Length, us, vs, src.Length, height, width, done, 8);
      UVStepAddresses(a, strideA, b, strideB, s, srcStride, done);
      TransposeUVWx8C(src, sp, srcStride, dstA, ap, strideA, dstB, bp, strideB, width);
      UVStackColumns(a0, a1, dstA[..], av, b0, b1, dstB[..], bv, done, 8, height, width, src[..], us, vs);
      sp := sp + 8 * srcStride;
      ap := ap + 8;
      bp := bp + 8;
      i := i - 8;
      done := done + 8;
    }
    if i > 0 {
      ghost var a1, b1 := dstA[..], dstB[..];
      UVColumnsPart(av, dstA.Length, bv, dstB.Length, us, vs, src.Length, height, width, done, i);
      UVStepAddresses(a, strideA, b, strideB, s, srcStride, done);
      TransposeUVWxHC(src, sp, srcStride, dstA, ap, strideA, dstB, bp, strideB, width, i);
      UVStackColumns(a0, a1, dstA[..], av, b0, b1, dstB[..], bv, done, i, height, width, src[..], us, vs);
    }
  }

  // ----- rotations that also split

  lemma UVTransposeBounds(s: int, stride: int, w: int, h: int, len: int)
    requires UVInBounds(s, stride, w, h, len)
    ensures InBounds(UPlane(s, stride).Transposed(), h, w, len) && InBounds(VPlane(s, stride).Transposed(), h, w, len)
  {
    TransposeBounds(UPlane(s, stride), w, h, len);
    TransposeBounds(VPlane(s, stride), w, h, len);
  }

  /** Room for the two destination planes of a rotation of a w x h chroma image. */
  ghost predicate UVTarget(a: int, strideA: int, aLen: int, b: int, strideB: int, bLen: int, w: int, h: int) {
    && InBounds(Plane(a, strideA), w, h, aLen) && Distinct(Plane(a, strideA), w, h)
    && InBounds(Plane(b, strideB), w, h, bLen) && Distinct(Plane(b, strideB), w, h)
  }

  method RotateUV90(src: array<byte>, s: int, srcStride: int, dstA: array<byte>, a: int, strideA: int,
                    dstB: array<byte>, b: int, strideB: int, width: int, height: int)
    requires src != dstA && src != dstB && dstA != dstB && 0 <= width && 0 <= height
    requires UVInBounds(s, srcStride, width, height, src.Length)
    requires UVTarget(a, strideA, dstA.Length, b, strideB, dstB.Length, height, width)
    modifies dstA, dstB
    ensures UVCopied(old(dstA[..]), dstA[..], Plane(a, strideA), old(dstB[..]), dstB[..], Plane(b, strideB), height,
                     width, src[..],
                     Rotated(UPlane(s, srcStride), width, height, Rotate90),
                     Rotated(VPlane(s, srcStride), width, height, Rotate90))
  {
    hide View.At, Copied, InBounds, Distinct;
    UVFlipped(s, srcStride, width, height, src.Length);
    UVTransposeBounds(s + srcStride * (height - 1), -srcStride, width, height, src.Length);
    TransposeUV(src, s + srcStride * (height - 1), -srcStride, dstA, a, strideA, dstB, b, strideB, width, height);
  }

  method RotateUV270(src: array<byte>, s: int, srcStride: int, dstA: array<byte>, a: int, strideA: int,
                     dstB: array<byte>, b: int, strideB: int, width: int, height: int)
    requires src != dstA && src != dstB && dstA != dstB && 0 <= width && 0 <= height
    requires UVInBounds(s, srcStride, width, height, src.Length)
    requires UVTarget(a, strideA, dstA.Length, b, strideB, dstB.Length, height, width)
    modifies dstA, dstB
    ensures UVCopied(old(dstA[..]), dstA[..], Plane(a, strideA), old(dstB[..]), dstB[..], Plane(b, strideB), height,
                     width, src[..],
                     Rotated(UPlane(s, srcStride), width, height, Rotate270),
                     Rotated(VPlane(s, srcStride), width, height, Rotate270))
  {
    hide View.At, Copied, InBounds, Distinct;
    ghost var a0, b0 := dstA[..], dstB[..];
    UVTransposeBounds(s, srcStride, width, height, src.Length);
    FlipBounds(Plane(a, strideA), height, width, dstA.Length);
    FlipDistinct(Plane(a, strideA), height, width);
    FlippedPlane(a, strideA, width);
    FlipBounds(Plane(b, strideB), height, width, dstB.Length);
    FlipDistinct(Plane(b, strideB), height, width);
    FlippedPlane(b, strideB, width);
    TransposeUV(src, s, srcStride, dstA, a + strideA * (width - 1), -strideA, dstB, b + strideB * (width - 1), -strideB,
                width, height);
    CopiedFlipped(a0, dstA[..], Plane(a, strideA), height, width, src[..], UPlane(s, srcStride).Transposed());
    CopiedFlipped(b0, dstB[..], Plane(b, strideB), height, width, src[..], VPlane(s, srcStride).Transposed());
  }

  /** One step of RotateUV180: source row i, mirrored, into row i counted from the bottom. */
  method MirrorSplitRow(src: array<byte>, sp: int, srcStride: int, dstA: array<byte>, ap: int, ghost strideA: int,
                        dstB: array<byte>, bp: int, ghost strideB: int, width: int)
    requires src != dstA && src != dstB && dstA != dstB && 0 <= width
    requires UVInBounds(sp, srcStride, width, 1, src.Length)
    requires InBounds(Plane(ap, strideA), width, 1, dstA.Length) && InBounds(Plane(bp, strideB), width, 1, dstB.Length)
    modifies dstA, dstB
    ensures UVCopied(old(dstA[..]), dstA[..], Plane(ap, strideA), old(dstB[..]), dstB[..], Plane(bp, strideB), width, 1,
                     src[..],
                     UPlane(sp, srcStride).MirroredX(width), VPlane(sp, srcStride).MirroredX(width))
  {
    RowInside(ap, strideA, width, dstA.Length);
    RowInside(bp, strideB, width, dstB.Length);
    UVRowInside(sp, srcStride, width, src.Length);
    MirrorBounds(UPlane(sp, srcStride), width, 1, src.Length);
    MirrorBounds(VPlane(sp, srcStride), width, 1, src.Length);
    MirroredRowAt(sp, srcStride, width);
    MirrorSplitUVRow(src, sp, dstA, ap, dstB, bp, width);
    hide View.At, View.MirroredX, Copied, InBounds;
    RowLaid(old(dstA[..]), dstA[..], ap, strideA, width, src[..], UPlane(sp, srcStride).MirroredX(width));
    RowLaid(old(dstB[..]), dstB[..], bp, strideB, width, src[..], VPlane(sp, srcStride).MirroredX(width));
  }

  lemma MirroredRowAt(sp: int, stride: int, w: int)
    ensures forall x :: UPlane(sp, stride).MirroredX(w).At(x, 0) == sp + 2 * (w - 1 - x)
    ensures forall x :: VPlane(sp, stride).MirroredX(w).At(x, 0) == sp + 2 * (w - 1 - x) + 1
  {
  }

  lemma UVMirroredDown(s: int, stride: int, w: int, n: int)
    ensures UPlane(s, stride).MirroredX(w).Shift(0, n) == UPlane(s + n * stride, stride).MirroredX(w)
    ensures VPlane(s, stride).MirroredX(w).Shift(0, n) == VPlane(s + n * stride, stride).MirroredX(w)
    ensures UPlane(s, stride).Shift(0, n) == UPlane(s + n * stride, stride)
    ensures VPlane(s, stride).Shift(0, n) == VPlane(s + n * stride, stride)
  {
  }

  lemma MirrorFlipCommute(v: View, w: int, h: int)
    ensures v.MirroredX(w).FlippedY(h) == v.FlippedY(h).MirroredX(w)
  {
  }

  lemma FlippedRow(a: int, stride: int, h: int, i: int)
    ensures Plane(a, stride).FlippedY(h).Shift(0, i) == Plane(a + stride * (h - 1) - i * stride, -stride)
  {
  }

  /** Everything the half turn of both chroma planes relies on. */
  lemma UVTurnRoom(s: int, srcStride: int, srcLen: int, a: int, strideA: int, aLen: int, b: int, strideB: int,
                   bLen: int, w: int, h: int)
    requires UVInBounds(s, srcStride, w, h, srcLen) && UVTarget(a, strideA, aLen, b, strideB, bLen, w, h)
    ensures UVRoom(Plane(a, strideA).FlippedY(h), aLen, Plane(b, strideB).FlippedY(h), bLen,
                   UPlane(s, srcStride).MirroredX(w), VPlane(s, srcStride).MirroredX(w), srcLen, w, h)
  {
    FlipBounds(Plane(a, strideA), w, h, aLen);
    FlipDistinct(Plane(a, strideA), w, h);
    FlipBounds(Plane(b, strideB), w, h, bLen);
    FlipDistinct(Plane(b, strideB), w, h);
    MirrorBounds(UPlane(s, srcStride), w, h, srcLen);
    MirrorBounds(VPlane(s, srcStride), w, h, srcLen);
  }

  lemma UVRowRoom(s: int, srcStride: int, srcLen: int, w: int, h: int, i: int)
    requires UVInBounds(s, srcStride, w, h, srcLen) && 0 <= i < h
    ensures UVInBounds(s + i * srcStride, srcStride, w, 1, srcLen)
  {
    UVMirroredDown(s, srcStride, w, i);
    ShiftBounds(UPlane(s, srcStride), w, h, srcLen, 0, i, w, 1);
    ShiftBounds(VPlane(s, srcStride), w, h, srcLen, 0, i, w, 1);
  }

  method RotateUV180(src: array<byte>, s: int, srcStride: int, dstA: array<byte>, a: int, strideA: int,
                     dstB: array<byte>, b: int, strideB: int, width: int, height: int)
    requires src != dstA && src != dstB && dstA != dstB && 0 <= width && 0 <= height
    requires UVInBounds(s, srcStride, width, height, src.Length)
    requires UVTarget(a, strideA, dstA.Length, b, strideB, dstB.Length, width, height)
    modifies dstA, dstB
    ensures UVCopied(old(dstA[..]), dstA[..], Plane(a, strideA), old(dstB[..]), dstB[..], Plane(b, strideB), width,
                     height, src[..],
                     Rotated(UPlane(s, srcStride), width, height, Rotate180),
                     Rotated(VPlane(s, srcStride), width, height, Rotate180))
  {
    hide View.At, View.Shift, View.FlippedY, View.MirroredX, Plane, UPlane, VPlane, Copied, InBounds, Distinct;
    hide UVInBounds;
    ghost var av, bv, a0, b0 :=
      Plane(a, strideA).FlippedY(height), Plane(b, strideB).FlippedY(height), dstA[..], dstB[..];
    ghost var us, vs := UPlane(s, srcStride).MirroredX(width), VPlane(s, srcStride).MirroredX(width);
    UVTurnRoom(s, srcStride, src.Length, a, strideA, dstA.Length, b, strideB, dstB.Length, width, height);
    UVNothing(a0, av, b0, bv, width, 0, src[..], us, vs);
    var sp, ap, bp, i := s, a + strideA * (height - 1), b + strideB * (height - 1), 0;
    while i < height
      invariant 0 <= i <= height && sp == s + i * srcStride
      invariant ap == a + strideA * (height - 1) - i * strideA && bp == b + strideB * (height - 1) - i * strideB
      invariant UVCopied(a0, dstA[..], av, b0, dstB[..], bv, width, i, src[..], us, vs)
    {
      ghost var a1, b1 := dstA[..], dstB[..];
      UVRowsPart(av, dstA.Length, bv, dstB.Length, us, vs, src.Length, width, height, i, 1);
      FlippedRow(a, strideA, height, i);
      FlippedRow(b, strideB, height, i);
      UVMirroredDown(s, srcStride, width, i);
      UVRowRoom(s, srcStride, src.Length, width, height, i);
      MirrorSplitRow(src, sp, srcStride, dstA, ap, -strideA, dstB, bp, -strideB, width);
      UVStackRows(a0, a1, dstA[..], av, b0, b1, dstB[..], bv, width, i, 1, height, src[..], us, vs);
      sp := sp + srcStride;
      ap := ap - strideA;
      bp := bp - strideB;
      i := i + 1;
    }
    MirrorFlipCommute(UPlane(s, srcStride), width, height);
    MirrorFlipCommute(VPlane(s, srcStride), width, height);
    CopiedFlipped(a0, dstA[..], Plane(a, strideA), width, height, src[..], us);
    CopiedFlipped(b0, dstB[..], Plane(b, strideB), width, height, src[..], vs);
  }

  // ----- NV12ToI420Rotate

  /** The rotated frame fits the destination, and the frame fits the source. */
  ghost predicate FrameRoom(sy: Surface, suv: Surface, dy: Surface, du: Surface, dv: Surface, w: int, h: int,
                            mode: RotationMode)
    requires sy.mem != null && suv.mem != null && dy.mem != null && du.mem != null && dv.mem != null
  {
    && Separate(dy, du, dv, {sy.mem, suv.mem})
    && sy.Readable(w, h)
    && UVInBounds(suv.off, suv.stride, Half(w), Half(h), suv.mem.Length)
    && dy.Writable(RotatedWidth(w, h, mode), RotatedHeight(w, h, mode))
    && du.Writable(RotatedWidth(Half(w), Half(h), mode), RotatedHeight(Half(w), Half(h), mode))
    && dv.Writable(RotatedWidth(Half(w), Half(h), mode), RotatedHeight(Half(w), Half(h), mode))
  }

  /** A plane at rest, and the three of an image. */
  datatype Cells = Cells(mem: seq<byte>, view: View)
  datatype Image = Image(y: Cells, u: Cells, v: Cells)

  /** `after` is `before` with the source plane of w by h cells turned into it, bottom up first when
      the image height is negative. */
  ghost predicate TurnedPlane(before: Cells, after: Cells, src: Cells, w: int, h: int, height: int,
                              mode: RotationMode) {
    && after.view == before.view
    && Copied(before.mem, after.mem, before.view, RotatedWidth(w, h, mode), RotatedHeight(w, h, mode),
              src.mem, Rotated(UprightTo(src.view, height, h), w, h, mode))
  }

  ghost predicate TurnedImage(before: Image, after: Image, src: Image, width: int, height: int, mode: RotationMode) {
    && TurnedPlane(before.y, after.y, src.y, width, Abs(height), height, mode)
    && TurnedPlane(before.u, after.u, src.u, Half(width), Half(Abs(height)), height, mode)
    && TurnedPlane(before.v, after.v, src.v, Half(width), Half(Abs(height)), height, mode)
  }

  ghost function Planar3(y: Surface, u: Surface, v: Surface): Image
    requires y.mem != null && u.mem != null && v.mem != null
    reads y.mem, u.mem, v.mem
  {
    Image(Cells(y.mem[..], y.AsPlane()), Cells(u.mem[..], u.AsPlane()), Cells(v.mem[..], v.AsPlane()))
  }

  /** The three planes that an NV12 image holds. */
  ghost function Biplanar(y: Surface, uv: Surface): Image
    requires y.mem != null && uv.mem != null
    reads y.mem, uv.mem
  {
    Image(Cells(y.mem[..], y.AsPlane()), Cells(uv.mem[..], UPlane(uv.off, uv.stride)),
          Cells(uv.mem[..], VPlane(uv.off, uv.stride)))
  }

  lemma NotRotated(y: View, u: View, v: View, w: int, h: int)
    ensures Rotated(y, w, h, Rotate0) == y
    ensures Rotated(u, Half(w), Half(h), Rotate0) == u && Rotated(v, Half(w), Half(h), Rotate0) == v
  {
  }

  /** The turn itself, on an image that is already upright. */
  method TurnNV12(sy: Surface, suv: Surface, dy: Surface, du: Surface, dv: Surface, width: int, height: int,
                  mode: RotationMode, hasSsse3: bool)
    requires sy.mem != null && suv.mem != null && dy.mem != null && du.mem != null && dv.mem != null
    requires 0 < width && 0 < height && !mode.RotateOther? && FrameRoom(sy, suv, dy, du, dv, width, height, mode)
    modifies dy.mem, du.mem, dv.mem
    ensures TurnedImage(old(Planar3(dy, du, dv)), Planar3(dy, du, dv), Biplanar(sy, suv), width, height, mode)
  {
    hide View.At, View.FlippedY, UPlane, VPlane, Plane, Copied, InBounds, Distinct, UVInBounds, Rotated;
    var halfWidth, halfHeight := (width + 1) / 2, (height + 1) / 2;
    match mode {
      case Rotate0 =>
        NotRotated(sy.AsPlane(), UPlane(suv.off, suv.stride), VPlane(suv.off, suv.stride), width, height);
        var _ := NV12ToI420(sy, suv, dy, du, dv, width, height);
      case Rotate90 =>
        QuarterRoom(sy.AsPlane(), sy.mem.Length, dy.AsPlane(), dy.mem.Length, width, height, hasSsse3);
        RotatePlane90(sy.mem, sy.off, sy.stride, dy.mem, dy.off, dy.stride, width, height, hasSsse3);
        RotateUV90(suv.mem, suv.off, suv.stride, du.mem, du.off, du.stride, dv.mem, dv.off, dv.stride, halfWidth,
                   halfHeight);
      case Rotate270 =>
        QuarterRoom(sy.AsPlane(), sy.mem.Length, dy.AsPlane(), dy.mem.Length, width, height, hasSsse3);
        RotatePlane270(sy.mem, sy.off, sy.stride, dy.mem, dy.off, dy.stride, width, height, hasSsse3);
        RotateUV270(suv.mem, suv.off, suv.stride, du.mem, du.off, du.stride, dv.mem, dv.off, dv.stride, halfWidth,
                    halfHeight);
      case Rotate180 =>
        RotatePlane180(sy.mem, sy.off, sy.stride, dy.mem, dy.off, dy.stride, width, height);
        RotateUV180(suv.mem, suv.off, suv.stride, du.mem, du.off, du.stride, dv.mem, dv.off, dv.stride, halfWidth,
                    halfHeight);
    }
  }

  /** Turning the image that starts at the last row and goes upwards. */
  lemma TurnedUpsideDown(before: Image, after: Image, src: Image, flipped: Image, width: int, height: int,
                         mode: RotationMode)
    requires height < 0 && TurnedImage(before, after, flipped, width, -height, mode)
    requires flipped.y == Cells(src.y.mem, src.y.view.FlippedY(-height))
    requires flipped.u == Cells(src.u.mem, src.u.view.FlippedY(Half(-height)))
    requires flipped.v == Cells(src.v.mem, src.v.view.FlippedY(Half(-height)))
    ensures TurnedImage(before, after, src, width, height, mode)
  {
    hide View.FlippedY, View.At, Rotated, Copied;
  }

  /** All five planes must be there, unlike for the copy.  A mode that is none of the four changes
      nothing. */
  method NV12ToI420Rotate(sy: Surface, suv: Surface, dy: Surface, du: Surface, dv: Surface, width: int, height: int,
                          mode: RotationMode, hasSsse3: bool) returns (ret: int)
    requires Present({sy.mem, suv.mem, dy.mem, du.mem, dv.mem}) && 0 < width && height != 0 && !mode.RotateOther? ==>
      FrameRoom(sy, suv, dy, du, dv, width, Abs(height), mode)
    modifies dy.mem, du.mem, dv.mem
    ensures ret
      == (if Present({sy.mem, suv.mem, dy.mem, du.mem, dv.mem}) && 0 < width && height != 0
          && !mode.RotateOther? then 0 else -1)
    ensures ret == -1 && dy.mem != null ==> dy.mem[..] == old(dy.mem[..])
    ensures ret == -1 && du.mem != null ==> du.mem[..] == old(du.mem[..])
    ensures ret == -1 && dv.mem != null ==> dv.mem[..] == old(dv.mem[..])
    ensures ret == 0 ==>
      TurnedImage(old(Planar3(dy, du, dv)), Planar3(dy, du, dv), Biplanar(sy, suv), width, height, mode)
  {
    if sy.mem == null || suv.mem == null || width <= 0 || height == 0 || dy.mem == null || du.mem == null
      || dv.mem == null {
      return -1;
    }
    if mode.RotateOther? {
      return -1;
    }
    hide View.At, View.FlippedY, UPlane, VPlane, Plane, TurnedImage, InBounds, Distinct, UVInBounds;
    ghost var before := Planar3(dy, du, dv);
    var h, y, uv := height, sy, suv;
    // Upside down: begin at the last row and go upwards.
    if h < 0 {
      h := -h;
      var halfHeight := (h + 1) / 2;
      FlipBounds(sy.AsPlane(), width, h, sy.mem.Length);
      FlippedPlane(sy.off, sy.stride, h);
      UVFlipped(suv.off, suv.stride, Half(width), halfHeight, suv.mem.Length);
      y := Surface(sy.mem, sy.off + (h - 1) * sy.stride, -sy.stride);
      uv := Surface(suv.mem, suv.off + suv.stride * (halfHeight - 1), -suv.stride);
    }
    TurnNV12(y, uv, dy, du, dv, width, h, mode, hasSsse3);
    if height < 0 {
      TurnedUpsideDown(before, Planar3(dy, du, dv), Biplanar(sy, suv), Biplanar(y, uv), width, height, mode);
    }
    ret := 0;
  }

  // ----- splitting first

  /** A copy is also a copy when both rectangles are read from the bottom. */
  lemma BothFlipped<T>(m0: seq<T>, m1: seq<T>, dv: View, w: int, h: int, src: seq<T>, sv: View)
    requires Copied(m0, m1, dv, w, h, src, sv)
    ensures Copied(m0, m1, dv.FlippedY(h), w, h, src, sv.FlippedY(h))
  {
    FlipBounds(dv, w, h, |m0|);
    FlippedTwice(dv, h);
    CopiedFlipped(m0, m1, dv.FlippedY(h), w, h, src, sv);
  }

  lemma FlippedTwice(v: View, h: int)
    ensures v.FlippedY(h).FlippedY(h) == v
  {
  }

  /** One plane: copied first and turned afterwards, or turned directly. */
  lemma PlaneEitherWay(mid0: Cells, mid: Cells, out0: Cells, out: Cells, src: Cells, w: int, h: int, height: int,
                       mode: RotationMode)
    requires 0 < w && 0 < h && !mode.RotateOther?
    requires TurnedPlane(mid0, mid, src, w, h, h, Rotate0) && TurnedPlane(out0, out, mid, w, h, height, mode)
    ensures TurnedPlane(out0, out, src, w, h, height, mode)
  {
    hide View.At, View.FlippedY;
    if height < 0 {
      BothFlipped(mid0.mem, mid.mem, mid.view, w, h, src.mem, src.view);
    }
    RotateTwice(mid0.mem, mid.mem, out0.mem, out.mem, UprightTo(mid.view, height, h), out.view, src.mem,
                UprightTo(src.view, height, h), w, h, Rotate0, mode);
    assert OfTurns(Turns(Rotate0) + Turns(mode)) == mode;
  }

  lemma TurnedUnique(before: Cells, a: Cells, b: Cells, src: Cells, w: int, h: int, height: int, mode: RotationMode)
    requires TurnedPlane(before, a, src, w, h, height, mode) && TurnedPlane(before, b, src, w, h, height, mode)
    ensures a == b
  {
    hide View.At, Rotated;
    CopiedUnique(before.mem, a.mem, b.mem, before.view, RotatedWidth(w, h, mode), RotatedHeight(w, h, mode),
                 src.mem, Rotated(UprightTo(src.view, height, h), w, h, mode));
  }

  /** Splitting an image first and rotating its three planes afterwards ends in the same memory as
      rotating it directly, for every mode, size and sign of the height. */
  lemma SplitThenRotate(src: Image, mid0: Image, mid: Image, out0: Image, after: Image, direct: Image, width: int,
                        height: int, mode: RotationMode)
    requires 0 < width && height != 0 && !mode.RotateOther?
    requires TurnedImage(mid0, mid, src, width, Abs(height), Rotate0)
    requires TurnedImage(out0, after, mid, width, height, mode)
    requires TurnedImage(out0, direct, src, width, height, mode)
    ensures after == direct
  {
    hide TurnedPlane;
    var h, hw, hh := Abs(height), Half(width), Half(Abs(height));
    SignOnly(mid0.u, mid.u, src.u, hw, hh, h);
    SignOnly(mid0.v, mid.v, src.v, hw, hh, h);
    PlaneEitherWay(mid0.y, mid.y, out0.y, after.y, src.y, width, h, height, mode);
    PlaneEitherWay(mid0.u, mid.u, out0.u, after.u, src.u, hw, hh, height, mode);
    PlaneEitherWay(mid0.v, mid.v, out0.v, after.v, src.v, hw, hh, height, mode);
    TurnedUnique(out0.y, after.y, direct.y, src.y, width, h, height, mode);
    TurnedUnique(out0.u, after.u, direct.u, src.u, hw, hh, height, mode);
    TurnedUnique(out0.v, after.v, direct.v, src.v, hw, hh, height, mode);
  }

  /** Of the image height only the sign matters. */
  lemma SignOnly(before: Cells, after: Cells, src: Cells, w: int, h: int, height: int)
    requires 0 < h && 0 < height && TurnedPlane(before, after, src, w, h, height, Rotate0)
    ensures TurnedPlane(before, after, src, w, h, h, Rotate0)
  {
  }

  /** Room for w by h cells without gaps. */
  method NewPlane(w: int, h: int) returns (s: Surface)
    requires 0 < w && 0 < h
    ensures s.mem != null && fresh(s.mem) && s.Readable(w, h) && s.Writable(w, h)
  {
    GridFits(w, h);
    var mem := new byte[w * h];
    s := Surface(mem, 0, w);
  }

  /** The long way round, in the calls a client would make: it keeps the very promise of
      NV12ToI420Rotate. */
  method SplitThenRotatePlanes(sy: Surface, suv: Surface, dy: Surface, du: Surface, dv: Surface, width: int,
                               height: int,
                               mode: RotationMode, hasSsse3: bool)
    requires sy.mem != null && suv.mem != null && dy.mem != null && du.mem != null && dv.mem != null
    requires 0 < width && height != 0 && !mode.RotateOther? && FrameRoom(sy, suv, dy, du, dv, width, Abs(height), mode)
    modifies dy.mem, du.mem, dv.mem
    ensures TurnedImage(old(Planar3(dy, du, dv)), Planar3(dy, du, dv), Biplanar(sy, suv), width, height, mode)
  {
    hide View.At, View.FlippedY, Plane, UPlane, VPlane, InBounds, Distinct, Copied, UVInBounds, Rotated;
    var h, hw, hh := Abs(height), Half(width), Half(Abs(height));
    var y := NewPlane(width, h);
    var u := NewPlane(hw, hh);
    var v := NewPlane(hw, hh);
    ghost var mid0, out0, src := Planar3(y, u, v), Planar3(dy, du, dv), Biplanar(sy, suv);
    var _ := NV12ToI420(sy, suv, y, u, v, width, h);
    ghost var mid := Planar3(y, u, v);
    var _ := RotatePlane(y, dy, width, height, mode, hasSsse3);
    var _ := RotatePlane(u, du, hw, if height < 0 then -hh else hh, mode, hasSsse3);
    var _ := RotatePlane(v, dv, hw, if height < 0 then -hh else hh, mode, hasSsse3);
    NotTurned(mid0.y, mid.y, src.y, width, h);
    NotTurned(mid0.u, mid.u, src.u, hw, hh);
    NotTurned(mid0.v, mid.v, src.v, hw, hh);
    PlaneEitherWay(mid0.y, mid.y, out0.y, Planar3(dy, du, dv).y, src.y, width, h, height, mode);
    PlaneEitherWay(mid0.u, mid.u, out0.u, Planar3(dy, du, dv).u, src.u, hw, hh, height, mode);
    PlaneEitherWay(mid0.v, mid.v, out0.v, Planar3(dy, du, dv).v, src.v, hw, hh, height, mode);
  }

  lemma NotTurned(before: Cells, after: Cells, src: Cells, w: int, h: int)
    requires 0 < h && after.view == before.view && Copied(before.mem, after.mem, before.view, w, h, src.mem, src.view)
    ensures TurnedPlane(before, after, src, w, h, h, Rotate0)
  {
  }
}
