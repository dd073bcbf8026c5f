/** rotate_argb.cc, on whole pixels: memory holds pixels and pointers count them, but the strides
    are those of the source, in bytes. */
module RotateARGB {
  import opened Planar
  import opened Rotate
  import opened Rows
  import opened Views

  // ----- transpose

  /** ScaleARGBRowDownEven_C: every step-th pixel. */
  method ScaleARGBRowDownEven<T>(src: array<T>, s: int, step: int, dst: array<T>, d: int, dstWidth: nat)
    requires src != dst && RowInMemory(d, dstWidth, dst.Length)
    requires forall x | 0 <= x < dstWidth :: 0 <= RowStart(s, step, x) < src.Length
    modifies dst
    ensures forall k | d <= k < d + dstWidth :: dst[k] == src[RowStart(s, step, k - d)]
    ensures forall k | 0 <= k < dst.Length && !(d <= k < d + dstWidth) :: dst[k] == old(dst[k])
  {
    hide RowStart;
    var sp, x := s, 0;
    NextRow(s, step, 0);
    while x < dstWidth - 1
      invariant 0 <= x <= dstWidth && x % 2 == 0 && sp == RowStart(s, step, x)
      invariant forall k | d <= k < d + x :: dst[k] == src[RowStart(s, step, k - d)]
      invariant forall k | 0 <= k < dst.Length && !(d <= k < d + x) :: dst[k] == old(dst[k])
    {
      NextRow(s, step, x);
      NextRow(s, step, x + 1);
      dst[d + x] := src[sp];
      dst[d + x + 1] := src[sp + step];
      sp := sp + step * 2;
      x := x + 2;
    }
    if dstWidth % 2 == 1 {
      dst[d + x] := src[sp];
    }
  }

  lemma ColumnAt(s: int, stride: int, j: int)
    ensures Plane(s, stride).Transposed().At(j, 0) == RowStart(s, stride, j)
  {
  }

  /** One column of the source becomes one row of the destination. */
  method CopyColumn<T>(src: array<T>, sp: int, step: int, dst: array<T>, dp: int, ghost dstStep: int, n: int)
    requires src != dst && 0 < n
    requires InBounds(Plane(sp, step).Transposed(), n, 1, src.Length) && InBounds(Plane(dp, dstStep), n, 1, dst.Length)
    modifies dst
    ensures Copied(old(dst[..]), dst[..], Plane(dp, dstStep), n, 1, src[..], Plane(sp, step).Transposed())
  {
    hide *;
    ghost var m1 := dst[..];
    ColumnInside(sp, step, n, src.Length);
    RowInside(dp, dstStep, n, dst.Length);
    RowIn(dp, n, dst.Length);
    ScaleARGBRowDownEven(src, sp, step, dst, dp, n);
    forall k | dp <= k < dp + n
      ensures 0 <= Plane(sp, step).Transposed().At(k - dp, 0) < src.Length
      ensures dst[..][k] == src[..][Plane(sp, step).Transposed().At(k - dp, 0)]
    {
      ColumnAt(sp, step, k - dp);
    }
    RowLaid(m1, dst[..], dp, dstStep, n, src[..], Plane(sp, step).Transposed());
  }

  /** Columns of the source become rows of the destination, all of them. */
  method TransposePixels<T>(src: array<T>, s: int, step: int, dst: array<T>, d: int, dstStep: int, width: int,
                            height: int)
    requires src != dst && 0 < width && 0 < height
    requires InBounds(Plane(s, step), width, height, src.Length)
    requires InBounds(Plane(d, dstStep), height, width, dst.Length) && Distinct(Plane(d, dstStep), height, width)
    modifies dst
    ensures Copied(old(dst[..]), dst[..], Plane(d, dstStep), height, width, src[..], Plane(s, step).Transposed())
  {
    hide *;
    ghost var dv, sv, m0 := Plane(d, dstStep), Plane(s, step).Transposed(), dst[..];
    TransposeBounds(Plane(s, step), width, height, src.Length);
    CopiedNothing(m0, dv, height, 0, src[..], sv);
    var sp, dp, i := s, d, 0;
    while i < width
      invariant 0 <= i <= width && sp == s + i && dp == d + i * dstStep
      invariant Copied(m0, dst[..], dv, height, i, src[..], sv)
    {
      ghost var m1 := dst[..];
      RowsPart(dv, dst.Length, sv, src.Length, height, width, i, 1);
      PlaneDown(d, dstStep, i);
      PlaneRight(s, step, i);
      CopyColumn(src, sp, step, dst, dp, dstStep, height);
      StackRows(m0, m1, dst[..], dv, height, i, 1, width, src[..], sv);
      dp := dp + dstStep;
      sp := sp + 1;
      i := i + 1;
    }
  }

  /** A source stride that is no multiple of four bytes is refused. */
  method ARGBTranspose<T>(src: array<T>, s: int, srcStride: int, dst: array<T>, d: int, dstStride: int, width: int,
                          height: int) returns (ret: int)
    requires src != dst && 0 < width && 0 < height && dstStride % 4 == 0
    requires srcStride % 4 == 0 ==> InBounds(Plane(s, srcStride / 4), width, height, src.Length)
    requires InBounds(Plane(d, dstStride / 4), height, width, dst.Length)
    requires Distinct(Plane(d, dstStride / 4), height, width)
    modifies dst
    ensures ret == if srcStride % 4 == 0 then 0 else -1
    ensures ret == -1 ==> dst[..] == old(dst[..])
    ensures ret == 0 ==>
      Copied(old(dst[..]), dst[..], Plane(d, dstStride / 4), height, width, src[..],
             Plane(s, srcStride / 4).Transposed())
  {
    hide View.At, Copied, InBounds, Distinct;
    if srcStride % 4 != 0 {
      return -1;
    }
    TransposePixels(src, s, srcStride / 4, dst, d, dstStride / 4, width, height);
    return 0;
  }

  lemma ColumnInside(s: int, step: int, height: int, len: int)
    requires InBounds(Plane(s, step).Transposed(), height, 1, len)
    ensures forall j | 0 <= j < height :: 0 <= RowStart(s, step, j) < len
  {
    hide View.At, View.Transposed, RowStart;
    forall j | 0 <= j < height ensures 0 <= RowStart(s, step, j) < len {
      ColumnAt(s, step, j);
      assert 0 <= Plane(s, step).Transposed().At(j, 0) < len;
    }
  }

  lemma RowIn(p: int, w: int, len: int)
    requires 0 <= p && p + w <= len
    ensures RowInMemory(p, w, len)
  {
  }

  lemma NegatedStride(stride: int)
    ensures stride % 4 == 0 <==> -stride % 4 == 0
    ensures stride % 4 == 0 ==> -stride / 4 == -(stride / 4)
  {
  }

  // ----- quarter turns

  /** The address a plane's last row begins at, in pixels. */
  function LastRow(p: int, stride: int, height: int): int {
    p + stride / 4 * (height - 1)
  }

  method ARGBRotate90<T>(src: array<T>, s: int, srcStride: int, dst: array<T>, d: int, dstStride: int, width: int,
                         height: int) returns (ret: int)
    requires src != dst && 0 < width && 0 < height && dstStride % 4 == 0
    requires srcStride % 4 == 0 ==> InBounds(Plane(s, srcStride / 4), width, height, src.Length)
    requires InBounds(Plane(d, dstStride / 4), height, width, dst.Length)
    requires Distinct(Plane(d, dstStride / 4), height, width)
    modifies dst
    ensures ret == if srcStride % 4 == 0 then 0 else -1
    ensures ret == -1 ==> dst[..] == old(dst[..])
    ensures ret == 0 ==>
      Copied(old(dst[..]), dst[..], Plane(d, dstStride / 4), height, width, src[..],
             Rotated(Plane(s, srcStride / 4), width, height, Rotate90))
  {
    hide View.At, Copied, InBounds, Distinct;
    NegatedStride(srcStride);
    if srcStride % 4 == 0 {
      FlipBounds(Plane(s, srcStride / 4), width, height, src.Length);
    }
    FlippedPlane(s, srcStride / 4, height);
    ret := ARGBTranspose(src, LastRow(s, srcStride, height), -srcStride, dst, d, dstStride, width, height);
  }

  method ARGBRotate270<T>(src: array<T>, s: int, srcStride: int, dst: array<T>, d: int, dstStride: int, width: int,
                          height: int) returns (ret: int)
    requires src != dst && 0 < width && 0 < height && dstStride % 4 == 0
    requires srcStride % 4 == 0 ==> InBounds(Plane(s, srcStride / 4), width, height, src.Length)
    requires InBounds(Plane(d, dstStride / 4), height, width, dst.Length)
    requires Distinct(Plane(d, dstStride / 4), height, width)
    modifies dst
    ensures ret == if srcStride % 4 == 0 then 0 else -1
    ensures ret == -1 ==> dst[..] == old(dst[..])
    ensures ret == 0 ==>
      Copied(old(dst[..]), dst[..], Plane(d, dstStride / 4), height, width, src[..],
             Rotated(Plane(s, srcStride / 4), width, height, Rotate270))
  {
    hide View.At, Copied, InBounds, Distinct;
    ghost var m0 := dst[..];
    NegatedStride(dstStride);
    FlipBounds(Plane(d, dstStride / 4), height, width, dst.Length);
    FlipDistinct(Plane(d, dstStride / 4), height, width);
    FlippedPlane(d, dstStride / 4, width);
    ret := ARGBTranspose(src, s, srcStride, dst, LastRow(d, dstStride, width), -dstStride, width, height);
    if ret == 0 {
      CopiedFlipped(m0, dst[..], Plane(d, dstStride / 4), height, width, src[..], Plane(s, srcStride / 4).Transposed());
    }
  }

  // ----- half turn

  /** The ARGB loop body: first row mirrored into the buffer, last row mirrored into the
      first, buffer copied into the last. */
  method ARGBSwapRows<T>(src: array<T>, sp: int, srcBot: int, dst: array<T>, dp: int, dstBot: int, row: array<T>,
                         width: int)
    returns (ghost m1: seq<T>)
    requires row != src && row != dst && row.Length == width
    requires RowInMemory(sp, width, src.Length) && RowInMemory(srcBot, width, src.Length)
    requires RowInMemory(dp, width, dst.Length) && RowInMemory(dstBot, width, dst.Length)
    modifies row, dst
    ensures |m1| == dst.Length
    ensures forall k | 0 <= k < dst.Length && !(dp <= k < dp + width) :: m1[k] == old(dst[k])
    ensures forall k | 0 <= k < dst.Length && !(dstBot <= k < dstBot + width) :: dst[k] == m1[k]
    ensures src != dst || srcBot + width <= dp || dp + width <= srcBot ==>
      MirroredRow(m1, dp, old(src[..]), srcBot, width)
    ensures MirroredRow(dst[..], dstBot, old(src[..]), sp, width)
  {
    MirrorRow(src, sp, row, 0, width);
    MirrorRow(src, srcBot, dst, dp, width);
    m1 := dst[..];
    CopyRow(row, 0, dst, dstBot, width);
  }

  /** The temporary row is mirrored when it is saved rather than when it is written back.  Here the
      strides count pixels. */
  method ARGBRotate180<T(0)>(src: array<T>, s: int, srcStride: int, dst: array<T>, d: int, dstStride: int, width: int,
                             height: int)
    requires 0 < width && 0 <= height
    requires src == dst ==> s == d && srcStride == dstStride
    requires InBounds(Plane(s, srcStride), width, height, src.Length)
    requires InBounds(Plane(d, dstStride), width, height, dst.Length) && Distinct(Plane(d, dstStride), width, height)
    modifies dst
    ensures Copied(old(dst[..]), dst[..], Plane(d, dstStride), width, height, old(src[..]),
                   Rotated(Plane(s, srcStride), width, height, Rotate180))
  {
    hide *;
    ghost var m0, s0, dv, rv :=
      dst[..], src[..], Plane(d, dstStride), Rotated(Plane(s, srcStride), width, height, Rotate180);
    HalfTurnedStart(m0, dv, width, height, s0, Plane(s, srcStride));
    var row := new T[width];
    var sp, dp := s, d;
    var srcBot, dstBot := s + srcStride * (height - 1), d + dstStride * (height - 1);
    NextRow(s, srcStride, 0);
    NextRow(d, dstStride, 0);
    RowStartIs(s, srcStride, height - 1);
    RowStartIs(d, dstStride, height - 1);
    var halfHeight := (height + 1) / 2;
    var y := 0;
    while y < halfHeight
      invariant 0 <= y <= halfHeight
      invariant sp == RowStart(s, srcStride, y) && dp == RowStart(d, dstStride, y)
      invariant srcBot == RowStart(s, srcStride, height - 1 - y) && dstBot == RowStart(d, dstStride, height - 1 - y)
      invariant src != dst ==> src[..] == s0
      invariant HalfTurned(m0, dst[..], dv, width, height, y, s0, rv)
    {
      ghost var m, now, z := dst[..], src[..], height - 1 - y;
      StepRows(s, srcStride, width, height, src.Length, y, z);
      StepRows(d, dstStride, width, height, dst.Length, y, z);
      ghost var m1 := ARGBSwapRows(src, sp, srcBot, dst, dp, dstBot, row, width);
      TurnStep(m0, m, m1, dst[..], d, dstStride, dp, dstBot, width, height, y, z, s0, now, s, srcStride, sp, srcBot);
      NextRow(s, srcStride, y);
      NextRow(d, dstStride, y);
      NextRow(s, srcStride, z - 1);
      NextRow(d, dstStride, z - 1);
      sp := sp + srcStride;
      dp := dp + dstStride;
      srcBot := srcBot - srcStride;
      dstBot := dstBot - dstStride;
      y := y + 1;
    }
    HalfTurnedEnd(m0, dst[..], dv, width, height, y, s0, rv);
  }

  // ----- ARGBRotate

  ghost predicate RotateRoom<T>(src: array<T>, s: int, srcStride: int, dst: array<T>, d: int, dstStride: int, w: int,
                                height: int, mode: RotationMode) {
    && dstStride % 4 == 0 && (mode == Rotate0 || mode == Rotate180 ==> srcStride % 4 == 0)
    && (srcStride % 4 == 0 ==> InBounds(Plane(s, srcStride / 4), w, Abs(height), src.Length))
    && InBounds(Plane(d, dstStride / 4), RotatedWidth(w, Abs(height), mode), RotatedHeight(w, Abs(height), mode),
                dst.Length)
    && Distinct(Plane(d, dstStride / 4), RotatedWidth(w, Abs(height), mode), RotatedHeight(w, Abs(height), mode))
    && (src == dst ==> s == d && srcStride == dstStride && 0 < height && (mode == Rotate0 || mode == Rotate180))
  }

  /** Everything ARGBRotate checks before it writes. */
  predicate Accepted(width: int, height: int, srcStride: int, mode: RotationMode) {
    0 < width && height != 0 && !mode.RotateOther? && (mode == Rotate90 || mode == Rotate270 ==> srcStride % 4 == 0)
  }

  lemma AcceptedWhen(width: int, height: int, srcStride: int, mode: RotationMode)
    ensures Accepted(width, height, srcStride, mode) <==> (
      && width >= 1 && (height >= 1 || height <= -1)
      && (mode == Rotate0 || mode == Rotate180 || (srcStride % 4 == 0 && (mode == Rotate90 || mode == Rotate270))))
  {
  }

  /** The four modes, on an image that is already upright. */
  method Turn<T(0)>(src: array<T>, s: int, srcStride: int, dst: array<T>, d: int, dstStride: int, width: int,
                    height: int, mode: RotationMode)
    returns (ret: int)
    requires 0 < width && 0 < height && !mode.RotateOther?
    requires RotateRoom(src, s, srcStride, dst, d, dstStride, width, height, mode)
    modifies dst
    ensures ret == if Accepted(width, height, srcStride, mode) then 0 else -1
    ensures ret == -1 ==> dst[..] == old(dst[..])
    ensures ret == 0 ==>
      Copied(old(dst[..]), dst[..], Plane(d, dstStride / 4), RotatedWidth(width, height, mode),
             RotatedHeight(width, height, mode),
             old(src[..]), Rotated(Plane(s, srcStride / 4), width, height, mode))
  {
    hide View.At, Copied, InBounds, Distinct;
    match mode {
      case Rotate0 =>
        CopyPlane(src, s, srcStride / 4, dst, d, dstStride / 4, width, height);
        ret := 0;
      case Rotate90 =>
        ret := ARGBRotate90(src, s, srcStride, dst, d, dstStride, width, height);
      case Rotate270 =>
        ret := ARGBRotate270(src, s, srcStride, dst, d, dstStride, width, height);
      case Rotate180 =>
        ARGBRotate180(src, s, srcStride / 4, dst, d, dstStride / 4, width, height);
        ret := 0;
    }
  }

  method ARGBRotate<T(0)>(src: array?<T>, s: int, srcStride: int, dst: array?<T>, d: int, dstStride: int, width: int,
                          height: int, mode: RotationMode)
    returns (ret: int)
    requires src != null && dst != null && 0 < width && height != 0 && !mode.RotateOther? ==>
      RotateRoom(src, s, srcStride, dst, d, dstStride, width, height, mode)
    modifies dst
    ensures ret == if src != null && dst != null && Accepted(width, height, srcStride, mode) then 0 else -1
    ensures ret == -1 && dst != null ==> dst[..] == old(dst[..])
    ensures ret == 0 ==>
      Copied(old(dst[..]), dst[..], Plane(d, dstStride / 4), RotatedWidth(width, Abs(height), mode),
             RotatedHeight(width, Abs(height), mode),
             old(src[..]), Rotated(Upright(Plane(s, srcStride / 4), height), width, Abs(height), mode))
  {
    if src == null || width <= 0 || height == 0 || dst == null {
      return -1;
    }
    if mode.RotateOther? {
      return -1;
    }
    hide View.At, View.FlippedY, Plane, Rotated, Copied, InBounds, Distinct;
    var h, sp, stride := height, s, srcStride;
    // Upside down: begin at the last row and go upwards.
    if h < 0 {
      h := -h;
      sp := LastRow(s, srcStride, h);
      stride := -stride;
      NegatedStride(srcStride);
      if srcStride % 4 == 0 {
        FlipBounds(Plane(s, srcStride / 4), width, h, src.Length);
      }
      FlippedPlane(s, srcStride / 4, h);
    }
    ret := Turn(src, sp, stride, dst, d, dstStride, width, h, mode);
  }
}
