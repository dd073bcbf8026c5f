/** rotate.cc: transposes and rotations of a plane. */
module Rotate {
  import opened Views
  import opened Rows
  import opened Planar
  import opened TransposeKernels

  // ----- what a rotation is

  datatype RotationMode = Rotate0 | Rotate90 | Rotate180 | Rotate270 | RotateOther(code: int)

  /** Where the pixels of the rotated image are found in the original w x h image. */
  function Rotated(v: View, w: int, h: int, mode: RotationMode): View {
    match mode
    case Rotate90 => v.FlippedY(h).Transposed()
    case Rotate180 => v.FlippedY(h).MirroredX(w)
    case Rotate270 => v.Transposed().FlippedY(w)
    case _ => v
  }

  function RotatedWidth(w: int, h: int, mode: RotationMode): int {
    if mode == Rotate90 || mode == Rotate270 then h else w
  }

  function RotatedHeight(w: int, h: int, mode: RotationMode): int {
    if mode == Rotate90 || mode == Rotate270 then w else h
  }

  // ----- TransposePlane

  /** The columns and rows of the source that TransposePlane goes through.  They are width and height,
      except for a width of zero, on which the vector kernel does one tile in each band of eight rows. */
  function ColumnsUsed(width: int, hasSsse3: bool): int {
    if hasSsse3 then Tiled(width) else width
  }

  function RowsUsed(width: int, height: int, hasSsse3: bool): int {
    if hasSsse3 && width == 0 then height - height % 8 else height
  }

  /** One band of eight rows, by the kernel that the processor and the width call for. */
  method TransposeBand(src: array<byte>, s: int, srcStride: int, dst: array<byte>, d: int, dstStride: int, width: int,
                       hasSsse3: bool)
    requires src != dst && 0 <= width
    requires InBounds(Plane(s, srcStride).Transposed(), 8, ColumnsUsed(width, hasSsse3), src.Length)
    requires InBounds(Plane(d, dstStride), 8, ColumnsUsed(width, hasSsse3), dst.Length)
    requires Distinct(Plane(d, dstStride), 8, ColumnsUsed(width, hasSsse3))
    modifies dst
    ensures Copied(old(dst[..]), dst[..], Plane(d, dstStride), 8, ColumnsUsed(width, hasSsse3), src[..],
                   Plane(s, srcStride).Transposed())
  {
    hide View.At, Copied, InBounds, Distinct;
    if hasSsse3 {
      if width % 8 == 0 {
        TransposeWx8Ssse3(src, s, srcStride, dst, d, dstStride, width);
      } else {
        TransposeWx8AnySsse3(src, s, srcStride, dst, d, dstStride, width);
      }
    } else {
      TransposeWx8C(src, s, srcStride, dst, d, dstStride, width);
    }
  }

  lemma BandsFit(width: nat, height: nat, hasSsse3: bool, b: nat)
    requires 8 * b <= height
    ensures 8 * b <= RowsUsed(width, height, hasSsse3)
    ensures hasSsse3 && width == 0 && height - 8 * b < 8 ==> RowsUsed(width, height, hasSsse3) == 8 * b
    ensures !(hasSsse3 && width == 0) ==>
      RowsUsed(width, height, hasSsse3) == height && ColumnsUsed(width, hasSsse3) == width
  {
    if height - 8 * b < 8 {
      assert height % 8 == height - 8 * b;
    }
  }

  method TransposePlane(src: array<byte>, s: int, srcStride: int, dst: array<byte>, d: int, dstStride: int,
                        width: int, height: int, hasSsse3: bool)
    requires src != dst && 0 <= width && 0 <= height
    requires InBounds(Plane(s, srcStride), ColumnsUsed(width, hasSsse3), RowsUsed(width, height, hasSsse3), src.Length)
    requires InBounds(Plane(d, dstStride), RowsUsed(width, height, hasSsse3), ColumnsUsed(width, hasSsse3), dst.Length)
    requires Distinct(Plane(d, dstStride), RowsUsed(width, height, hasSsse3), ColumnsUsed(width, hasSsse3))
    modifies dst
    ensures Copied(old(dst[..]), dst[..], Plane(d, dstStride), RowsUsed(width, height, hasSsse3),
                   ColumnsUsed(width, hasSsse3),
                   src[..], Plane(s, srcStride).Transposed())
  {
    hide *;
    ghost var cols, rows := ColumnsUsed(width, hasSsse3), RowsUsed(width, height, hasSsse3);
    ghost var dv, sv, m0 := Plane(d, dstStride), Plane(s, srcStride).Transposed(), dst[..];
    TransposeBounds(Plane(s, srcStride), cols, rows, src.Length);
    CopiedNothing(m0, dv, 0, cols, src[..], sv);
    var sp, dp, i := s, d, height;
    ghost var b := 0;
    BandsFit(width, height, hasSsse3, 0);
    while i >= 8
      invariant 0 <= b && 0 <= i == height - 8 * b && 8 * b <= rows && sp == s + 8 * b * srcStride && dp == d + 8 * b
      invariant Copied(m0, dst[..], dv, 8 * b, cols, src[..], sv)
    {
      ghost var m1 := dst[..];
      BandsFit(width, height, hasSsse3, b + 1);
      ColumnsPart(dv, dst.Length, sv, src.Length, rows, cols, 8 * b, 8);
      PlaneRight(d, dstStride, 8 * b);
      PlaneDown(s, srcStride, 8 * b);
      TransposeBand(src, sp, srcStride, dst, dp, dstStride, width, hasSsse3);
      StackColumns(m0, m1, dst[..], dv, 8 * b, 8, rows, cols, src[..], sv);
      NextTile(8 * b, srcStride);
      sp := sp + 8 * srcStride;
      dp := dp + 8;
      i := i - 8;
      b := b + 1;
    }
    BandsFit(width, height, hasSsse3, b);
    if i > 0 {
      ghost var m1 := dst[..];
      PlaneRight(d, dstStride, 8 * b);
      PlaneDown(s, srcStride, 8 * b);
      if hasSsse3 && width == 0 {
        NoCells(dp, dstStride, sp, srcStride, i, src.Length, dst.Length);
        TransposeWxHC(src, sp, srcStride, dst, dp, dstStride, width, i);
        NothingCopied(m1, dst[..], Plane(dp, dstStride), i, src[..], Plane(sp, srcStride).Transposed());
      } else {
        ColumnsPart(dv, dst.Length, sv, src.Length, rows, cols, 8 * b, i);
        TransposeWxHC(src, sp, srcStride, dst, dp, dstStride, width, i);
        StackColumns(m0, m1, dst[..], dv, 8 * b, i, rows, cols, src[..], sv);
      }
    }
  }

  /** Whatever the memory and the planes, a transpose changes nothing outside the destination image. */
  ghost predicate KeepsRest(width: nat, height: nat, hasSsse3: bool) {
    forall before: seq<byte>, after: seq<byte>, src: seq<byte>, d, dstStride, s, srcStride
      | Transposes(before, after, d, dstStride, src, s, srcStride, width, height, hasSsse3) ::
      OnlyChanged(before, after, Plane(d, dstStride), height, width)
  }

  /** What TransposePlane promises of the memory that it leaves. */
  ghost predicate Transposes(before: seq<byte>, after: seq<byte>, d: int, dstStride: int, src: seq<byte>, s: int,
                             srcStride: int,
                             width: nat, height: nat, hasSsse3: bool) {
    Copied(before, after, Plane(d, dstStride), RowsUsed(width, height, hasSsse3), ColumnsUsed(width, hasSsse3),
           src, Plane(s, srcStride).Transposed())
  }

  /** Nothing but the destination image is touched, in any memory, exactly if the width is not zero,
      there are fewer than eight rows or the C kernel runs. */
  lemma OnlyPromised(width: nat, height: nat, hasSsse3: bool)
    ensures KeepsRest(width, height, hasSsse3) <==> 0 < width || height < 8 || !hasSsse3
  {
    if 0 < width || height < 8 || !hasSsse3 {
      forall before: seq<byte>, after: seq<byte>, src: seq<byte>, d, dstStride, s, srcStride
        | Transposes(before, after, d, dstStride, src, s, srcStride, width, height, hasSsse3)
        ensures OnlyChanged(before, after, Plane(d, dstStride), height, width)
      {
        UsedOrNothing(before, after, Plane(d, dstStride), width, height, hasSsse3);
      }
    } else {
      TilesWritten(height);
    }
  }

  lemma UsedOrNothing(before: seq<byte>, after: seq<byte>, dv: View, width: nat, height: nat, hasSsse3: bool)
    requires 0 < width || height < 8 || !hasSsse3
    requires OnlyChanged(before, after, dv, RowsUsed(width, height, hasSsse3), ColumnsUsed(width, hasSsse3))
    ensures OnlyChanged(before, after, dv, height, width)
  {
    if hasSsse3 && width == 0 {
      assert RowsUsed(width, height, hasSsse3) == 0;
    }
  }

  /** Zeroes overwritten by ones although the image is empty. */
  lemma TilesWritten(height: nat)
    requires 8 <= height
    ensures !KeepsRest(0, height, true)
  {
    var n := RowsUsed(0, height, true);
    var before, after, src := seq<byte>(8 * n, _ => 0), seq<byte>(8 * n, _ => 1), seq<byte>(8 * n, _ => 1);
    forall x, y | 0 <= x < n && 0 <= y < 8
      ensures 0 <= Plane(0, n).At(x, y) < 8 * n && 0 <= Plane(0, 8).Transposed().At(x, y) < 8 * n
    {
      MulMonotone(y, 7, n);
    }
    forall k | 0 <= k < 8 * n
      ensures Covers(Plane(0, n), n, 8, k)
    {
      TileCovered(n, k);
    }
    assert Transposes(before, after, 0, n, src, 0, 8, 0, height, true);
    assert after[0] != before[0];
  }

  lemma TileCovered(n: nat, k: nat)
    requires k < 8 * n
    ensures Covers(Plane(0, n), n, 8, k)
  {
    FlatIndex(n, 8, k);
    assert Plane(0, n).At(k % n, k / n) == k;
  }

  /** An empty image of eight rows: the vector kernel overwrites the destination all the same. */
  method TransposeNothing(v: byte) returns (first: byte)
    ensures first == v
  {
    hide *;
    var src := new byte[64](_ => v);
    var dst := new byte[64](_ => 0);
    TileRoom();
    ghost var before := dst[..];
    TransposePlane(src, 0, 8, dst, 0, 8, 0, 8, true);
    FirstCell(before, dst[..], src[..]);
    first := dst[0];
  }

  lemma FirstCell(before: seq<byte>, after: seq<byte>, src: seq<byte>)
    requires Copied(before, after, Plane(0, 8), 8, 8, src, Plane(0, 8).Transposed()) && |after| == |src| == 64
    ensures after[0] == src[0]
  {
    hide View.At, OnlyChanged, InBounds;
    var dv, sv := Plane(0, 8), Plane(0, 8).Transposed();
    OriginAt(dv);
    OriginAt(sv);
    assert after[dv.At(0, 0)] == src[sv.At(0, 0)];
  }

  lemma TileRoom()
    ensures ColumnsUsed(0, true) == 8 && RowsUsed(0, 8, true) == 8
    ensures InBounds(Plane(0, 8), 8, 8, 64) && Distinct(Plane(0, 8), 8, 8)
  {
    PlaneDistinct(0, 8, 8, 8);
  }

  lemma NoCells(d: int, dstStride: int, s: int, srcStride: int, i: int, srcLen: int, dstLen: int)
    ensures InBounds(Plane(s, srcStride).Transposed(), i, 0, srcLen)
    ensures InBounds(Plane(d, dstStride), i, 0, dstLen) && Distinct(Plane(d, dstStride), i, 0)
  {
  }

  lemma NothingCopied<T>(m: seq<T>, m': seq<T>, dv: View, w: int, src: seq<T>, sv: View)
    requires Copied(m, m', dv, w, 0, src, sv)
    ensures m' == m
  {
  }

  // ----- quarter turns

  method RotatePlane90(src: array<byte>, s: int, srcStride: int, dst: array<byte>, d: int, dstStride: int,
                       width: int, height: int, hasSsse3: bool)
    requires src != dst && 0 <= width && 0 <= height
    requires InBounds(Plane(s, srcStride).FlippedY(height), ColumnsUsed(width, hasSsse3),
                      RowsUsed(width, height, hasSsse3), src.Length)
    requires InBounds(Plane(d, dstStride), RowsUsed(width, height, hasSsse3), ColumnsUsed(width, hasSsse3), dst.Length)
    requires Distinct(Plane(d, dstStride), RowsUsed(width, height, hasSsse3), ColumnsUsed(width, hasSsse3))
    modifies dst
    ensures Copied(old(dst[..]), dst[..], Plane(d, dstStride), RowsUsed(width, height, hasSsse3),
                   ColumnsUsed(width, hasSsse3),
                   src[..], Rotated(Plane(s, srcStride), width, height, Rotate90))
  {
    hide View.At, Copied, InBounds, Distinct;
    FlippedPlane(s, srcStride, height);
    TransposePlane(src, s + srcStride * (height - 1), -srcStride, dst, d, dstStride, width, height, hasSsse3);
  }

  method RotatePlane270(src: array<byte>, s: int, srcStride: int, dst: array<byte>, d: int, dstStride: int,
                        width: int, height: int, hasSsse3: bool)
    requires src != dst && 0 <= width && 0 <= height
    requires InBounds(Plane(s, srcStride), ColumnsUsed(width, hasSsse3), RowsUsed(width, height, hasSsse3), src.Length)
    requires InBounds(Plane(d, dstStride).FlippedY(width), RowsUsed(width, height, hasSsse3),
                      ColumnsUsed(width, hasSsse3), dst.Length)
    requires Distinct(Plane(d, dstStride).FlippedY(width), RowsUsed(width, height, hasSsse3),
                      ColumnsUsed(width, hasSsse3))
    modifies dst
    ensures 0 < width ==>
      Copied(old(dst[..]), dst[..], Plane(d, dstStride), height, width, src[..],
             Rotated(Plane(s, srcStride), width, height, Rotate270))
    ensures Copied(old(dst[..]), dst[..], Plane(d, dstStride).FlippedY(width), RowsUsed(width, height, hasSsse3),
                   ColumnsUsed(width, hasSsse3),
                   src[..], Plane(s, srcStride).Transposed())
  {
    hide View.At, Copied, InBounds, Distinct;
    ghost var m0 := dst[..];
    FlippedPlane(d, dstStride, width);
    TransposePlane(src, s, srcStride, dst, d + dstStride * (width - 1), -dstStride, width, height, hasSsse3);
    if 0 < width {
      FlippedBounds(Plane(d, dstStride), height, width, dst.Length);
      CopiedFlipped(m0, dst[..], Plane(d, dstStride), height, width, src[..], Plane(s, srcStride).Transposed());
    }
  }

  lemma FlippedBounds(v: View, w: int, h: int, len: int)
    requires InBounds(v.FlippedY(h), w, h, len)
    ensures InBounds(v, w, h, len)
  {
    FlipBounds(v.FlippedY(h), w, h, len);
    assert v.FlippedY(h).FlippedY(h) == v;
  }

  /** An image that is not empty: what both quarter turns read and write. */
  lemma QuarterRoom(src: View, srcLen: int, dst: View, dstLen: int, w: int, h: int, hasSsse3: bool)
    requires 0 < w && 0 <= h && InBounds(src, w, h, srcLen) && InBounds(dst, h, w, dstLen) && Distinct(dst, h, w)
    ensures ColumnsUsed(w, hasSsse3) == w && RowsUsed(w, h, hasSsse3) == h
    ensures InBounds(src.FlippedY(h), w, h, srcLen) && InBounds(dst.FlippedY(w), h, w, dstLen)
    ensures Distinct(dst.FlippedY(w), h, w)
  {
    FlipBounds(src, w, h, srcLen);
    FlipBounds(dst, h, w, dstLen);
    FlipDistinct(dst, h, w);
  }

  // ----- half turn, possibly in place

  /** After y steps the outer y rows at each end hold the turned image and the rows between
      them are untouched. */
  ghost predicate HalfTurned<T>(m0: seq<T>, m: seq<T>, dv: View, w: int, h: int, y: int, src: seq<T>, rv: View) {
    && InBounds(dv, w, h, |m0|) && InBounds(rv, w, h, |src|)
    && OnlyChanged(m0, m, dv, w, h)
    && (forall x, r | 0 <= x < w && 0 <= r < h && (r < y || h - y <= r) :: m[dv.At(x, r)] == src[rv.At(x, r)])
    && (forall x, r | 0 <= x < w && 0 <= r < h && y <= r < h - y :: m[dv.At(x, r)] == m0[dv.At(x, r)])
  }

  /** One step: row y, then the row opposite.  On the middle row of an odd height the first
      write may leave anything; the second one decides. */
  lemma TurnRows<T>(m0: seq<T>, m: seq<T>, m1: seq<T>, m2: seq<T>, dv: View, w: int, h: int, y: int, z: int,
                    src: seq<T>, rv: View)
    requires HalfTurned(m0, m, dv, w, h, y, src, rv) && Distinct(dv, w, h) && 0 <= y <= z == h - 1 - y
    requires OnlyChanged(m, m1, dv.Shift(0, y), w, 1) && OnlyChanged(m1, m2, dv.Shift(0, z), w, 1)
    requires y != z ==> forall x | 0 <= x < w :: m1[dv.At(x, y)] == src[rv.At(x, y)]
    requires forall x | 0 <= x < w :: m2[dv.At(x, z)] == src[rv.At(x, z)]
    ensures HalfTurned(m0, m2, dv, w, h, y + 1, src, rv)
  {
    hide View.At;
    OnlyChangedPart(m0, m, m1, dv, w, h, 0, y, w, 1);
    OnlyChangedPart(m0, m1, m2, dv, w, h, 0, z, w, 1);
    forall x, r | 0 <= x < w && 0 <= r < h && r != z
      ensures m2[dv.At(x, r)] == m1[dv.At(x, r)]
    {
      Survives(m1, m2, dv, w, h, 0, z, w, 1, x, r);
    }
    forall x, r | 0 <= x < w && 0 <= r < h && r != y
      ensures m1[dv.At(x, r)] == m[dv.At(x, r)]
    {
      Survives(m, m1, dv, w, h, 0, y, w, 1, x, r);
    }
  }

  lemma TurnedAt(v: View, w: int, h: int, x: int, y: int)
    ensures Rotated(v, w, h, Rotate180).At(x, y) == v.At(w - 1 - x, h - 1 - y)
  {
    MirrorAt(v.FlippedY(h), w, x, y);
    FlipAt(v, h, w - 1 - x, y);
  }

  lemma TurnedBounds(v: View, w: int, h: int, len: int)
    requires InBounds(v, w, h, len)
    ensures InBounds(Rotated(v, w, h, Rotate180), w, h, len)
  {
    FlipBounds(v, w, h, len);
    MirrorBounds(v.FlippedY(h), w, h, len);
  }

  /** The addresses of one step, for the destination plane and the source plane alike. */
  lemma StepRows(off: int, stride: int, w: int, h: int, len: int, y: int, z: int)
    requires InBounds(Plane(off, stride), w, h, len) && 0 <= w && 0 <= y <= z == h - 1 - y
    ensures RowInMemory(RowStart(off, stride, y), w, len) && RowInMemory(RowStart(off, stride, z), w, len)
    ensures forall x | 0 <= x < w :: Plane(off, stride).At(x, y) == RowStart(off, stride, y) + x
    ensures forall x | 0 <= x < w :: Plane(off, stride).At(x, z) == RowStart(off, stride, z) + x
    ensures Plane(off, stride).Shift(0, y) == Plane(RowStart(off, stride, y), stride)
    ensures Plane(off, stride).Shift(0, z) == Plane(RowStart(off, stride, z), stride)
    ensures Distinct(Plane(off, stride), w, h) && y != z ==>
      RowStart(off, stride, y) + w <= RowStart(off, stride, z)
        || RowStart(off, stride, z) + w <= RowStart(off, stride, y)
  {
    PlaneRow(off, stride, w, h, len, y);
    PlaneRow(off, stride, w, h, len, z);
    if Distinct(Plane(off, stride), w, h) && y != z {
      PlaneRowsApart(off, stride, w, h, y, z);
    }
  }

  /** Row p of memory m is row q of memory n, mirrored. */
  ghost predicate MirroredRow<T>(m: seq<T>, p: int, n: seq<T>, q: int, w: int) {
    && RowInMemory(p, w, |m|) && RowInMemory(q, w, |n|)
    && forall k | p <= k < p + w :: m[k] == n[q + w - 1 - (k - p)]
  }

  ghost predicate SameRow<T>(m: seq<T>, n: seq<T>, q: int, w: int) {
    && RowInMemory(q, w, |m|) && RowInMemory(q, w, |n|)
    && forall k | q <= k < q + w :: m[k] == n[k]
  }

  /** A row mirrored from the opposite row of the source is a row of the turned image. */
  lemma TurnedRow<T>(m: seq<T>, d: int, ds: int, y: int, now: seq<T>, s: int, ss: int, src: seq<T>, w: int, h: int)
    requires 0 <= w && MirroredRow(m, RowStart(d, ds, y), now, RowStart(s, ss, h - 1 - y), w)
    requires SameRow(now, src, RowStart(s, ss, h - 1 - y), w)
    ensures forall x | 0 <= x < w ::
      0 <= Plane(d, ds).At(x, y) < |m| && 0 <= Rotated(Plane(s, ss), w, h, Rotate180).At(x, y) < |src|
    ensures forall x | 0 <= x < w :: m[Plane(d, ds).At(x, y)] == src[Rotated(Plane(s, ss), w, h, Rotate180).At(x, y)]
  {
    var p, q := RowStart(d, ds, y), RowStart(s, ss, h - 1 - y);
    forall x | 0 <= x < w
      ensures Plane(d, ds).At(x, y) == p + x && Rotated(Plane(s, ss), w, h, Rotate180).At(x, y) == q + w - 1 - x
      ensures m[p + x] == src[q + w - 1 - x]
    {
      hide Rotated, RowStart, View.At;
      TurnedAt(Plane(s, ss), w, h, x, y);
      CellOfRow(d, ds, x, y);
      CellOfRow(s, ss, w - 1 - x, h - 1 - y);
      assert m[p + x] == now[q + w - 1 - (p + x - p)];
    }
  }

  lemma CellOfRow(off: int, stride: int, x: int, y: int)
    ensures Plane(off, stride).At(x, y) == RowStart(off, stride, y) + x
  {
  }

  /** The rows the body is about to read still hold the original image. */
  lemma StillSource<T>(m0: seq<T>, m: seq<T>, d: int, ds: int, w: int, h: int, y: int, r: int, src: seq<T>, now: seq<T>,
                       s: int, ss: int, rv: View)
    requires 0 <= w && 0 <= y <= r < h - y && InBounds(Plane(s, ss), w, h, |src|)
    requires HalfTurned(m0, m, Plane(d, ds), w, h, y, src, rv)
    requires now == src || (now == m && src == m0 && s == d && ss == ds)
    ensures SameRow(now, src, RowStart(s, ss, r), w)
  {
    PlaneRow(s, ss, w, h, |src|, r);
    hide RowStart, View.At;
    CellOfRow(s, ss, 0, r);
    if now != src {
      var q := RowStart(s, ss, r);
      forall k | q <= k < q + w ensures now[k] == src[k] {
        CellOfRow(s, ss, k - q, r);
        assert m[Plane(d, ds).At(k - q, r)] == m0[Plane(d, ds).At(k - q, r)];
      }
    }
  }

  /** What the loop body writes, row by row, is one step of the turn.  `now` is the source
      memory as the body reads it: the untouched original, or the destination itself. */
  lemma TurnStep<T>(m0: seq<T>, m: seq<T>, m1: seq<T>, m2: seq<T>, d: int, ds: int, dp: int, dstBot: int, w: int,
                    h: int, y: int, z: int,
                    src: seq<T>, now: seq<T>, s: int, ss: int, sp: int, srcBot: int)
    requires 0 <= w && 0 <= y <= z == h - 1 - y && Distinct(Plane(d, ds), w, h) && InBounds(Plane(s, ss), w, h, |src|)
    requires HalfTurned(m0, m, Plane(d, ds), w, h, y, src, Rotated(Plane(s, ss), w, h, Rotate180))
    requires now == src || (now == m && src == m0 && s == d && ss == ds)
    requires |m1| == |m0| && |m2| == |m0|
    requires dp == RowStart(d, ds, y) && dstBot == RowStart(d, ds, z) && sp == RowStart(s, ss, y)
    requires srcBot == RowStart(s, ss, z)
    requires forall k | 0 <= k < |m| && !(dp <= k < dp + w) :: m1[k] == m[k]
    requires forall k | 0 <= k < |m| && !(dstBot <= k < dstBot + w) :: m2[k] == m1[k]
    requires y != z ==> MirroredRow(m1, dp, now, srcBot, w)
    requires MirroredRow(m2, dstBot, now, sp, w)
    ensures HalfTurned(m0, m2, Plane(d, ds), w, h, y + 1, src, Rotated(Plane(s, ss), w, h, Rotate180))
  {
    ghost var rv := Rotated(Plane(s, ss), w, h, Rotate180);
    RowOnlyChanged(m, m1, dp, ds, w);
    RowOnlyChanged(m1, m2, dstBot, ds, w);
    StillSource(m0, m, d, ds, w, h, y, y, src, now, s, ss, rv);
    StillSource(m0, m, d, ds, w, h, y, z, src, now, s, ss, rv);
    hide *;
    StepShift(d, ds, y, z);
    if y != z {
      TurnedRow(m1, d, ds, y, now, s, ss, src, w, h);
    }
    TurnedRow(m2, d, ds, z, now, s, ss, src, w, h);
    TurnRows(m0, m, m1, m2, Plane(d, ds), w, h, y, z, src, rv);
  }

  lemma StepShift(off: int, stride: int, y: int, z: int)
    ensures Plane(off, stride).Shift(0, y) == Plane(RowStart(off, stride, y), stride)
    ensures Plane(off, stride).Shift(0, z) == Plane(RowStart(off, stride, z), stride)
  {
  }

  lemma HalfTurnedStart<T>(m: seq<T>, dv: View, w: int, h: int, src: seq<T>, sv: View)
    requires InBounds(dv, w, h, |m|) && InBounds(sv, w, h, |src|)
    ensures HalfTurned(m, m, dv, w, h, 0, src, Rotated(sv, w, h, Rotate180))
  {
    TurnedBounds(sv, w, h, |src|);
  }

  lemma HalfTurnedEnd<T>(m0: seq<T>, m: seq<T>, dv: View, w: int, h: int, y: int, src: seq<T>, rv: View)
    requires HalfTurned(m0, m, dv, w, h, y, src, rv) && y >= h - y
    ensures Copied(m0, m, dv, w, h, src, rv)
  {
    hide View.At;
  }

  /** The loop body: first row into the buffer, last row mirrored into the first, buffer
      mirrored into the last.  m1 is the destination after the first of the two writes. */
  method SwapRows<T>(src: array<T>, sp: int, srcBot: int, dst: array<T>, dp: int, dstBot: int, row: array<T>,
                     width: int)
    returns (ghost m1: seq<T>)
    requires row != src && row != dst && row.Length == width
    requires RowInMemory(sp, width, src.Length) && RowInMemory(srcBot, width, src.Length)
    requires RowInMemory(dp, width, dst.Length) && RowInMemory(dstBot, width, dst.Length)
    modifies row, dst
    ensures |m1| == dst.Length
    ensures forall k | 0 <= k < dst.Length && !(dp <= k < dp + width) :: m1[k] == old(dst[k])
    ensures forall k | 0 <= k < dst.Length && !(dstBot <= k < dstBot + width) :: dst[k] == m1[k]
    ensures src != dst || srcBot + width <= dp || dp + width <= srcBot ==>
      MirroredRow(m1, dp, old(src[..]), srcBot, width)
    ensures MirroredRow(dst[..], dstBot, old(src[..]), sp, width)
  {
    CopyRow(src, sp, row, 0, width);
    MirrorRow(src, srcBot, dst, dp, width);
    m1 := dst[..];
    MirrorRow(row, 0, dst, dstBot, width);
  }

  /** Swap first and last row and mirror the content, through a temporary row.  The two planes
      are distinct buffers or the very same plane. */
  method RotatePlane180<T(0)>(src: array<T>, s: int, srcStride: int, dst: array<T>, d: int, dstStride: int, width: int,
                              height: int)
    requires 0 <= width && 0 <= height
    requires src == dst ==> s == d && srcStride == dstStride
    requires InBounds(Plane(s, srcStride), width, height, src.Length)
    requires InBounds(Plane(d, dstStride), width, height, dst.Length) && Distinct(Plane(d, dstStride), width, height)
    modifies dst
    ensures Copied(old(dst[..]), dst[..], Plane(d, dstStride), width, height, old(src[..]),
                   Rotated(Plane(s, srcStride), width, height, Rotate180))
  {
    hide *;
    ghost var m0, s0, dv, rv :=
      dst[..], src[..], Plane(d, dstStride), Rotated(Plane(s, srcStride), width, height, Rotate180);
    HalfTurnedStart(m0, dv, width, height, s0, Plane(s, srcStride));
    var row := new T[width];
    var sp, dp := s, d;
    var srcBot, dstBot := s + srcStride * (height - 1), d + dstStride * (height - 1);
    NextRow(s, srcStride, 0);
    NextRow(d, dstStride, 0);
    RowStartIs(s, srcStride, height - 1);
    RowStartIs(d, dstStride, height - 1);
    var halfHeight := (height + 1) / 2;
    var y := 0;
    while y < halfHeight
      invariant 0 <= y <= halfHeight
      invariant sp == RowStart(s, srcStride, y) && dp == RowStart(d, dstStride, y)
      invariant srcBot == RowStart(s, srcStride, height - 1 - y) && dstBot == RowStart(d, dstStride, height - 1 - y)
      invariant src != dst ==> src[..] == s0
      invariant HalfTurned(m0, dst[..], dv, width, height, y, s0, rv)
    {
      ghost var m, now, z := dst[..], src[..], height - 1 - y;
      StepRows(s, srcStride, width, height, src.Length, y, z);
      StepRows(d, dstStride, width, height, dst.Length, y, z);
      ghost var m1 := SwapRows(src, sp, srcBot, dst, dp, dstBot, row, width);
      TurnStep(m0, m, m1, dst[..], d, dstStride, dp, dstBot, width, height, y, z, s0, now, s, srcStride, sp, srcBot);
      NextRow(s, srcStride, y);
      NextRow(d, dstStride, y);
      NextRow(s, srcStride, z - 1);
      NextRow(d, dstStride, z - 1);
      sp := sp + srcStride;
      dp := dp + dstStride;
      srcBot := srcBot - srcStride;
      dstBot := dstBot - dstStride;
      y := y + 1;
    }
    HalfTurnedEnd(m0, dst[..], dv, width, height, y, s0, rv);
  }

  // ----- RotatePlane

  method RotatePlane(src: Surface, dst: Surface, width: int, height: int, mode: RotationMode, hasSsse3: bool)
    returns (ret: int)
    requires src.mem != null && dst.mem != null && 0 < width && height != 0 ==>
      && src.Readable(width, Abs(height))
      && dst.Writable(RotatedWidth(width, Abs(height), mode), RotatedHeight(width, Abs(height), mode))
      && (src.mem == dst.mem ==> src == dst && 0 < height && (mode == Rotate0 || mode == Rotate180))
    modifies dst.mem
    ensures ret
      == (if src.mem != null && dst.mem != null && 0 < width && height != 0 && !mode.RotateOther? then 0 else -1)
    ensures ret == -1 && dst.mem != null ==> dst.mem[..] == old(dst.mem[..])
    ensures ret == 0 ==>
      Copied(old(dst.mem[..]), dst.mem[..], dst.AsPlane(),
             RotatedWidth(width, Abs(height), mode), RotatedHeight(width, Abs(height), mode),
             old(src.mem[..]), Rotated(Upright(src.AsPlane(), height), width, Abs(height), mode))
  {
    if src.mem == null || width <= 0 || height == 0 || dst.mem == null {
      return -1;
    }
    hide View.At, Copied, InBounds, Distinct;
    var h, s, srcStride := height, src.off, src.stride;
    // Upside down: begin at the last row and go upwards.
    if h < 0 {
      h := -h;
      FlipBounds(src.AsPlane(), width, h, src.mem.Length);
      FlippedPlane(src.off, src.stride, h);
      s := s + (h - 1) * srcStride;
      srcStride := -srcStride;
    }
    match mode {
      case Rotate0 =>
        CopyPlane(src.mem, s, srcStride, dst.mem, dst.off, dst.stride, width, h);
        return 0;
      case Rotate90 =>
        QuarterRoom(Plane(s, srcStride), src.mem.Length, dst.AsPlane(), dst.mem.Length, width, h, hasSsse3);
        RotatePlane90(src.mem, s, srcStride, dst.mem, dst.off, dst.stride, width, h, hasSsse3);
        return 0;
      case Rotate270 =>
        QuarterRoom(Plane(s, srcStride), src.mem.Length, dst.AsPlane(), dst.mem.Length, width, h, hasSsse3);
        RotatePlane270(src.mem, s, srcStride, dst.mem, dst.off, dst.stride, width, h, hasSsse3);
        return 0;
      case Rotate180 =>
        RotatePlane180(src.mem, s, srcStride, dst.mem, dst.off, dst.stride, width, h);
        return 0;
      case RotateOther(_) =>
    }
    return -1;
  }

  // ----- rotations as a group

  /** Pixel (x, y) of each rotated image, in the words of the public header: clockwise. */
  lemma RotatedAt(v: View, w: int, h: int, x: int, y: int)
    ensures Rotated(v, w, h, Rotate0).At(x, y) == v.At(x, y)
    ensures Rotated(v, w, h, Rotate90).At(x, y) == v.At(y, h - 1 - x)
    ensures Rotated(v, w, h, Rotate180).At(x, y) == v.At(w - 1 - x, h - 1 - y)
    ensures Rotated(v, w, h, Rotate270).At(x, y) == v.At(w - 1 - y, x)
  {
    TransposeAt(v.FlippedY(h), x, y);
    FlipAt(v, h, y, x);
    TurnedAt(v, w, h, x, y);
    FlipAt(v.Transposed(), w, x, y);
    TransposeAt(v, x, w - 1 - y);
  }

  function Turns(mode: RotationMode): int {
    match mode
    case Rotate90 => 1
    case Rotate180 => 2
    case Rotate270 => 3
    case _ => 0
  }

  function OfTurns(n: int): RotationMode {
    if n % 4 == 1 then Rotate90 else if n % 4 == 2 then Rotate180 else if n % 4 == 3 then Rotate270 else Rotate0
  }

  /** A rotated view starts at a corner and walks along one axis or the other. */
  lemma RotatedForm(v: View, w: int, h: int)
    ensures Rotated(v, w, h, Rotate90) == View(v.At(0, h - 1), -v.dy, v.dx)
    ensures Rotated(v, w, h, Rotate180) == View(v.At(w - 1, h - 1), -v.dx, -v.dy)
    ensures Rotated(v, w, h, Rotate270) == View(v.At(w - 1, 0), v.dy, -v.dx)
  {
    TurnedAt(v, w, h, 0, 0);
  }

  /** Rotating an image already rotated is rotating by the sum of the angles. */
  lemma RotationsAdd(v: View, w: int, h: int, a: RotationMode, b: RotationMode)
    ensures Rotated(Rotated(v, w, h, a), RotatedWidth(w, h, a), RotatedHeight(w, h, a), b)
         == Rotated(v, w, h, OfTurns(Turns(a) + Turns(b)))
  {
    var w1, h1 := RotatedWidth(w, h, a), RotatedHeight(w, h, a);
    RotatedForm(v, w, h);
    RotatedForm(Rotated(v, w, h, a), w1, h1);
    RotatedAt(v, w, h, 0, h1 - 1);
    RotatedAt(v, w, h, w1 - 1, h1 - 1);
    RotatedAt(v, w, h, w1 - 1, 0);
    OriginAt(v);
    hide View.At;
  }

  function TurnsOf(modes: seq<RotationMode>): int {
    if modes == [] then 0 else Turns(modes[0]) + TurnsOf(modes[1..])
  }

  /** The view through any number of successive rotations. */
  function RotatedBy(v: View, w: int, h: int, modes: seq<RotationMode>): View
    decreases |modes|
  {
    if modes == [] then v
    else RotatedBy(Rotated(v, w, h, modes[0]), RotatedWidth(w, h, modes[0]), RotatedHeight(w, h, modes[0]), modes[1..])
  }

  lemma TurnsWrap(n: int, k: int)
    ensures OfTurns(n + Turns(OfTurns(k))) == OfTurns(n + k)
  {
    assert (n + k) % 4 == (n + k % 4) % 4;
  }

  /** Any chain of rotations is the rotation by its total angle; four quarter turns are none. */
  lemma {:induction false} RotationsChain(v: View, w: int, h: int, modes: seq<RotationMode>)
    ensures RotatedBy(v, w, h, modes) == Rotated(v, w, h, OfTurns(TurnsOf(modes)))
    decreases |modes|
  {
    if modes != [] {
      var m, k := modes[0], TurnsOf(modes[1..]);
      hide Rotated, RotatedWidth, RotatedHeight, OfTurns, Turns;
      RotationsChain(Rotated(v, w, h, m), RotatedWidth(w, h, m), RotatedHeight(w, h, m), modes[1..]);
      RotationsAdd(v, w, h, m, OfTurns(k));
      TurnsWrap(Turns(m), k);
    }
  }

  lemma OriginAt(v: View)
    ensures v.At(0, 0) == v.off
  {
  }

  /** A reflection turns the other way round: flip then rotate is rotate back then flip. */
  lemma FlipReversesTurns(v: View, w: int, h: int, a: RotationMode)
    ensures Rotated(v.FlippedY(h), w, h, a)
         == Rotated(v, w, h, OfTurns(-Turns(a))).FlippedY(RotatedHeight(w, h, a))
  {
  }

  lemma RotatedBounds(v: View, w: int, h: int, len: int, a: RotationMode)
    requires InBounds(v, w, h, len)
    ensures InBounds(Rotated(v, w, h, a), RotatedWidth(w, h, a), RotatedHeight(w, h, a), len)
  {
    hide View.At;
    FlipBounds(v, w, h, len);
    TransposeBounds(v.FlippedY(h), w, h, len);
    TurnedBounds(v, w, h, len);
    TransposeBounds(v, w, h, len);
    FlipBounds(v.Transposed(), h, w, len);
  }

  /** Reading a rotated view only re-labels cells, so what holds cell for cell before holds
      cell for cell after. */
  lemma RotatedCells<T>(m: seq<T>, mv: View, src: seq<T>, sv: View, w: int, h: int, a: RotationMode, x: int, y: int)
    requires InBounds(mv, w, h, |m|) && InBounds(sv, w, h, |src|)
    requires forall i, j | 0 <= i < w && 0 <= j < h :: m[mv.At(i, j)] == src[sv.At(i, j)]
    requires 0 <= x < RotatedWidth(w, h, a) && 0 <= y < RotatedHeight(w, h, a)
    ensures 0 <= Rotated(mv, w, h, a).At(x, y) < |m| && 0 <= Rotated(sv, w, h, a).At(x, y) < |src|
    ensures m[Rotated(mv, w, h, a).At(x, y)] == src[Rotated(sv, w, h, a).At(x, y)]
  {
    RotatedAt(mv, w, h, x, y);
    RotatedAt(sv, w, h, x, y);
    hide View.At;
  }

  /** Two rotations in a row, each into its own memory, leave what one rotation by the sum of
      the angles would have left. */
  lemma RotateTwice<T>(m0: seq<T>, m1: seq<T>, n0: seq<T>, n1: seq<T>, mid: View, out: View, src: seq<T>, sv: View,
                       w: int, h: int, a: RotationMode, b: RotationMode)
    requires 0 < w && 0 < h && InBounds(sv, w, h, |src|)
    requires Copied(m0, m1, mid, RotatedWidth(w, h, a), RotatedHeight(w, h, a), src, Rotated(sv, w, h, a))
    requires var w1, h1 := RotatedWidth(w, h, a), RotatedHeight(w, h, a);
      Copied(n0, n1, out, RotatedWidth(w1, h1, b), RotatedHeight(w1, h1, b), m1, Rotated(mid, w1, h1, b))
    ensures var ab := OfTurns(Turns(a) + Turns(b));
      Copied(n0, n1, out, RotatedWidth(w, h, ab), RotatedHeight(w, h, ab), src, Rotated(sv, w, h, ab))
  {
    var w1, h1 := RotatedWidth(w, h, a), RotatedHeight(w, h, a);
    var w2, h2 := RotatedWidth(w1, h1, b), RotatedHeight(w1, h1, b);
    RotationsAdd(sv, w, h, a, b);
    hide View.At, Rotated;
    RotatedBounds(sv, w, h, |src|, a);
    RotatedBounds(Rotated(sv, w, h, a), w1, h1, |src|, b);
    var rv := Rotated(Rotated(sv, w, h, a), w1, h1, b);
    forall x, y | 0 <= x < w2 && 0 <= y < h2
      ensures m1[Rotated(mid, w1, h1, b).At(x, y)] == src[rv.At(x, y)]
    {
      RotatedCells(m1, mid, src, Rotated(sv, w, h, a), w1, h1, b, x, y);
    }
    CopiedVia(n0, n1, out, w2, h2, m1, Rotated(mid, w1, h1, b), src, rv);
  }
}
