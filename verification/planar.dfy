/** Whole-plane copies of planar_functions.cc and convert.cc. */
module Planar {
  import opened Counters
  import opened Views
  import opened Rows

  function Abs(h: int): int {
    if h < 0 then -h else h
  }

  /** A negative height means the image is read bottom up. */
  function Upright(v: View, h: int): View {
    if h < 0 then v.FlippedY(-h) else v
  }

  lemma UprightAt(v: View, h: int, x: int, y: int)
    ensures Upright(v, h).At(x, y) == if h < 0 then v.At(x, Abs(h) - 1 - y) else v.At(x, y)
  {
    FlipAt(v, Abs(h), x, y);
  }

  method CopyRows<T>(src: array<T>, s: int, srcStride: int, dst: array<T>, d: int, dstStride: int, width: int,
                     height: int)
    requires src != dst && 0 <= width && 0 <= height
    requires InBounds(Plane(s, srcStride), width, height, src.Length)
    requires InBounds(Plane(d, dstStride), width, height, dst.Length) && Distinct(Plane(d, dstStride), width, height)
    modifies dst
    ensures Copied(old(dst[..]), dst[..], Plane(d, dstStride), width, height, src[..], Plane(s, srcStride))
  {
    hide *;
    ghost var dv, sv, m0 := Plane(d, dstStride), Plane(s, srcStride), dst[..];
    CopiedNothing(m0, dv, width, 0, src[..], sv);
    var sp, dp, y := s, d, 0;
    while y < height
      invariant 0 <= y <= height && sp == s + y * srcStride && dp == d + y * dstStride
      invariant Copied(m0, dst[..], dv, width, y, src[..], sv)
    {
      ghost var m1 := dst[..];
      RowsPart(dv, dst.Length, sv, src.Length, width, height, y, 1);
      PlaneDown(d, dstStride, y);
      PlaneDown(s, srcStride, y);
      RowInside(dp, dstStride, width, dst.Length);
      RowInside(sp, srcStride, width, src.Length);
      CopyRow(src, sp, dst, dp, width);
      RowLaid(m1, dst[..], dp, dstStride, width, src[..], Plane(sp, srcStride));
      StackRows(m0, m1, dst[..], dv, width, y, 1, height, src[..], sv);
      sp := sp + srcStride;
      dp := dp + dstStride;
      y := y + 1;
    }
  }

  lemma RowInside(p: int, stride: int, w: int, len: int)
    requires InBounds(Plane(p, stride), w, 1, len)
    ensures 0 < w ==> 0 <= p && p + w <= len
    ensures forall x | 0 <= x < w :: Plane(p, stride).At(x, 0) == p + x
  {
    if 0 < w {
      assert 0 <= Plane(p, stride).At(0, 0) && Plane(p, stride).At(w - 1, 0) < len;
    }
  }

  method CopyPlane<T>(src: array<T>, s: int, srcStride: int, dst: array<T>, d: int, dstStride: int, width: int,
                      height: int)
    requires 0 <= width
    requires src == dst ==> s == d && srcStride == dstStride && 0 <= height
    requires InBounds(Plane(s, srcStride), width, Abs(height), src.Length)
    requires InBounds(Plane(d, dstStride), width, Abs(height), dst.Length)
    requires Distinct(Plane(d, dstStride), width, Abs(height))
    modifies dst
    ensures Copied(old(dst[..]), dst[..], Plane(d, dstStride), width, Abs(height), old(src[..]),
                   Upright(Plane(s, srcStride), height))
  {
    hide View.At, Copied, InBounds, Distinct;
    ghost var m0, n := dst[..], Abs(height);
    var h, dp, ds := height, d, dstStride;
    // Upside down: begin at the last row and go upwards.
    if h < 0 {
      h := -h;
      dp := dp + (h - 1) * ds;
      ds := -ds;
      FlipBounds(Plane(d, dstStride), width, h, dst.Length);
      FlipDistinct(Plane(d, dstStride), width, h);
      FlippedPlane(d, dstStride, h);
    }
    var w, k, ss := width, h, srcStride;
    // Without gaps the plane is one long row.
    var flat := srcStride == width && ds == width;
    if flat {
      w, k, ss, ds := width * h, 1, 0, 0;
    }
    if src == dst && s == dp && ss == ds {
      SelfCopied(m0, Plane(d, dstStride), width, n);
      return;
    }
    if flat {
      FlatPlanes(s, src.Length, dp, dst.Length, width, h);
    }
    CopyRows(src, s, ss, dst, dp, ds, w, k);
    if flat {
      CopiedFlat(m0, dst[..], dp, width, h, src[..], s, 1);
    }
    if height < 0 {
      CopiedFlipped(m0, dst[..], Plane(d, dstStride), width, n, src[..], Plane(s, srcStride));
    }
  }

  lemma FlatPlanes(s: int, srcLen: int, d: int, dstLen: int, w: int, h: int)
    requires 0 <= w && 0 <= h && InBounds(Plane(s, w), w, h, srcLen) && InBounds(Plane(d, w), w, h, dstLen)
    ensures 0 <= w * h
    ensures InBounds(Plane(s, 0), w * h, 1, srcLen) && InBounds(Plane(d, 0), w * h, 1, dstLen)
    ensures Distinct(Plane(d, 0), w * h, 1)
  {
    FlatBounds(s, 1, w, h, srcLen);
    FlatBounds(d, 1, w, h, dstLen);
    PlaneDistinct(d, 0, w * h, 1);
  }

  /** One row of `run` bytes in place of the whole plane, in any memory; dx is the step of the source. */
  ghost predicate RunIsPlane(run: int, w: nat, h: nat, dx: int) {
    forall before: seq<byte>, after: seq<byte>, src: seq<byte>, d, s
      | RunCopied(before, after, d, src, s, run, w, h, dx) ::
      Copied(before, after, Plane(d, w), w, h, src, View(s, dx, w * dx))
  }

  ghost predicate RunCopied(before: seq<byte>, after: seq<byte>, d: int, src: seq<byte>, s: int, run: int, w: nat,
                            h: nat, dx: int) {
    && InBounds(Plane(d, w), w, h, |before|) && InBounds(View(s, dx, w * dx), w, h, |src|)
    && Copied(before, after, Plane(d, 0), run, 1, src, View(s, dx, 0))
  }

  /** The product of width and height is an int: the long row is the plane, in every memory, exactly
      if there are fewer than 2^31 cells. */
  lemma CoalescedRight(w: nat, h: nat, dx: nat)
    requires 0 < dx
    ensures RunIsPlane(Wrap32(w * h), w, h, dx) <==> w * h < TWO31
  {
    hide Wrap32;
    if w * h < TWO31 {
      WrapExact(w * h);
      forall before: seq<byte>, after: seq<byte>, src: seq<byte>, d, s
        | RunCopied(before, after, d, src, s, w * h, w, h, dx)
        ensures Copied(before, after, Plane(d, w), w, h, src, View(s, dx, w * dx))
      {
        CopiedFlat(before, after, d, w, h, src, s, dx);
      }
    } else {
      WrapInside(w * h);
      RunTooShort(Wrap32(w * h), w, h, dx);
    }
  }

  /** Zeroes in place of the ones past the end of a shorter run. */
  lemma RunTooShort(run: int, w: nat, h: nat, dx: nat)
    requires 0 < dx && run < w * h && 0 < w * h
    ensures !RunIsPlane(run, w, h, dx)
  {
    var n := w * h;
    var before, src := seq<byte>(n, _ => 0), seq<byte>(dx * n, _ => 1);
    var after := seq<byte>(n, k => if k < run then 1 else 0);
    TightCells(w, h, dx);
    ShortRun(run, n, dx, before, after, src);
    assert RunCopied(before, after, 0, src, 0, run, w, h, dx);
    LastCell(w, h);
    assert !Copied(before, after, Plane(0, w), w, h, src, View(0, dx, w * dx));
  }

  lemma LastCell(w: nat, h: nat)
    requires 0 < w * h
    ensures 0 < w && 0 < h && Plane(0, w).At(w - 1, h - 1) == w * h - 1
  {
  }

  lemma TightCells(w: nat, h: nat, dx: nat)
    requires 0 < dx
    ensures InBounds(Plane(0, w), w, h, w * h) && InBounds(View(0, dx, w * dx), w, h, dx * (w * h))
  {
    forall x, y | 0 <= x < w && 0 <= y < h
      ensures 0 <= Plane(0, w).At(x, y) < w * h
      ensures 0 <= View(0, dx, w * dx).At(x, y) < dx * (w * h)
    {
      FlatIndexInside(w, h, x, y);
      FlatAt(0, dx, w, x, y);
      ScaledIndex(x + y * w, w * h, dx);
    }
  }

  lemma ScaledIndex(k: nat, n: nat, dx: nat)
    requires k < n && 0 < dx
    ensures 0 <= k * dx < dx * n
  {
    MulMonotone(k + 1, n, dx);
  }

  lemma ShortRun(run: int, n: nat, dx: nat, before: seq<byte>, after: seq<byte>, src: seq<byte>)
    requires run < n && 0 < dx && |before| == |after| == n && |src| == dx * n
    requires (forall k | 0 <= k < |src| :: src[k] == 1)
    requires forall k | 0 <= k < n :: before[k] == 0 && after[k] == if k < run then 1 else 0
    ensures Copied(before, after, Plane(0, 0), run, 1, src, View(0, dx, 0))
  {
    forall x, y | 0 <= x < run && 0 <= y < 1
      ensures Plane(0, 0).At(x, y) == x && 0 <= View(0, dx, 0).At(x, y) < |src|
    {
      ScaledIndex(x, n, dx);
    }
    forall k | 0 <= k < n && !Covers(Plane(0, 0), run, 1, k)
      ensures after[k] == before[k]
    {
      if k < run {
        RunCovers(run, k);
      }
    }
  }

  lemma RunCovers(run: int, k: nat)
    requires k < run
    ensures Covers(Plane(0, 0), run, 1, k)
  {
    assert Plane(0, 0).At(k, 0) == k;
  }

  lemma SelfCopied<T>(m: seq<T>, v: View, w: int, h: int)
    requires InBounds(v, w, h, |m|)
    ensures Copied(m, m, v, w, h, m, v)
  {
  }

  lemma FlippedPlane(off: int, stride: int, h: int)
    ensures Plane(off, stride).FlippedY(h) == Plane(off + (h - 1) * stride, -stride)
  {
  }

  // ----- interleaved chroma

  /** Every second byte of an interleaved UV plane, starting with U or with V. */
  function UPlane(off: int, stride: int): View {
    View(off, 2, stride)
  }

  function VPlane(off: int, stride: int): View {
    View(off + 1, 2, stride)
  }

  ghost predicate UVInBounds(off: int, stride: int, w: int, h: int, len: int) {
    InBounds(UPlane(off, stride), w, h, len) && InBounds(VPlane(off, stride), w, h, len)
  }

  method SplitUVRows(src: array<byte>, s: int, srcStride: int, dstU: array<byte>, u: int, strideU: int,
                     dstV: array<byte>, v: int, strideV: int, width: int, height: int)
    requires src != dstU && src != dstV && dstU != dstV && 0 <= width && 0 <= height
    requires UVInBounds(s, srcStride, width, height, src.Length)
    requires InBounds(Plane(u, strideU), width, height, dstU.Length) && Distinct(Plane(u, strideU), width, height)
    requires InBounds(Plane(v, strideV), width, height, dstV.Length) && Distinct(Plane(v, strideV), width, height)
    modifies dstU, dstV
    ensures Copied(old(dstU[..]), dstU[..], Plane(u, strideU), width, height, src[..], UPlane(s, srcStride))
    ensures Copied(old(dstV[..]), dstV[..], Plane(v, strideV), width, height, src[..], VPlane(s, srcStride))
  {
    hide View.At, Copied, InBounds, Distinct;
    ghost var du, dv, su, sv := Plane(u, strideU), Plane(v, strideV), UPlane(s, srcStride), VPlane(s, srcStride);
    ghost var u0, v0 := dstU[..], dstV[..];
    CopiedNothing(u0, du, width, 0, src[..], su);
    CopiedNothing(v0, dv, width, 0, src[..], sv);
    var sp, up, vp, y := s, u, v, 0;
    while y < height
      invariant 0 <= y <= height && sp == s + y * srcStride && up == u + y * strideU && vp == v + y * strideV
      invariant Copied(u0, dstU[..], du, width, y, src[..], su)
      invariant Copied(v0, dstV[..], dv, width, y, src[..], sv)
    {
      ghost var u1, v1 := dstU[..], dstV[..];
      RowsPart(du, dstU.Length, su, src.Length, width, height, y, 1);
      RowsPart(dv, dstV.Length, sv, src.Length, width, height, y, 1);
      UVDown(s, srcStride, y);
      PlaneDown(u, strideU, y);
      PlaneDown(v, strideV, y);
      RowInside(up, strideU, width, dstU.Length);
      RowInside(vp, strideV, width, dstV.Length);
      UVRowInside(sp, srcStride, width, src.Length);
      SplitUVRow(src, sp, dstU, up, dstV, vp, width);
      UVRowLaid(u1, dstU[..], up, strideU, v1, dstV[..], vp, strideV, width, src[..], sp, srcStride);
      StackRows(u0, u1, dstU[..], du, width, y, 1, height, src[..], su);
      StackRows(v0, v1, dstV[..], dv, width, y, 1, height, src[..], sv);
      sp := sp + srcStride;
      up := up + strideU;
      vp := vp + strideV;
      y := y + 1;
    }
  }

  lemma UVDown(off: int, stride: int, n: int)
    ensures UPlane(off, stride).Shift(0, n) == UPlane(off + n * stride, stride)
    ensures VPlane(off, stride).Shift(0, n) == VPlane(off + n * stride, stride)
  {
  }

  lemma UVRowInside(p: int, stride: int, w: int, len: int)
    requires UVInBounds(p, stride, w, 1, len)
    ensures 0 < w ==> 0 <= p && p + 2 * w <= len
    ensures forall x | 0 <= x < w ::
      UPlane(p, stride).At(x, 0) == p + 2 * x && VPlane(p, stride).At(x, 0) == p + 2 * x + 1
  {
    if 0 < w {
      assert 0 <= UPlane(p, stride).At(0, 0) && VPlane(p, stride).At(w - 1, 0) < len;
    }
  }

  lemma UVRowLaid(u0: seq<byte>, u1: seq<byte>, up: int, strideU: int, v0: seq<byte>, v1: seq<byte>, vp: int,
                  strideV: int,
                  w: int, src: seq<byte>, sp: int, srcStride: int)
    requires 0 <= w && |u1| == |u0| && |v1| == |v0| && UVInBounds(sp, srcStride, w, 1, |src|)
    requires 0 < w ==> 0 <= up && up + w <= |u0| && 0 <= vp && vp + w <= |v0| && 0 <= sp && sp + 2 * w <= |src|
    requires forall k | up <= k < up + w :: u1[k] == src[sp + 2 * (k - up)]
    requires forall k | vp <= k < vp + w :: v1[k] == src[sp + 2 * (k - vp) + 1]
    requires forall k | 0 <= k < |u0| && !(up <= k < up + w) :: u1[k] == u0[k]
    requires forall k | 0 <= k < |v0| && !(vp <= k < vp + w) :: v1[k] == v0[k]
    ensures Copied(u0, u1, Plane(up, strideU), w, 1, src, UPlane(sp, srcStride))
    ensures Copied(v0, v1, Plane(vp, strideV), w, 1, src, VPlane(sp, srcStride))
  {
    UVRowInside(sp, srcStride, w, |src|);
    hide View.At, Copied;
    RowLaid(u0, u1, up, strideU, w, src, UPlane(sp, srcStride));
    RowLaid(v0, v1, vp, strideV, w, src, VPlane(sp, srcStride));
  }

  method SplitUVPlane(src: array<byte>, s: int, srcStride: int, dstU: array<byte>, u: int, strideU: int,
                      dstV: array<byte>, v: int, strideV: int, width: int, height: int)
    requires src != dstU && src != dstV && dstU != dstV && 0 <= width
    requires UVInBounds(s, srcStride, width, Abs(height), src.Length)
    requires InBounds(Plane(u, strideU), width, Abs(height), dstU.Length)
    requires Distinct(Plane(u, strideU), width, Abs(height))
    requires InBounds(Plane(v, strideV), width, Abs(height), dstV.Length)
    requires Distinct(Plane(v, strideV), width, Abs(height))
    modifies dstU, dstV
    ensures Copied(old(dstU[..]), dstU[..], Plane(u, strideU), width, Abs(height), src[..],
                   Upright(UPlane(s, srcStride), height))
    ensures Copied(old(dstV[..]), dstV[..], Plane(v, strideV), width, Abs(height), src[..],
                   Upright(VPlane(s, srcStride), height))
  {
    hide View.At, Copied, InBounds, Distinct, UVInBounds;
    ghost var u0, v0, n := dstU[..], dstV[..], Abs(height);
    var h, up, su, vp, sv := height, u, strideU, v, strideV;
    // Upside down: begin at the last row and go upwards.
    if h < 0 {
      h := -h;
      up := up + (h - 1) * su;
      vp := vp + (h - 1) * sv;
      su := -su;
      sv := -sv;
      FlipBounds(Plane(u, strideU), width, h, dstU.Length);
      FlipDistinct(Plane(u, strideU), width, h);
      FlippedPlane(u, strideU, h);
      FlipBounds(Plane(v, strideV), width, h, dstV.Length);
      FlipDistinct(Plane(v, strideV), width, h);
      FlippedPlane(v, strideV, h);
    }
    var w, k, ss := width, h, srcStride;
    // Without gaps the plane is one long row.
    var flat := srcStride == width * 2 && su == width && sv == width;
    if flat {
      FlatUV(s, src.Length, up, dstU.Length, vp, dstV.Length, width, h);
      w, k, ss, su, sv := width * h, 1, 0, 0, 0;
    }
    SplitUVRows(src, s, ss, dstU, up, su, dstV, vp, sv, w, k);
    if flat {
      FlatUVBounds(s, src.Length, width, h);
      CopiedFlat(u0, dstU[..], up, width, h, src[..], s, 2);
      CopiedFlat(v0, dstV[..], vp, width, h, src[..], s + 1, 2);
    }
    if height < 0 {
      FlatUVBounds(s, src.Length, width, h);
      CopiedFlipped(u0, dstU[..], Plane(u, strideU), width, n, src[..], UPlane(s, srcStride));
      CopiedFlipped(v0, dstV[..], Plane(v, strideV), width, n, src[..], VPlane(s, srcStride));
    }
  }

  lemma FlatUVBounds(s: int, srcLen: int, w: int, h: int)
    ensures UVInBounds(s, w * 2, w, h, srcLen) ==>
      InBounds(View(s, 2, w * 2), w, h, srcLen) && InBounds(View(s + 1, 2, w * 2), w, h, srcLen)
  {
  }

  lemma FlatUV(s: int, srcLen: int, u: int, uLen: int, v: int, vLen: int, w: int, h: int)
    requires 0 <= w && 0 <= h && UVInBounds(s, w * 2, w, h, srcLen)
    requires InBounds(Plane(u, w), w, h, uLen) && InBounds(Plane(v, w), w, h, vLen)
    ensures 0 <= w * h && UVInBounds(s, 0, w * h, 1, srcLen)
    ensures InBounds(Plane(u, 0), w * h, 1, uLen) && Distinct(Plane(u, 0), w * h, 1)
    ensures InBounds(Plane(v, 0), w * h, 1, vLen) && Distinct(Plane(v, 0), w * h, 1)
  {
    FlatBounds(s, 2, w, h, srcLen);
    FlatBounds(s + 1, 2, w, h, srcLen);
    FlatPlanes(u, uLen, u, uLen, w, h);
    FlatPlanes(v, vLen, v, vLen, w, h);
  }

  // ----- whole frames

  /** A pointer into a buffer with the stride of the plane it points at. */
  datatype Surface = Surface(mem: array?<byte>, off: int, stride: int) {
    function AsPlane(): View {
      Plane(off, stride)
    }

    ghost predicate Readable(w: int, h: int)
      requires mem != null
    {
      InBounds(AsPlane(), w, h, mem.Length)
    }

    ghost predicate Writable(w: int, h: int)
      requires mem != null
    {
      InBounds(AsPlane(), w, h, mem.Length) && Distinct(AsPlane(), w, h)
    }
  }

  /** An odd row or column of luma keeps its chroma. */
  lemma HalfRoundsUp(n: int)
    ensures n <= 2 * Half(n) <= n + 1
  {
  }

  function Half(n: int): int {
    (n + 1) / 2
  }

  /** The three planes of an image of w by h pixels, chroma halved and rounded up. */
  ghost predicate ReadableImage(y: Surface, u: Surface, v: Surface, w: nat, h: nat) {
    && y.mem != null && y.Readable(w, h)
    && u.mem != null && u.Readable(Half(w), Half(h))
    && v.mem != null && v.Readable(Half(w), Half(h))
  }

  /** Three destination buffers, none of them one of the sources. */
  predicate Separate(dy: Surface, du: Surface, dv: Surface, sources: set<object?>) {
    && dy.mem != du.mem && dy.mem != dv.mem && du.mem != dv.mem
    && dy.mem !in sources && du.mem !in sources && dv.mem !in sources
  }

  /** What a copy of an image of w by h pixels needs; the luma plane may be left out. */
  ghost predicate CopyRoom(sy: Surface, su: Surface, sv: Surface, dy: Surface, du: Surface, dv: Surface, w: int, h: int)
    requires su.mem != null && sv.mem != null && du.mem != null && dv.mem != null
  {
    && du.mem != dv.mem && du.mem !in {sy.mem, su.mem, sv.mem} && dv.mem !in {sy.mem, su.mem, sv.mem}
    && su.Readable(Half(w), Half(h)) && du.Writable(Half(w), Half(h))
    && sv.Readable(Half(w), Half(h)) && dv.Writable(Half(w), Half(h))
    && (dy.mem != null ==>
      && sy.mem != null && dy.mem !in {sy.mem, su.mem, sv.mem, du.mem, dv.mem}
      && sy.Readable(w, h) && dy.Writable(w, h))
  }

  predicate Present(planes: set<array?<byte>>) {
    null !in planes
  }

  /** convert.cc: without a luma destination only the chroma is copied. */
  method I420Copy(sy: Surface, su: Surface, sv: Surface, dy: Surface, du: Surface, dv: Surface, width: int, height: int)
    returns (ret: int)
    requires Present({su.mem, sv.mem, du.mem, dv.mem}) && 0 < width && height != 0 ==>
      CopyRoom(sy, su, sv, dy, du, dv, width, Abs(height))
    modifies dy.mem, du.mem, dv.mem
    ensures ret == (if Present({su.mem, sv.mem, du.mem, dv.mem}) && 0 < width && height != 0 then 0 else -1)
    ensures ret == -1 && dy.mem != null ==> dy.mem[..] == old(dy.mem[..])
    ensures ret == -1 && du.mem != null ==> du.mem[..] == old(du.mem[..])
    ensures ret == -1 && dv.mem != null ==> dv.mem[..] == old(dv.mem[..])
    ensures ret == 0 && dy.mem != null ==>
      Copied(old(dy.mem[..]), dy.mem[..], dy.AsPlane(), width, Abs(height), sy.mem[..], Upright(sy.AsPlane(), height))
    ensures ret == 0 ==>
      Copied(old(du.mem[..]), du.mem[..], du.AsPlane(), Half(width), Half(Abs(height)), su.mem[..],
             UprightTo(su.AsPlane(), height, Half(Abs(height))))
    ensures ret == 0 ==>
      Copied(old(dv.mem[..]), dv.mem[..], dv.AsPlane(), Half(width), Half(Abs(height)), sv.mem[..],
             UprightTo(sv.AsPlane(), height, Half(Abs(height))))
  {
    var halfWidth, halfHeight := (width + 1) / 2, (height + 1) / 2;
    if su.mem == null || sv.mem == null || du.mem == null || dv.mem == null || width <= 0 || height == 0 {
      return -1;
    }
    hide View.At, Copied, InBounds, Distinct;
    var h, y, u, v := height, sy, su, sv;
    // Upside down: begin at the last row and go upwards.
    if h < 0 {
      h := -h;
      halfHeight := (h + 1) / 2;
      if dy.mem != null {
        FlipBounds(sy.AsPlane(), width, h, sy.mem.Length);
      }
      FlipBounds(su.AsPlane(), halfWidth, halfHeight, su.mem.Length);
      FlipBounds(sv.AsPlane(), halfWidth, halfHeight, sv.mem.Length);
      FlippedPlane(sy.off, sy.stride, h);
      FlippedPlane(su.off, su.stride, halfHeight);
      FlippedPlane(sv.off, sv.stride, halfHeight);
      y := Surface(sy.mem, sy.off + (h - 1) * sy.stride, -sy.stride);
      u := Surface(su.mem, su.off + (halfHeight - 1) * su.stride, -su.stride);
      v := Surface(sv.mem, sv.off + (halfHeight - 1) * sv.stride, -sv.stride);
    }
    if dy.mem != null {
      CopyPlane(y.mem, y.off, y.stride, dy.mem, dy.off, dy.stride, width, h);
    }
    CopyPlane(u.mem, u.off, u.stride, du.mem, du.off, du.stride, halfWidth, halfHeight);
    CopyPlane(v.mem, v.off, v.stride, dv.mem, dv.off, dv.stride, halfWidth, halfHeight);
    return 0;
  }

  /** Upright for a plane of n rows that belongs to an image of height h. */
  function UprightTo(v: View, h: int, n: int): View {
    if h < 0 then v.FlippedY(n) else v
  }

  lemma UVFlipped(s: int, stride: int, w: int, h: int, len: int)
    requires UVInBounds(s, stride, w, h, len)
    ensures UVInBounds(s + stride * (h - 1), -stride, w, h, len)
    ensures UPlane(s, stride).FlippedY(h) == UPlane(s + stride * (h - 1), -stride)
    ensures VPlane(s, stride).FlippedY(h) == VPlane(s + stride * (h - 1), -stride)
  {
    FlipBounds(UPlane(s, stride), w, h, len);
    FlipBounds(VPlane(s, stride), w, h, len);
  }

  ghost predicate NV12Room(sy: Surface, suv: Surface, dy: Surface, du: Surface, dv: Surface, w: int, h: int)
    requires suv.mem != null && du.mem != null && dv.mem != null
  {
    && du.mem != dv.mem && du.mem !in {sy.mem, suv.mem} && dv.mem !in {sy.mem, suv.mem}
    && UVInBounds(suv.off, suv.stride, Half(w), Half(h), suv.mem.Length)
    && du.Writable(Half(w), Half(h)) && dv.Writable(Half(w), Half(h))
    && (dy.mem != null ==>
      && sy.mem != null && dy.mem !in {sy.mem, suv.mem, du.mem, dv.mem}
      && sy.Readable(w, h) && dy.Writable(w, h))
  }

  /** The luma of NV12ToI420, with its rows coalesced where they can be. */
  method CopyLuma(sy: Surface, dy: Surface, width: int, height: int)
    requires sy.mem != null && dy.mem != null && sy.mem != dy.mem && 0 < width && 0 < height
    requires sy.Readable(width, height) && dy.Writable(width, height)
    modifies dy.mem
    ensures Copied(old(dy.mem[..]), dy.mem[..], dy.AsPlane(), width, height, sy.mem[..], sy.AsPlane())
  {
    hide View.At, Copied, InBounds, Distinct;
    ghost var y0 := dy.mem[..];
    var w, h, ss, ds := width, height, sy.stride, dy.stride;
    var flat := ss == width && ds == width;
    if flat {
      FlatPlanes(sy.off, sy.mem.Length, dy.off, dy.mem.Length, width, height);
      Product(width, height);
      w, h, ss, ds := width * height, 1, 0, 0;
    }
    CopyPlane(sy.mem, sy.off, ss, dy.mem, dy.off, ds, w, h);
    if flat {
      CopiedFlat(y0, dy.mem[..], dy.off, width, height, sy.mem[..], sy.off, 1);
    }
  }

  /** The chroma of NV12ToI420, likewise. */
  method SplitChroma(suv: Surface, du: Surface, dv: Surface, halfWidth: int, halfHeight: int)
    requires suv.mem != null && du.mem != null && dv.mem != null && du.mem != dv.mem && suv.mem != du.mem
    requires suv.mem != dv.mem
    requires 0 < halfWidth && 0 < halfHeight && UVInBounds(suv.off, suv.stride, halfWidth, halfHeight, suv.mem.Length)
    requires du.Writable(halfWidth, halfHeight) && dv.Writable(halfWidth, halfHeight)
    modifies du.mem, dv.mem
    ensures Copied(old(du.mem[..]), du.mem[..], du.AsPlane(), halfWidth, halfHeight, suv.mem[..],
                   UPlane(suv.off, suv.stride))
    ensures Copied(old(dv.mem[..]), dv.mem[..], dv.AsPlane(), halfWidth, halfHeight, suv.mem[..],
                   VPlane(suv.off, suv.stride))
  {
    hide View.At, Copied, InBounds, Distinct, UVInBounds;
    ghost var u0, v0 := du.mem[..], dv.mem[..];
    var hw, hh, suvs, us, vs := halfWidth, halfHeight, suv.stride, du.stride, dv.stride;
    var flat := suvs == hw * 2 && us == hw && vs == hw;
    if flat {
      FlatUV(suv.off, suv.mem.Length, du.off, du.mem.Length, dv.off, dv.mem.Length, hw, hh);
      FlatUVBounds(suv.off, suv.mem.Length, hw, hh);
      Product(hw, hh);
      hw, hh, suvs, us, vs := hw * hh, 1, 0, 0, 0;
    }
    SplitUVPlane(suv.mem, suv.off, suvs, du.mem, du.off, us, dv.mem, dv.off, vs, hw, hh);
    if flat {
      CopiedFlat(u0, du.mem[..], du.off, halfWidth, halfHeight, suv.mem[..], suv.off, 2);
      CopiedFlat(v0, dv.mem[..], dv.off, halfWidth, halfHeight, suv.mem[..], suv.off + 1, 2);
    }
  }

  /** convert.cc: without a luma destination only the chroma is split. */
  method NV12ToI420(sy: Surface, suv: Surface, dy: Surface, du: Surface, dv: Surface, width: int, height: int)
    returns (ret: int)
    requires Present({suv.mem, du.mem, dv.mem}) && 0 < width && height != 0 ==>
      NV12Room(sy, suv, dy, du, dv, width, Abs(height))
    modifies dy.mem, du.mem, dv.mem
    ensures ret == (if Present({suv.mem, du.mem, dv.mem}) && 0 < width && height != 0 then 0 else -1)
    ensures ret == -1 && dy.mem != null ==> dy.mem[..] == old(dy.mem[..])
    ensures ret == -1 && du.mem != null ==> du.mem[..] == old(du.mem[..])
    ensures ret == -1 && dv.mem != null ==> dv.mem[..] == old(dv.mem[..])
    ensures ret == 0 && dy.mem != null ==>
      Copied(old(dy.mem[..]), dy.mem[..], dy.AsPlane(), width, Abs(height), sy.mem[..], Upright(sy.AsPlane(), height))
    ensures ret == 0 ==>
      Copied(old(du.mem[..]), du.mem[..], du.AsPlane(), Half(width), Half(Abs(height)), suv.mem[..],
             UprightTo(UPlane(suv.off, suv.stride), height, Half(Abs(height))))
    ensures ret == 0 ==>
      Copied(old(dv.mem[..]), dv.mem[..], dv.AsPlane(), Half(width), Half(Abs(height)), suv.mem[..],
             UprightTo(VPlane(suv.off, suv.stride), height, Half(Abs(height))))
  {
    var halfWidth, halfHeight := (width + 1) / 2, (height + 1) / 2;
    if suv.mem == null || du.mem == null || dv.mem == null || width <= 0 || height == 0 {
      return -1;
    }
    hide View.At, View.FlippedY, Plane, UPlane, VPlane, Copied, InBounds, Distinct, UVInBounds;
    var h, y, uv := height, sy, suv;
    // Upside down: begin at the last row and go upwards.
    if h < 0 {
      h := -h;
      halfHeight := (h + 1) / 2;
      if dy.mem != null {
        FlipBounds(sy.AsPlane(), width, h, sy.mem.Length);
      }
      FlippedPlane(sy.off, sy.stride, h);
      UVFlipped(suv.off, suv.stride, halfWidth, halfHeight, suv.mem.Length);
      y := Surface(sy.mem, sy.off + (h - 1) * sy.stride, -sy.stride);
      uv := Surface(suv.mem, suv.off + suv.stride * (halfHeight - 1), -suv.stride);
    }
    if dy.mem != null {
      CopyLuma(y, dy, width, h);
    }
    SplitChroma(uv, du, dv, halfWidth, halfHeight);
    return 0;
  }

  lemma Product(a: int, b: int)
    requires 0 < a && 0 < b
    ensures 0 < a * b
  {
  }
}
