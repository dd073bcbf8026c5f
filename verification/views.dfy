/** Strided views of flat memory.

    The planar code walks every image with a pointer, a step between columns and a stride
    between rows, both of which may be negative.  A View is that triple, and Copied says
    that one rectangle of memory was made from another and that nothing else was touched. */
module Views {

  type byte = b: int | 0 <= b < 0x100

  /** The difference of two bytes, which is an integer. */
  function Minus(x: int, y: int): int {
    x - y
  }

  datatype View = View(off: int, dx: int, dy: int) {
    function At(x: int, y: int): int {
      off + x * dx + y * dy
    }

    /** The same grid, read from column a and row b onwards. */
    function Shift(a: int, b: int): View {
      View(At(a, b), dx, dy)
    }

    function Transposed(): View {
      View(off, dy, dx)
    }

    function MirroredX(w: int): View {
      View(At(w - 1, 0), -dx, dy)
    }

    function FlippedY(h: int): View {
      View(At(0, h - 1), dx, -dy)
    }
  }

  /** A plane as the C code passes it: adjacent bytes in a row, stride between rows. */
  function Plane(off: int, stride: int): View {
    View(off, 1, stride)
  }

  ghost predicate InBounds(v: View, w: int, h: int, len: int) {
    forall x, y | 0 <= x < w && 0 <= y < h :: 0 <= v.At(x, y) < len
  }

  /** No two cells of the rectangle share an address. */
  ghost predicate Distinct(v: View, w: int, h: int) {
    forall x, y, x', y' | 0 <= x < w && 0 <= y < h && 0 <= x' < w && 0 <= y' < h && v.At(x, y) == v.At(x', y') ::
      x == x' && y == y'
  }

  ghost predicate Covers(v: View, w: int, h: int, k: int) {
    exists x, y :: 0 <= x < w && 0 <= y < h && v.At(x, y) == k
  }

  /** Only addresses of the rectangle may differ between the two snapshots. */
  ghost predicate OnlyChanged<T>(before: seq<T>, after: seq<T>, v: View, w: int, h: int) {
    && |after| == |before|
    && forall k | 0 <= k < |before| && !Covers(v, w, h, k) :: after[k] == before[k]
  }

  /** Rectangle dv of memory `after` holds, cell for cell, rectangle sv of memory `src`;
      every other address is as it was in `before`. */
  ghost predicate Copied<T>(before: seq<T>, after: seq<T>, dv: View, w: int, h: int, src: seq<T>, sv: View) {
    && InBounds(dv, w, h, |before|)
    && InBounds(sv, w, h, |src|)
    && OnlyChanged(before, after, dv, w, h)
    && forall x, y | 0 <= x < w && 0 <= y < h :: after[dv.At(x, y)] == src[sv.At(x, y)]
  }

  // ----- geometry

  lemma ShiftAt(v: View, a: int, b: int, x: int, y: int)
    ensures v.Shift(a, b).At(x, y) == v.At(x + a, y + b)
  {
    assert (x + a) * v.dx == x * v.dx + a * v.dx;
    assert (y + b) * v.dy == y * v.dy + b * v.dy;
  }

  lemma MirrorAt(v: View, w: int, x: int, y: int)
    ensures v.MirroredX(w).At(x, y) == v.At(w - 1 - x, y)
  {
    assert (w - 1 - x) * v.dx == (w - 1) * v.dx - x * v.dx;
    assert x * -v.dx == -(x * v.dx);
  }

  lemma FlipAt(v: View, h: int, x: int, y: int)
    ensures v.FlippedY(h).At(x, y) == v.At(x, h - 1 - y)
  {
    assert (h - 1 - y) * v.dy == (h - 1) * v.dy - y * v.dy;
    assert y * -v.dy == -(y * v.dy);
  }

  lemma TransposeAt(v: View, x: int, y: int)
    ensures v.Transposed().At(x, y) == v.At(y, x)
  {
  }

  lemma PlaneDown(off: int, stride: int, n: int)
    ensures Plane(off, stride).Shift(0, n) == Plane(off + n * stride, stride)
    ensures Plane(off, stride).Transposed().Shift(n, 0) == Plane(off + n * stride, stride).Transposed()
  {
  }

  lemma PlaneRight(off: int, stride: int, n: int)
    ensures Plane(off, stride).Shift(n, 0) == Plane(off + n, stride)
    ensures Plane(off, stride).Transposed().Shift(0, n) == Plane(off + n, stride).Transposed()
  {
  }

  lemma RowGap(stride: int, w: int, d: int)
    requires 0 < w && 1 <= d && (stride >= w || -stride >= w)
    ensures d * stride >= w || d * stride <= -w
  {
    assert d * stride == stride + (d - 1) * stride;
    if stride > 0 {
      assert (d - 1) * stride >= 0;
    } else {
      assert (d - 1) * -stride >= 0;
    }
  }

  lemma PlaneCellsApart(off: int, stride: int, w: int, x: int, y: int, x': int, y': int)
    requires 0 <= x < w && 0 <= x' < w && y < y' && (stride >= w || -stride >= w)
    ensures Plane(off, stride).At(x, y) != Plane(off, stride).At(x', y')
  {
    RowGap(stride, w, y' - y);
    assert (y' - y) * stride == y' * stride - y * stride;
  }

  /** A stride at least as long as the row keeps the cells of a plane apart. */
  lemma PlaneDistinct(off: int, stride: int, w: int, h: int)
    requires stride >= w || -stride >= w || h <= 1
    ensures Distinct(Plane(off, stride), w, h)
  {
    var v := Plane(off, stride);
    forall x, y, x', y' | 0 <= x < w && 0 <= y < h && 0 <= x' < w && 0 <= y' < h && v.At(x, y) == v.At(x', y')
      ensures x == x' && y == y'
    {
      if y < y' {
        PlaneCellsApart(off, stride, w, x, y, x', y');
      } else if y' < y {
        PlaneCellsApart(off, stride, w, x', y', x, y);
      }
    }
  }

  lemma EarlierBounds(v: View, w: int, y: int, h: int, len: int)
    requires y <= h && InBounds(v, w, h, len)
    ensures InBounds(v, w, y, len)
  {
  }

  lemma ShiftBounds(v: View, w: int, h: int, len: int, a: int, b: int, w': int, h': int)
    requires InBounds(v, w, h, len) && 0 <= a && 0 <= b && a + w' <= w && b + h' <= h
    ensures InBounds(v.Shift(a, b), w', h', len)
  {
    forall x, y | 0 <= x < w' && 0 <= y < h'
      ensures 0 <= v.Shift(a, b).At(x, y) < len
    {
      ShiftAt(v, a, b, x, y);
    }
  }

  lemma ShiftDistinct(v: View, w: int, h: int, a: int, b: int, w': int, h': int)
    requires Distinct(v, w, h) && 0 <= a && 0 <= b && a + w' <= w && b + h' <= h
    ensures Distinct(v.Shift(a, b), w', h')
  {
    forall x, y, x', y'
      | 0 <= x < w' && 0 <= y < h' && 0 <= x' < w' && 0 <= y' < h' && v.Shift(a, b).At(x, y) == v.Shift(a, b).At(x', y')
      ensures x == x' && y == y'
    {
      ShiftAt(v, a, b, x, y);
      ShiftAt(v, a, b, x', y');
      assert v.At(x + a, y + b) == v.At(x' + a, y' + b);
    }
  }

  lemma TransposeBounds(v: View, w: int, h: int, len: int)
    requires InBounds(v, w, h, len)
    ensures InBounds(v.Transposed(), h, w, len)
  {
    forall x, y | 0 <= x < h && 0 <= y < w
      ensures 0 <= v.Transposed().At(x, y) < len
    {
      TransposeAt(v, x, y);
    }
  }

  lemma FlipBounds(v: View, w: int, h: int, len: int)
    requires InBounds(v, w, h, len)
    ensures InBounds(v.FlippedY(h), w, h, len)
  {
    forall x, y | 0 <= x < w && 0 <= y < h
      ensures 0 <= v.FlippedY(h).At(x, y) < len
    {
      FlipAt(v, h, x, y);
    }
  }

  lemma FlipDistinct(v: View, w: int, h: int)
    requires Distinct(v, w, h)
    ensures Distinct(v.FlippedY(h), w, h)
  {
    forall x, y, x', y'
      | 0 <= x < w && 0 <= y < h && 0 <= x' < w && 0 <= y' < h && v.FlippedY(h).At(x, y) == v.FlippedY(h).At(x', y')
      ensures x == x' && y == y'
    {
      FlipAt(v, h, x, y);
      FlipAt(v, h, x', y');
      assert v.At(x, h - 1 - y) == v.At(x', h - 1 - y');
    }
  }

  lemma MirrorBounds(v: View, w: int, h: int, len: int)
    requires InBounds(v, w, h, len)
    ensures InBounds(v.MirroredX(w), w, h, len)
  {
    forall x, y | 0 <= x < w && 0 <= y < h
      ensures 0 <= v.MirroredX(w).At(x, y) < len
    {
      MirrorAt(v, w, x, y);
    }
  }

  // ----- building a rectangle from parts

  lemma CoversShift(v: View, w: int, h: int, a: int, b: int, w': int, h': int, k: int)
    requires 0 <= a && 0 <= b && a + w' <= w && b + h' <= h
    requires Covers(v.Shift(a, b), w', h', k)
    ensures Covers(v, w, h, k)
  {
    var x, y :| 0 <= x < w' && 0 <= y < h' && v.Shift(a, b).At(x, y) == k;
    ShiftAt(v, a, b, x, y);
    assert v.At(x + a, y + b) == k;
  }

  lemma CoversWider(v: View, w: int, h: int, w': int, h': int, k: int)
    requires w <= w' && h <= h' && Covers(v, w, h, k)
    ensures Covers(v, w', h', k)
  {
    var x, y :| 0 <= x < w && 0 <= y < h && v.At(x, y) == k;
  }

  /** Changing a part changes nothing outside the whole. */
  lemma OnlyChangedPart<T>(m0: seq<T>, m1: seq<T>, m2: seq<T>, v: View, w: int, h: int, a: int, b: int, w': int,
                           h': int)
    requires 0 <= a && 0 <= b && a + w' <= w && b + h' <= h
    requires OnlyChanged(m0, m1, v, w, h)
    requires OnlyChanged(m1, m2, v.Shift(a, b), w', h')
    ensures OnlyChanged(m0, m2, v, w, h)
  {
    forall k | 0 <= k < |m0| && !Covers(v, w, h, k)
      ensures m2[k] == m0[k]
    {
      if Covers(v.Shift(a, b), w', h', k) {
        CoversShift(v, w, h, a, b, w', h', k);
      }
    }
  }

  lemma OnlyChangedWider<T>(m0: seq<T>, m1: seq<T>, v: View, w: int, h: int, w': int, h': int)
    requires w <= w' && h <= h'
    requires OnlyChanged(m0, m1, v, w, h)
    ensures OnlyChanged(m0, m1, v, w', h')
  {
    forall k | 0 <= k < |m0| && !Covers(v, w', h', k)
      ensures m1[k] == m0[k]
    {
      if Covers(v, w, h, k) {
        CoversWider(v, w, h, w', h', k);
      }
    }
  }

  lemma OnlyChangedOn<T>(m0: seq<T>, m1: seq<T>, m2: seq<T>, v: View, w: int, h: int)
    requires OnlyChanged(m0, m1, v, w, h) && OnlyChanged(m1, m2, v, w, h)
    ensures OnlyChanged(m0, m2, v, w, h)
  {
  }

  lemma OnlyChangedSame<T>(m: seq<T>, v: View, w: int, h: int)
    ensures OnlyChanged(m, m, v, w, h)
  {
  }

  /** A cell of the whole that lies outside the part survives a write to the part. */
  lemma Survives<T>(m1: seq<T>, m2: seq<T>, v: View, w: int, h: int, a: int, b: int, w': int, h': int, x: int, y: int)
    requires 0 <= a && 0 <= b && a + w' <= w && b + h' <= h
    requires Distinct(v, w, h) && InBounds(v, w, h, |m1|)
    requires OnlyChanged(m1, m2, v.Shift(a, b), w', h')
    requires 0 <= x < w && 0 <= y < h
    requires !(a <= x < a + w' && b <= y < b + h')
    ensures m2[v.At(x, y)] == m1[v.At(x, y)]
  {
    var k := v.At(x, y);
    if Covers(v.Shift(a, b), w', h', k) {
      var i, j :| 0 <= i < w' && 0 <= j < h' && v.Shift(a, b).At(i, j) == k;
      ShiftAt(v, a, b, i, j);
    }
  }

  lemma CopiedNothing<T>(m: seq<T>, dv: View, w: int, h: int, src: seq<T>, sv: View)
    requires w <= 0 || h <= 0
    ensures Copied(m, m, dv, w, h, src, sv)
  {
  }

  /** In a rectangle of full rows, the first h rows and then the next n. */
  lemma StackRows<T>(m0: seq<T>, m1: seq<T>, m2: seq<T>, dv: View, w: int, h: int, n: int, full: int, src: seq<T>,
                     sv: View)
    requires 0 <= h && 0 <= n && h + n <= full && Distinct(dv, w, full)
    requires InBounds(dv, w, full, |m0|) && InBounds(sv, w, full, |src|)
    requires Copied(m0, m1, dv, w, h, src, sv)
    requires Copied(m1, m2, dv.Shift(0, h), w, n, src, sv.Shift(0, h))
    ensures Copied(m0, m2, dv, w, h + n, src, sv)
  {
    OnlyChangedWider(m0, m1, dv, w, h, w, h + n);
    OnlyChangedPart(m0, m1, m2, dv, w, h + n, 0, h, w, n);
    forall x, y | 0 <= x < w && 0 <= y < h + n
      ensures m2[dv.At(x, y)] == src[sv.At(x, y)]
    {
      if y < h {
        Survives(m1, m2, dv, w, h + n, 0, h, w, n, x, y);
      } else {
        ShiftAt(dv, 0, h, x, y - h);
        ShiftAt(sv, 0, h, x, y - h);
        assert m2[dv.Shift(0, h).At(x, y - h)] == src[sv.Shift(0, h).At(x, y - h)];
      }
    }
  }

  /** In a rectangle of full columns, the first w columns and then the next n. */
  lemma StackColumns<T>(m0: seq<T>, m1: seq<T>, m2: seq<T>, dv: View, w: int, n: int, full: int, h: int, src: seq<T>,
                        sv: View)
    requires 0 <= w && 0 <= n && w + n <= full && Distinct(dv, full, h)
    requires InBounds(dv, full, h, |m0|) && InBounds(sv, full, h, |src|)
    requires Copied(m0, m1, dv, w, h, src, sv)
    requires Copied(m1, m2, dv.Shift(w, 0), n, h, src, sv.Shift(w, 0))
    ensures Copied(m0, m2, dv, w + n, h, src, sv)
  {
    OnlyChangedWider(m0, m1, dv, w, h, w + n, h);
    OnlyChangedPart(m0, m1, m2, dv, w + n, h, w, 0, n, h);
    forall x, y | 0 <= x < w + n && 0 <= y < h
      ensures m2[dv.At(x, y)] == src[sv.At(x, y)]
    {
      if x < w {
        Survives(m1, m2, dv, w + n, h, w, 0, n, h, x, y);
      } else {
        ShiftAt(dv, w, 0, x - w, y);
        ShiftAt(sv, w, 0, x - w, y);
        assert m2[dv.Shift(w, 0).At(x - w, y)] == src[sv.Shift(w, 0).At(x - w, y)];
      }
    }
  }

  lemma CellBounds(v: View, len: int)
    requires InBounds(v, 1, 1, len)
    ensures 0 <= v.off < len
  {
    assert v.At(0, 0) == v.off;
  }

  /** One assignment copies one cell. */
  lemma CopiedCell<T>(m0: seq<T>, dv: View, src: seq<T>, sv: View)
    requires 0 <= dv.off < |m0| && 0 <= sv.off < |src|
    ensures Copied(m0, m0[dv.off := src[sv.off]], dv, 1, 1, src, sv)
  {
    var m1 := m0[dv.off := src[sv.off]];
    forall k | 0 <= k < |m0| && !Covers(dv, 1, 1, k)
      ensures m1[k] == m0[k]
    {
      assert dv.At(0, 0) == dv.off;
    }
  }

  /** What was copied from one memory may be described as copied from any other memory
      holding the same values. */
  lemma CopiedVia<T>(m0: seq<T>, m1: seq<T>, dv: View, w: int, h: int, mid: seq<T>, mv: View, src: seq<T>, sv: View)
    requires Copied(m0, m1, dv, w, h, mid, mv) && InBounds(sv, w, h, |src|)
    requires forall x, y | 0 <= x < w && 0 <= y < h :: mid[mv.At(x, y)] == src[sv.At(x, y)]
    ensures Copied(m0, m1, dv, w, h, src, sv)
  {
    hide View.At;
  }

  lemma ShiftZero(v: View)
    ensures v.Shift(0, 0) == v
  {
  }

  /** Everything a step on rows b .. b + n of a rectangle may rely on. */
  lemma RowsPart(dv: View, dstLen: int, sv: View, srcLen: int, w: int, h: int, b: int, n: int)
    requires InBounds(dv, w, h, dstLen) && Distinct(dv, w, h) && InBounds(sv, w, h, srcLen) && 0 <= b && b + n <= h
    ensures InBounds(dv.Shift(0, b), w, n, dstLen) && Distinct(dv.Shift(0, b), w, n)
    ensures InBounds(sv.Shift(0, b), w, n, srcLen)
  {
    ShiftBounds(dv, w, h, dstLen, 0, b, w, n);
    ShiftBounds(sv, w, h, srcLen, 0, b, w, n);
    ShiftDistinct(dv, w, h, 0, b, w, n);
  }

  lemma ColumnsPart(dv: View, dstLen: int, sv: View, srcLen: int, w: int, h: int, a: int, n: int)
    requires InBounds(dv, w, h, dstLen) && Distinct(dv, w, h) && InBounds(sv, w, h, srcLen) && 0 <= a && a + n <= w
    ensures InBounds(dv.Shift(a, 0), n, h, dstLen) && Distinct(dv.Shift(a, 0), n, h)
    ensures InBounds(sv.Shift(a, 0), n, h, srcLen)
  {
    ShiftBounds(dv, w, h, dstLen, a, 0, n, h);
    ShiftBounds(sv, w, h, srcLen, a, 0, n, h);
    ShiftDistinct(dv, w, h, a, 0, n, h);
  }

  // ----- rows of adjacent cells

  /** Where row y starts when rows are a stride apart. */
  function RowStart(off: int, stride: int, y: int): int {
    off + y * stride
  }

  predicate RowInMemory(p: int, w: int, len: int) {
    0 < w ==> 0 <= p && p + w <= len
  }

  lemma RowStartIs(off: int, stride: int, y: int)
    ensures RowStart(off, stride, y) == off + y * stride
  {
  }

  lemma NextRow(off: int, stride: int, y: int)
    ensures RowStart(off, stride, 0) == off
    ensures RowStart(off, stride, y + 1) == RowStart(off, stride, y) + stride
  {
    assert (y + 1) * stride == y * stride + stride;
  }

  lemma RowCovers(v: View, n: int, k: int)
    requires v.dx == 1 && v.off <= k < v.off + n
    ensures Covers(v, n, 1, k)
  {
    assert v.At(k - v.off, 0) == k;
  }

  lemma CopiedRow<T>(m: seq<T>, m': seq<T>, dv: View, n: int, src: seq<T>, sv: View)
    requires InBounds(dv, n, 1, |m|) && InBounds(sv, n, 1, |src|) && dv.dx == 1 && |m'| == |m|
    requires forall k | 0 <= k < |m| && !(dv.off <= k < dv.off + n) :: m'[k] == m[k]
    requires forall j | 0 <= j < n :: m'[dv.At(j, 0)] == src[sv.At(j, 0)]
    ensures Copied(m, m', dv, n, 1, src, sv)
  {
    forall k | 0 <= k < |m| && !Covers(dv, n, 1, k)
      ensures m'[k] == m[k]
    {
      if dv.off <= k < dv.off + n {
        RowCovers(dv, n, k);
      }
    }
  }

  lemma RowOnlyChanged<T>(m: seq<T>, m': seq<T>, dp: int, stride: int, w: int)
    requires |m'| == |m| && forall k | 0 <= k < |m| && !(dp <= k < dp + w) :: m'[k] == m[k]
    ensures OnlyChanged(m, m', Plane(dp, stride), w, 1)
  {
    forall k | 0 <= k < |m| && !Covers(Plane(dp, stride), w, 1, k)
      ensures m'[k] == m[k]
    {
      if dp <= k < dp + w {
        RowCovers(Plane(dp, stride), w, k);
      }
    }
  }

  /** Row y of a plane lies at stride * y and stays inside memory. */
  lemma PlaneRow(off: int, stride: int, w: int, h: int, len: int, y: int)
    requires InBounds(Plane(off, stride), w, h, len) && 0 <= w && 0 <= y < h
    ensures 0 < w ==> 0 <= off + y * stride && off + y * stride + w <= len
    ensures forall x | 0 <= x < w :: Plane(off, stride).At(x, y) == off + y * stride + x
  {
    var v := Plane(off, stride);
    if 0 < w {
      assert 0 <= v.At(0, y) && v.At(w - 1, y) < len;
    }
  }

  lemma PlaneRowsMeet(off: int, stride: int, y: int, z: int)
    ensures Plane(off, stride).At(z * stride - y * stride, y) == Plane(off, stride).At(0, z)
  {
  }

  lemma PlaneRowsApart(off: int, stride: int, w: int, h: int, y: int, z: int)
    requires Distinct(Plane(off, stride), w, h) && 0 <= w && 0 <= y < h && 0 <= z < h && y != z
    ensures off + y * stride + w <= off + z * stride || off + z * stride + w <= off + y * stride
  {
    var v, gap := Plane(off, stride), z * stride - y * stride;
    if 0 <= gap < w {
      PlaneRowsMeet(off, stride, y, z);
    } else if -w < gap < 0 {
      PlaneRowsMeet(off, stride, z, y);
    }
  }

  /** A row of adjacent cells at address dp, filled from any view of the source. */
  lemma RowLaid<T>(m: seq<T>, m': seq<T>, dp: int, stride: int, w: int, src: seq<T>, sv: View)
    requires 0 <= w && (0 < w ==> 0 <= dp && dp + w <= |m|) && InBounds(sv, w, 1, |src|) && |m'| == |m|
    requires forall k | dp <= k < dp + w :: m'[k] == src[sv.At(k - dp, 0)]
    requires forall k | 0 <= k < |m| && !(dp <= k < dp + w) :: m'[k] == m[k]
    ensures Copied(m, m', Plane(dp, stride), w, 1, src, sv)
  {
    var dv := Plane(dp, stride);
    forall x, y | 0 <= x < w && 0 <= y < 1
      ensures dv.At(x, y) == dp + x && 0 <= dv.At(x, y) < |m| && m'[dv.At(x, y)] == src[sv.At(x, y)]
    {
      assert dv.At(x, y) == dp + x;
      assert m'[dp + x] == src[sv.At(dp + x - dp, 0)];
    }
    CopiedRow(m, m', dv, w, src, sv);
  }

  // ----- rows without gaps are one long row

  lemma MulMonotone(a: int, b: int, c: int)
    requires a <= b && 0 <= c
    ensures a * c <= b * c
  {
  }

  lemma FlatIndex(w: int, h: int, k: int)
    requires 0 < w && 0 <= h && 0 <= k < w * h
    ensures 0 <= k % w < w && 0 <= k / w < h && k == k % w + k / w * w
  {
    if k / w >= h {
      MulMonotone(h, k / w, w);
    }
  }

  lemma FlatIndexInside(w: int, h: int, x: int, y: int)
    requires 0 <= x < w && 0 <= y < h
    ensures 0 <= x + y * w < w * h
  {
    assert y * w <= (h - 1) * w;
  }

  /** w by h cells without gaps fit memory of just that size. */
  lemma GridFits(w: int, h: int)
    requires 0 <= w && 0 <= h
    ensures 0 <= w * h && InBounds(Plane(0, w), w, h, w * h) && Distinct(Plane(0, w), w, h)
  {
    MulMonotone(0, w, h);
    forall x, y | 0 <= x < w && 0 <= y < h ensures 0 <= Plane(0, w).At(x, y) < w * h {
      FlatIndexInside(w, h, x, y);
    }
    PlaneDistinct(0, w, w, h);
  }

  lemma FlatAt(off: int, dx: int, w: int, x: int, y: int)
    ensures View(off, dx, w * dx).At(x, y) == View(off, dx, 0).At(x + y * w, 0)
  {
    assert (x + y * w) * dx == x * dx + y * (w * dx);
  }

  lemma FlatBounds(off: int, dx: int, w: int, h: int, len: int)
    requires 0 <= w && 0 <= h && InBounds(View(off, dx, w * dx), w, h, len)
    ensures InBounds(View(off, dx, 0), w * h, 1, len)
  {
    hide View.At;
    forall k, z | 0 <= k < w * h && 0 <= z < 1
      ensures 0 <= View(off, dx, 0).At(k, z) < len
    {
      FlatIndex(w, h, k);
      FlatAt(off, dx, w, k % w, k / w);
    }
  }

  lemma FlatCovers(off: int, w: int, h: int, k: int)
    requires 0 <= w && 0 <= h && Covers(Plane(off, 0), w * h, 1, k)
    ensures Covers(Plane(off, w), w, h, k)
  {
    hide View.At;
    var n, z :| 0 <= n < w * h && 0 <= z < 1 && Plane(off, 0).At(n, z) == k;
    FlatIndex(w, h, n);
    FlatAt(off, 1, w, n % w, n / w);
    assert Plane(off, w).At(n % w, n / w) == k;
  }

  lemma CopiedFlat<T>(m0: seq<T>, m1: seq<T>, d: int, w: int, h: int, src: seq<T>, s: int, dx: int)
    requires 0 <= w && 0 <= h
    requires InBounds(Plane(d, w), w, h, |m0|) && InBounds(View(s, dx, w * dx), w, h, |src|)
    requires Copied(m0, m1, Plane(d, 0), w * h, 1, src, View(s, dx, 0))
    ensures Copied(m0, m1, Plane(d, w), w, h, src, View(s, dx, w * dx))
  {
    hide View.At;
    forall k | 0 <= k < |m0| && !Covers(Plane(d, w), w, h, k)
      ensures m1[k] == m0[k]
    {
      if Covers(Plane(d, 0), w * h, 1, k) {
        FlatCovers(d, w, h, k);
      }
    }
    forall x, y | 0 <= x < w && 0 <= y < h
      ensures m1[Plane(d, w).At(x, y)] == src[View(s, dx, w * dx).At(x, y)]
    {
      FlatIndexInside(w, h, x, y);
      FlatAt(d, 1, w, x, y);
      FlatAt(s, dx, w, x, y);
    }
  }

  // ----- the same copy, described from another side

  lemma CoversFlipped(v: View, w: int, h: int, k: int)
    ensures Covers(v.FlippedY(h), w, h, k) ==> Covers(v, w, h, k)
  {
    if Covers(v.FlippedY(h), w, h, k) {
      var x, y :| 0 <= x < w && 0 <= y < h && v.FlippedY(h).At(x, y) == k;
      FlipAt(v, h, x, y);
      assert v.At(x, h - 1 - y) == k;
    }
  }

  /** Writing upside down is reading upside down. */
  lemma CopiedFlipped<T>(m0: seq<T>, m1: seq<T>, dv: View, w: int, h: int, src: seq<T>, sv: View)
    requires InBounds(dv, w, h, |m0|)
    requires Copied(m0, m1, dv.FlippedY(h), w, h, src, sv)
    ensures Copied(m0, m1, dv, w, h, src, sv.FlippedY(h))
  {
    FlipBounds(sv, w, h, |src|);
    hide View.At, View.FlippedY;
    forall k | 0 <= k < |m0| && !Covers(dv, w, h, k)
      ensures m1[k] == m0[k]
    {
      CoversFlipped(dv, w, h, k);
    }
    forall x, y | 0 <= x < w && 0 <= y < h
      ensures m1[dv.At(x, y)] == src[sv.FlippedY(h).At(x, y)]
    {
      FlipAt(dv, h, x, h - 1 - y);
      FlipAt(sv, h, x, y);
    }
  }

  /** Copied determines the memory completely. */
  lemma CopiedUnique<T>(m0: seq<T>, m1: seq<T>, m2: seq<T>, dv: View, w: int, h: int, src: seq<T>, sv: View)
    requires Copied(m0, m1, dv, w, h, src, sv) && Copied(m0, m2, dv, w, h, src, sv)
    ensures m1 == m2
  {
    hide View.At;
    forall k | 0 <= k < |m0|
      ensures m1[k] == m2[k]
    {
      if Covers(dv, w, h, k) {
        var x, y :| 0 <= x < w && 0 <= y < h && dv.At(x, y) == k;
      }
    }
  }
}
