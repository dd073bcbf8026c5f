/** planar_functions.cc and row_common.cc: the 5 by 5 Gaussian blur of a plane of floats, over
    the reals. */
module Gauss {
  import opened Edges
  import opened Planar
  import opened Views

  // ----- what the blur is

  function Tap(a: real, b: real, c: real, d: real, e: real): real {
    a + b * 4.0 + c * 6.0 + d * 4.0 + e
  }

  function Px(m: seq<real>, v: View, x: int, y: int): real {
    if 0 <= v.At(x, y) < |m| then m[v.At(x, y)] else 0.0
  }

  /** The source edges are clamped. */
  function Column(m: seq<real>, v: View, h: int, x: int, y: int): real {
    Tap(Px(m, v, x, Clamp(y - 2, h)), Px(m, v, x, Clamp(y - 1, h)), Px(m, v, x, Clamp(y, h)),
        Px(m, v, x, Clamp(y + 1, h)), Px(m, v, x, Clamp(y + 2, h)))
  }

  function Gaussian(m: seq<real>, v: View, w: int, h: int, x: int, y: int): real {
    Tap(Column(m, v, h, Clamp(x - 2, w), y), Column(m, v, h, Clamp(x - 1, w), y), Column(m, v, h, Clamp(x, w), y),
        Column(m, v, h, Clamp(x + 1, w), y), Column(m, v, h, Clamp(x + 2, w), y)) / 256.0
  }

  function GaussImage(m: seq<real>, v: View, w: int, h: int): (int, int) -> real {
    (x, y) => Gaussian(m, v, w, h, x, y)
  }

  // ----- the two kernels

  method GaussColF32(src: array<real>, s0: int, s1: int, s2: int, s3: int, s4: int, dst: array<real>, d: int,
                     width: nat)
    requires src != dst && RowInMemory(d, width, dst.Length)
    requires RowInMemory(s0, width, src.Length) && RowInMemory(s1, width, src.Length)
    requires RowInMemory(s2, width, src.Length)
    requires RowInMemory(s3, width, src.Length) && RowInMemory(s4, width, src.Length)
    modifies dst
    ensures forall k | d <= k < d + width ::
      dst[k] == Tap(src[k - d + s0], src[k - d + s1], src[k - d + s2], src[k - d + s3], src[k - d + s4])
    ensures forall k | 0 <= k < dst.Length && !(d <= k < d + width) :: dst[k] == old(dst[k])
  {
    hide Tap;
    var i := 0;
    while i < width
      invariant 0 <= i <= width
      invariant forall k | d <= k < d + i ::
        dst[k] == Tap(src[k - d + s0], src[k - d + s1], src[k - d + s2], src[k - d + s3], src[k - d + s4])
      invariant forall k | 0 <= k < dst.Length && !(d <= k < d + i) :: dst[k] == old(dst[k])
    {
      dst[d + i] := Tap(src[s0 + i], src[s1 + i], src[s2 + i], src[s3 + i], src[s4 + i]);
      i := i + 1;
    }
  }

  method GaussRowF32(src: array<real>, s: int, dst: array<real>, d: int, width: nat)
    requires src != dst && RowInMemory(d, width, dst.Length) && RowInMemory(s, width + 4, src.Length)
    modifies dst
    ensures forall k | d <= k < d + width ::
      dst[k] == Tap(src[k - d + s], src[k - d + s + 1], src[k - d + s + 2], src[k - d + s + 3],
                    src[k - d + s + 4]) / 256.0
    ensures forall k | 0 <= k < dst.Length && !(d <= k < d + width) :: dst[k] == old(dst[k])
  {
    hide Tap;
    var i := 0;
    while i < width
      invariant 0 <= i <= width
      invariant forall k | d <= k < d + i ::
        dst[k] == Tap(src[k - d + s], src[k - d + s + 1], src[k - d + s + 2], src[k - d + s + 3],
                      src[k - d + s + 4]) / 256.0
      invariant forall k | 0 <= k < dst.Length && !(d <= k < d + i) :: dst[k] == old(dst[k])
    {
      dst[d + i] := Tap(src[s + i], src[s + i + 1], src[s + i + 2], src[s + i + 3], src[s + i + 4]) / 256.0;
      i := i + 1;
    }
  }

  // ----- the five row pointers

  /** At row y the five pointers are rows y - 2 .. y + 2, clamped to the plane. */
  ghost predicate Window(s: int, stride: int, h: int, y: int, s0: int, s1: int, s2: int, s3: int, s4: int) {
    && s0 == RowStart(s, stride, Clamp(y - 2, h)) && s1 == RowStart(s, stride, Clamp(y - 1, h))
    && s2 == RowStart(s, stride, Clamp(y, h))
    && s3 == RowStart(s, stride, Clamp(y + 1, h)) && s4 == RowStart(s, stride, Clamp(y + 2, h))
  }

  lemma RowReadable(s: int, stride: int, w: int, h: int, len: int, y: int)
    requires InBounds(Plane(s, stride), w, h, len) && 0 < w && 0 < h
    ensures RowInMemory(RowStart(s, stride, Clamp(y, h)), w, len)
    ensures forall x | 0 <= x < w :: Plane(s, stride).At(x, Clamp(y, h)) == RowStart(s, stride, Clamp(y, h)) + x
  {
    PlaneRow(s, stride, w, h, len, Clamp(y, h));
  }

  /** One column of five rows. */
  lemma ColumnIs(m: seq<real>, s: int, stride: int, w: int, h: int, y: int, s0: int, s1: int, s2: int, s3: int, s4: int,
                 x: int)
    requires InBounds(Plane(s, stride), w, h, |m|) && 0 < w && 0 < h && Window(s, stride, h, y, s0, s1, s2, s3, s4)
    requires 0 <= x < w
    ensures RowInMemory(s0, w, |m|) && RowInMemory(s1, w, |m|) && RowInMemory(s2, w, |m|) && RowInMemory(s3, w, |m|)
    ensures RowInMemory(s4, w, |m|)
    ensures Tap(m[x + s0], m[x + s1], m[x + s2], m[x + s3], m[x + s4]) == Column(m, Plane(s, stride), h, x, y)
  {
    hide Tap, View.At, InBounds, Clamp, RowStart;
    RowReadable(s, stride, w, h, |m|, y - 2);
    RowReadable(s, stride, w, h, |m|, y - 1);
    RowReadable(s, stride, w, h, |m|, y);
    RowReadable(s, stride, w, h, |m|, y + 1);
    RowReadable(s, stride, w, h, |m|, y + 2);
  }

  /** The row buffer holds the columns sums of row y with two cells added at each end. */
  ghost predicate RowBuffered(row: seq<real>, r: int, m: seq<real>, v: View, w: int, h: int, y: int) {
    && 2 <= r && r + w + 2 <= |row|
    && forall k | r - 2 <= k < r + w + 2 :: row[k] == Column(m, v, h, Clamp(k - r, w), y)
  }

  /** Column sums, then the extruded edge. */
  method BufferRow(src: array<real>, s0: int, s1: int, s2: int, s3: int, s4: int, row: array<real>, r: int, width: int,
                   ghost s: int, ghost stride: int, ghost height: int, ghost y: int)
    requires src != row && 0 < width && 0 < height && 2 <= r && r + width + 2 <= row.Length
    requires InBounds(Plane(s, stride), width, height, src.Length) && Window(s, stride, height, y, s0, s1, s2, s3, s4)
    modifies row
    ensures RowBuffered(row[..], r, src[..], Plane(s, stride), width, height, y)
  {
    hide InBounds, Window, Tap, Column;
    forall x | 0 <= x < width
      ensures RowInMemory(s0, width, src.Length) && RowInMemory(s1, width, src.Length)
      ensures RowInMemory(s2, width, src.Length)
      ensures RowInMemory(s3, width, src.Length) && RowInMemory(s4, width, src.Length)
      ensures Tap(src[..][x + s0], src[..][x + s1], src[..][x + s2], src[..][x + s3], src[..][x + s4])
           == Column(src[..], Plane(s, stride), height, x, y)
    {
      ColumnIs(src[..], s, stride, width, height, y, s0, s1, s2, s3, s4, x);
    }
    ColumnIs(src[..], s, stride, width, height, y, s0, s1, s2, s3, s4, 0);
    GaussColF32(src, s0, s1, s2, s3, s4, row, r, width);
    forall k | r <= k < r + width ensures row[k] == Column(src[..], Plane(s, stride), height, k - r, y) {
      assert row[k]
        == Tap(src[..][k - r + s0], src[..][k - r + s1], src[..][k - r + s2], src[..][k - r + s3], src[..][k - r + s4]);
    }
    row[r - 1] := row[r];
    row[r - 2] := row[r - 1];
    row[r + width] := row[r + width - 1];
    row[r + width + 1] := row[r + width];
  }

  lemma GaussianFrom(row: seq<real>, r: int, m: seq<real>, v: View, w: int, h: int, x: int, y: int)
    requires RowBuffered(row, r, m, v, w, h, y) && 0 <= x < w
    ensures Tap(row[x + r - 2], row[x + r - 1], row[x + r], row[x + r + 1], row[x + r + 2]) / 256.0
      == Gaussian(m, v, w, h, x, y)
  {
    hide Tap, Column;
    assert row[x + r - 2] == Column(m, v, h, Clamp(x + r - 2 - r, w), y);
    assert row[x + r - 1] == Column(m, v, h, Clamp(x + r - 1 - r, w), y);
    assert row[x + r] == Column(m, v, h, Clamp(x + r - r, w), y);
    assert row[x + r + 1] == Column(m, v, h, Clamp(x + r + 1 - r, w), y);
    assert row[x + r + 2] == Column(m, v, h, Clamp(x + r + 2 - r, w), y);
  }

  /** The rows one after another, the five pointers moving down with them. */
  method GaussRows(src: array<real>, s: int, stride: int, dst: array<real>, d: int, dstStride: int, width: int,
                   height: int)
    requires src != dst && 0 < width && 0 < height
    requires InBounds(Plane(s, stride), width, height, src.Length)
    requires InBounds(Plane(d, dstStride), width, height, dst.Length) && Distinct(Plane(d, dstStride), width, height)
    modifies dst
    ensures Made(old(dst[..]), dst[..], Plane(d, dstStride), width, height,
                 GaussImage(src[..], Plane(s, stride), width, height))
  {
    hide InBounds, Distinct, Made, Window, RowBuffered, View.At;
    ghost var m0, image := dst[..], GaussImage(src[..], Plane(s, stride), width, height);
    var row := new real[4 + width + 4];
    var s0, s1, s2 := s, s, s;
    var s3 := s2 + if height > 1 then stride else 0;
    var s4 := s3 + if height > 2 then stride else 0;
    FirstWindow(s, stride, height);
    NothingMade(m0, Plane(d, dstStride), width, image);
    var dp, y := d, 0;
    while y < height
      invariant 0 <= y <= height && dp == d + y * dstStride
      invariant y < height ==> Window(s, stride, height, y, s0, s1, s2, s3, s4)
      invariant Made(m0, dst[..], Plane(d, dstStride), width, y, image)
    {
      BufferRow(src, s0, s1, s2, s3, s4, row, 4, width, s, stride, height, y);
      BlurBufferedRow(row, dst, d, dstStride, dp, width, height, y, src[..], Plane(s, stride), m0);
      NextWindow(s, stride, height, y, s0, s1, s2, s3, s4);
      s0 := s1;
      s1 := s2;
      s2 := s3;
      s3 := s4;
      if y + 2 < height - 1 {
        s4 := s4 + stride;
      }
      dp := dp + dstStride;
      y := y + 1;
    }
  }

  lemma FirstWindow(s: int, stride: int, h: int)
    requires 0 < h
    ensures Window(s, stride, h, 0, s, s, s, s + (if h > 1 then stride else 0),
                   s + (if h > 1 then stride else 0) + (if h > 2 then stride else 0))
  {
    NextRow(s, stride, 0);
    NextRow(s, stride, 1);
    hide RowStart;
  }

  /** Moving every pointer to the next one, and the last one down unless it is on the last row. */
  lemma NextWindow(s: int, stride: int, h: int, y: int, s0: int, s1: int, s2: int, s3: int, s4: int)
    requires 0 <= y < h && Window(s, stride, h, y, s0, s1, s2, s3, s4)
    ensures y + 1 < h ==> Window(s, stride, h, y + 1, s1, s2, s3, s4, s4 + (if y + 2 < h - 1 then stride else 0))
  {
    NextRow(s, stride, y + 2);
    hide RowStart;
  }

  method BlurBufferedRow(row: array<real>, dst: array<real>, ghost d: int, ghost dstStride: int, dp: int, width: int,
                         ghost height: int, ghost y: int,
                         ghost m: seq<real>, ghost v: View, ghost m0: seq<real>)
    requires row != dst && 0 < width && 0 <= y < height && dp == d + y * dstStride
    requires InBounds(Plane(d, dstStride), width, height, dst.Length) && Distinct(Plane(d, dstStride), width, height)
    requires |m0| == dst.Length
    requires RowBuffered(row[..], 4, m, v, width, height, y)
    requires Made(m0, dst[..], Plane(d, dstStride), width, y, GaussImage(m, v, width, height))
    modifies dst
    ensures Made(m0, dst[..], Plane(d, dstStride), width, y + 1, GaussImage(m, v, width, height))
  {
    hide InBounds, Distinct, Made, View.At, Tap, Gaussian, Column;
    ghost var m1 := dst[..];
    PlaneRow(d, dstStride, width, height, dst.Length, y);
    GaussRowF32(row, 4 - 2, dst, dp, width);
    forall k | dp <= k < dp + width
      ensures 0 <= k < dst.Length && dst[..][k] == GaussImage(m, v, width, height)(k - dp, y) {
      GaussianFrom(row[..], 4, m, v, width, height, k - dp, y);
    }
    MadeRow(m0, m1, dst[..], d, dstStride, dp, width, y, height, GaussImage(m, v, width, height));
  }

  /** Every pixel of the destination is the 5 by 5 blur of the source around it, read bottom up
      when the height is negative. */
  method GaussPlaneF32(src: array?<real>, s: int, srcStride: int, dst: array?<real>, d: int, dstStride: int, width: int,
                       height: int)
    returns (status: int)
    requires src != null && dst != null && 0 < width ==>
      && src != dst && InBounds(Plane(s, srcStride), width, Abs(height), src.Length)
      && InBounds(Plane(d, dstStride), width, Abs(height), dst.Length)
      && Distinct(Plane(d, dstStride), width, Abs(height))
    modifies if dst == null then {} else {dst}
    ensures status == if src == null || dst == null || width <= 0 || height == 0 then -1 else 0
    ensures status == -1 && dst != null ==> dst[..] == old(dst[..])
    ensures status == 0 ==>
      Made(old(dst[..]), dst[..], Plane(d, dstStride), width, Abs(height),
           GaussImage(src[..], Upright(Plane(s, srcStride), height), width, Abs(height)))
  {
    hide InBounds, Distinct, Made, GaussImage, View.At;
    if src == null || dst == null || width <= 0 || height == 0 {
      return -1;
    }
    var h, sp, stride := height, s, srcStride;
    if h < 0 {
      h := -h;
      sp := sp + (h - 1) * stride;
      stride := -stride;
      FlipBounds(Plane(s, srcStride), width, h, src.Length);
      FlippedPlane(s, srcStride, h);
    }
    GaussRows(src, sp, stride, dst, d, dstStride, width, h);
    status := 0;
  }

  // ----- what the blur does to one point

  /** Binomial coefficients, by adding neighbours. */
  function Choose(n: nat, k: int): nat {
    if k < 0 || k > n then 0 else if n == 0 then 1 else Choose(n - 1, k - 1) + Choose(n - 1, k)
  }

  lemma ChooseOfFour(k: int)
    ensures Choose(4, 0) == 1 && Choose(4, 1) == 4 && Choose(4, 2) == 6 && Choose(4, 3) == 4 && Choose(4, 4) == 1
    ensures k < 0 || k > 4 ==> Choose(4, k) == 0
  {
    assert Choose(2, 0) == 1 && Choose(2, 1) == 2 && Choose(2, 2) == 1;
    assert Choose(3, 0) == 1 && Choose(3, 1) == 3 && Choose(3, 2) == 3 && Choose(3, 3) == 1;
  }

  /** The value g at d == 0, and zero elsewhere. */
  function Pulse(d: int, g: real): real {
    if d == 0 then g else 0.0
  }

  /** g, n times. */
  function Weighted(g: real, n: nat): real {
    g * (n as real)
  }

  lemma TapOfPulse(d: int, g: real)
    ensures Tap(Pulse(d - 2, g), Pulse(d - 1, g), Pulse(d, g), Pulse(d + 1, g), Pulse(d + 2, g))
      == Weighted(g, Choose(4, d + 2))
  {
    ChooseOfFour(d + 2);
    hide Choose;
  }

  /** The plane is zero but for the value g at (cx, cy). */
  ghost predicate OnePoint(m: seq<real>, v: View, w: int, h: int, cx: int, cy: int, g: real) {
    forall x, y | 0 <= x < w && 0 <= y < h :: Px(m, v, x, y) == if x == cx && y == cy then g else 0.0
  }

  lemma ColumnOfPoint(m: seq<real>, v: View, w: int, h: int, cx: int, cy: int, g: real, x: int, y: int)
    requires 0 < cx < w - 1 && 0 < cy < h - 1 && OnePoint(m, v, w, h, cx, cy, g)
    ensures Column(m, v, h, Clamp(x, w), y) == Pulse(x - cx, Weighted(g, Choose(4, y - cy + 2)))
  {
    hide Px, Tap, Choose, Weighted;
    var a := if x == cx then g else 0.0;
    PointAt(m, v, w, h, cx, cy, g, x, y - 2);
    PointAt(m, v, w, h, cx, cy, g, x, y - 1);
    PointAt(m, v, w, h, cx, cy, g, x, y);
    PointAt(m, v, w, h, cx, cy, g, x, y + 1);
    PointAt(m, v, w, h, cx, cy, g, x, y + 2);
    TapOfPulse(y - cy, a);
    NoWeight(0.0, Choose(4, y - cy + 2));
  }

  lemma NoWeight(g: real, n: nat)
    requires g == 0.0 || n == 0
    ensures Weighted(g, n) == 0.0
  {
  }

  lemma PointAt(m: seq<real>, v: View, w: int, h: int, cx: int, cy: int, g: real, x: int, y: int)
    requires 0 < cx < w - 1 && 0 < cy < h - 1 && OnePoint(m, v, w, h, cx, cy, g)
    ensures Px(m, v, Clamp(x, w), Clamp(y, h)) == Pulse(y - cy, if x == cx then g else 0.0)
  {
    hide Px;
  }

  /** A point off the border is spread by the binomial coefficients 1, 4, 6, 4, 1 each way. */
  lemma PointResponse(m: seq<real>, v: View, w: int, h: int, cx: int, cy: int, g: real, x: int, y: int)
    requires 0 < cx < w - 1 && 0 < cy < h - 1 && OnePoint(m, v, w, h, cx, cy, g)
    ensures Gaussian(m, v, w, h, x, y) == g * (Choose(4, y - cy + 2) as real) * (Choose(4, x - cx + 2) as real) / 256.0
    ensures Choose(4, 0) == Choose(4, 4) == 1 && Choose(4, 1) == Choose(4, 3) == 4 && Choose(4, 2) == 6
    ensures x < cx - 2 || cx + 2 < x || y < cy - 2 || cy + 2 < y ==> Gaussian(m, v, w, h, x, y) == 0.0
  {
    ChooseOfFour(x - cx + 2);
    ChooseOfFour(y - cy + 2);
    hide Column, Tap, Clamp, Choose, OnePoint, Pulse, Weighted;
    ColumnOfPoint(m, v, w, h, cx, cy, g, x - 2, y);
    ColumnOfPoint(m, v, w, h, cx, cy, g, x - 1, y);
    ColumnOfPoint(m, v, w, h, cx, cy, g, x, y);
    ColumnOfPoint(m, v, w, h, cx, cy, g, x + 1, y);
    ColumnOfPoint(m, v, w, h, cx, cy, g, x + 2, y);
    var down, across := Choose(4, y - cy + 2), Choose(4, x - cx + 2);
    TapOfPulse(x - cx, Weighted(g, down));
    WeightedTwice(g, down, across);
    if down == 0 {
      NoWeight(g, down);
    }
    if down == 0 || across == 0 {
      NoWeight(Weighted(g, down), across);
    }
  }

  lemma WeightedTwice(g: real, m: nat, n: nat)
    ensures Weighted(Weighted(g, m), n) == g * (m as real) * (n as real)
  {
  }

  // ----- what the blur keeps

  function Across(m: seq<real>, v: View, w: int, x: int, y: int): real {
    Tap(Px(m, v, Clamp(x - 2, w), y), Px(m, v, Clamp(x - 1, w), y), Px(m, v, Clamp(x, w), y),
        Px(m, v, Clamp(x + 1, w), y), Px(m, v, Clamp(x + 2, w), y))
  }

  lemma TransposedColumn(m: seq<real>, v: View, w: int, x: int, y: int)
    ensures Column(m, v.Transposed(), w, y, x) == Across(m, v, w, x, y)
  {
    hide Tap, Clamp;
    TransposeAt(v, y, Clamp(x - 2, w));
    TransposeAt(v, y, Clamp(x - 1, w));
    TransposeAt(v, y, Clamp(x, w));
    TransposeAt(v, y, Clamp(x + 1, w));
    TransposeAt(v, y, Clamp(x + 2, w));
  }

  /** A tap of taps does not depend on which is taken first. */
  lemma TapOfTaps(a0: real, a1: real, a2: real, a3: real, a4: real, b0: real, b1: real, b2: real, b3: real, b4: real,
                  c0: real, c1: real, c2: real, c3: real, c4: real, d0: real, d1: real, d2: real, d3: real, d4: real,
                  e0: real, e1: real, e2: real, e3: real, e4: real)
    ensures Tap(Tap(a0, a1, a2, a3, a4), Tap(b0, b1, b2, b3, b4), Tap(c0, c1, c2, c3, c4), Tap(d0, d1, d2, d3, d4),
                Tap(e0, e1, e2, e3, e4))
         == Tap(Tap(a0, b0, c0, d0, e0), Tap(a1, b1, c1, d1, e1), Tap(a2, b2, c2, d2, e2), Tap(a3, b3, c3, d3, e3),
                Tap(a4, b4, c4, d4, e4))
  {
  }

  /** Blurring a turned image is turning the blurred one: rows and columns may be taken in
      either order. */
  lemma BlurTransposed(m: seq<real>, v: View, w: int, h: int, x: int, y: int)
    ensures Gaussian(m, v.Transposed(), h, w, y, x) == Gaussian(m, v, w, h, x, y)
  {
    hide Tap, Clamp, Px, View.Transposed;
    var x0, x1, x2, x3, x4 := Clamp(x - 2, w), Clamp(x - 1, w), Clamp(x, w), Clamp(x + 1, w), Clamp(x + 2, w);
    var y0, y1, y2, y3, y4 := Clamp(y - 2, h), Clamp(y - 1, h), Clamp(y, h), Clamp(y + 1, h), Clamp(y + 2, h);
    TransposedColumn(m, v, w, x, y0);
    TransposedColumn(m, v, w, x, y1);
    TransposedColumn(m, v, w, x, y2);
    TransposedColumn(m, v, w, x, y3);
    TransposedColumn(m, v, w, x, y4);
    TapOfTaps(Px(m, v, x0, y0), Px(m, v, x1, y0), Px(m, v, x2, y0), Px(m, v, x3, y0), Px(m, v, x4, y0),
              Px(m, v, x0, y1), Px(m, v, x1, y1), Px(m, v, x2, y1), Px(m, v, x3, y1), Px(m, v, x4, y1),
              Px(m, v, x0, y2), Px(m, v, x1, y2), Px(m, v, x2, y2), Px(m, v, x3, y2), Px(m, v, x4, y2),
              Px(m, v, x0, y3), Px(m, v, x1, y3), Px(m, v, x2, y3), Px(m, v, x3, y3), Px(m, v, x4, y3),
              Px(m, v, x0, y4), Px(m, v, x1, y4), Px(m, v, x2, y4), Px(m, v, x3, y4), Px(m, v, x4, y4));
  }

  lemma TapReversed(a: real, b: real, c: real, d: real, e: real)
    ensures Tap(a, b, c, d, e) == Tap(e, d, c, b, a)
  {
  }

  lemma FlippedColumn(m: seq<real>, v: View, h: int, x: int, y: int)
    requires 0 < h
    ensures Column(m, v.FlippedY(h), h, x, y) == Column(m, v, h, x, h - 1 - y)
  {
    hide Clamp, Tap, View.At, View.FlippedY;
    FlippedPx(m, v, h, x, y - 2);
    FlippedPx(m, v, h, x, y - 1);
    FlippedPx(m, v, h, x, y);
    FlippedPx(m, v, h, x, y + 1);
    FlippedPx(m, v, h, x, y + 2);
    var y' := h - 1 - y;
    TapReversed(Px(m, v, x, Clamp(y' + 2, h)), Px(m, v, x, Clamp(y' + 1, h)), Px(m, v, x, Clamp(y', h)),
                Px(m, v, x, Clamp(y' - 1, h)), Px(m, v, x, Clamp(y' - 2, h)));
  }

  lemma FlippedPx(m: seq<real>, v: View, h: int, x: int, y: int)
    requires 0 < h
    ensures Px(m, v.FlippedY(h), x, Clamp(y, h)) == Px(m, v, x, Clamp(h - 1 - y, h))
  {
    hide Clamp, View.At, View.FlippedY;
    FlipAt(v, h, x, Clamp(y, h));
    ClampReversed(y, h);
  }

  /** Blurring the image upside down gives the blurred image upside down. */
  lemma BlurFlipped(m: seq<real>, v: View, w: int, h: int, x: int, y: int)
    requires 0 < h
    ensures Gaussian(m, v.FlippedY(h), w, h, x, y) == Gaussian(m, v, w, h, x, h - 1 - y)
  {
    hide Column, Tap, Clamp, View.FlippedY;
    FlippedColumn(m, v, h, Clamp(x - 2, w), y);
    FlippedColumn(m, v, h, Clamp(x - 1, w), y);
    FlippedColumn(m, v, h, Clamp(x, w), y);
    FlippedColumn(m, v, h, Clamp(x + 1, w), y);
    FlippedColumn(m, v, h, Clamp(x + 2, w), y);
  }

  ghost predicate Between(m: seq<real>, v: View, w: int, h: int, lo: real, hi: real) {
    forall x, y | 0 <= x < w && 0 <= y < h :: lo <= Px(m, v, x, y) <= hi
  }

  lemma TapBetween(a: real, b: real, c: real, d: real, e: real, lo: real, hi: real)
    requires lo <= a <= hi && lo <= b <= hi && lo <= c <= hi && lo <= d <= hi && lo <= e <= hi
    ensures 16.0 * lo <= Tap(a, b, c, d, e) <= 16.0 * hi
  {
  }

  lemma ColumnBetween(m: seq<real>, v: View, w: int, h: int, x: int, y: int, lo: real, hi: real)
    requires 0 <= x < w && 0 < h && Between(m, v, w, h, lo, hi)
    ensures 16.0 * lo <= Column(m, v, h, x, y) <= 16.0 * hi
  {
    hide Tap, Px;
    TapBetween(Px(m, v, x, Clamp(y - 2, h)), Px(m, v, x, Clamp(y - 1, h)), Px(m, v, x, Clamp(y, h)),
               Px(m, v, x, Clamp(y + 1, h)), Px(m, v, x, Clamp(y + 2, h)), lo, hi);
  }

  /** The weights add up to one: the blur leaves the range of the source, and a flat image as it was. */
  lemma BlurBetween(m: seq<real>, v: View, w: int, h: int, x: int, y: int, lo: real, hi: real)
    requires 0 < w && 0 < h && Between(m, v, w, h, lo, hi)
    ensures lo <= Gaussian(m, v, w, h, x, y) <= hi
  {
    hide Tap, Column, Between;
    ColumnBetween(m, v, w, h, Clamp(x - 2, w), y, lo, hi);
    ColumnBetween(m, v, w, h, Clamp(x - 1, w), y, lo, hi);
    ColumnBetween(m, v, w, h, Clamp(x, w), y, lo, hi);
    ColumnBetween(m, v, w, h, Clamp(x + 1, w), y, lo, hi);
    ColumnBetween(m, v, w, h, Clamp(x + 2, w), y, lo, hi);
    TapBetween(Column(m, v, h, Clamp(x - 2, w), y), Column(m, v, h, Clamp(x - 1, w), y),
               Column(m, v, h, Clamp(x, w), y),
               Column(m, v, h, Clamp(x + 1, w), y), Column(m, v, h, Clamp(x + 2, w), y), 16.0 * lo, 16.0 * hi);
  }
}
