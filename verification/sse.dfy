/** compare_common.cc, compare_gcc.cc and compare.cc: the sum of squared differences of two
    buffers, of two planes and of two I420 images, and what it means for PSNR. */
module SquaredError {
  import Ssim
  import opened Counters
  import opened Planar
  import opened Views

  // ----- what the error is

  function Square(d: int): nat {
    assert d * d >= 0;
    d * d
  }

  /** A run of n bytes from p; an empty run may be anywhere. */
  predicate Fits(m: seq<byte>, p: int, n: nat) {
    n == 0 || (0 <= p && p + n <= |m|)
  }

  function Error(a: seq<byte>, p: int, b: seq<byte>, q: int, n: nat): nat
    requires Fits(a, p, n) && Fits(b, q, n)
  {
    if n == 0 then 0 else Error(a, p, b, q, n - 1) + Square(Minus(a[p + n - 1], b[q + n - 1]))
  }

  /** A run of n + k bytes: the first n and the k after them. */
  lemma {:induction false} ErrorOn(a: seq<byte>, p: int, b: seq<byte>, q: int, n: nat, k: nat)
    requires Fits(a, p, n + k) && Fits(b, q, n + k)
    ensures Error(a, p, b, q, n + k) == Error(a, p, b, q, n) + Error(a, p + n, b, q + n, k)
  {
    hide Square;
    if k > 0 {
      ErrorOn(a, p, b, q, n, k - 1);
    }
  }

  /** Sample by sample. */
  lemma OneMoreSample(a: seq<byte>, p: int, b: seq<byte>, q: int, n: nat)
    requires Fits(a, p, n + 1) && Fits(b, q, n + 1)
    ensures Error(a, p, b, q, 0) == 0
    ensures Error(a, p, b, q, n + 1)
      == Error(a, p, b, q, n) + ((a[p + n] as int) - (b[q + n] as int)) * ((a[p + n] as int) - (b[q + n] as int))
  {
  }

  /** The error in sums of products of the samples themselves. */
  lemma {:induction false} ErrorProducts(a: seq<byte>, p: nat, b: seq<byte>, q: nat, n: nat)
    requires p + n <= |a| && q + n <= |b|
    ensures var s, t := a[p..p + n], b[q..q + n];
      Error(a, p, b, q, n) == Ssim.Dot(s, s) - 2 * Ssim.Dot(s, t) + Ssim.Dot(t, t)
  {
    if n > 0 {
      ErrorProducts(a, p, b, q, n - 1);
      var s, t, x, y := a[p..p + n - 1], b[q..q + n - 1], a[p + n - 1], b[q + n - 1];
      assert a[p..p + n] == s + [x] && b[q..q + n] == t + [y];
      hide Square, Ssim.Product, Ssim.Dot;
      Ssim.DotNext(s, s, x, x);
      Ssim.DotNext(s, t, x, y);
      Ssim.DotNext(t, t, y, y);
      SquareOfDifference(x, y);
    }
  }

  lemma SquareOfDifference(x: byte, y: byte)
    ensures Square(Minus(x, y)) == Ssim.Product(x, x) - 2 * Ssim.Product(x, y) + Ssim.Product(y, y)
  {
  }

  lemma SquareBound(x: byte, y: byte)
    ensures Square(Minus(x, y)) <= 65025 && Square(Minus(x, y)) == Square(Minus(y, x))
    ensures Square(Minus(x, y)) == 0 <==> x == y
  {
    SquareUpTo(if x >= y then Minus(x, y) else Minus(y, x));
    SquareEven(Minus(x, y));
    hide Square;
  }

  lemma SquareUpTo(n: nat)
    requires n <= 255
    ensures n <= Square(n) <= 65025
  {
    MulMonotone(n, 255, n);
    MulMonotone(n, 255, 255);
    if n > 0 {
      MulMonotone(1, n, n);
    }
  }

  lemma SquareEven(d: int)
    ensures Square(-d) == Square(d)
  {
  }

  predicate SameRun(a: seq<byte>, p: int, b: seq<byte>, q: int, n: nat)
    requires Fits(a, p, n) && Fits(b, q, n)
  {
    forall i | p <= i < p + n :: a[i] == b[i - p + q]
  }

  lemma {:induction false} ErrorBound(a: seq<byte>, p: int, b: seq<byte>, q: int, n: nat)
    requires Fits(a, p, n) && Fits(b, q, n)
    ensures Error(a, p, b, q, n) <= 65025 * n
    ensures Error(a, p, b, q, n) == 0 <==> SameRun(a, p, b, q, n)
  {
    hide Square;
    if n > 0 {
      ErrorBound(a, p, b, q, n - 1);
      SquareBound(a[p + n - 1], b[q + n - 1]);
    }
  }

  lemma {:induction false} ErrorSymmetric(a: seq<byte>, p: int, b: seq<byte>, q: int, n: nat)
    requires Fits(a, p, n) && Fits(b, q, n)
    ensures Error(a, p, b, q, n) == Error(b, q, a, p, n)
  {
    hide Square;
    if n > 0 {
      ErrorSymmetric(a, p, b, q, n - 1);
      SquareBound(a[p + n - 1], b[q + n - 1]);
    }
  }

  // ----- SumSquareError_C

  method SumSquareErrorC(a: array<byte>, p: int, b: array<byte>, q: int, count: nat) returns (sse: nat)
    requires Fits(a[..], p, count) && Fits(b[..], q, count)
    ensures sse == Wrap(Error(a[..], p, b[..], q, count))
  {
    hide Wrap, Square, Minus;
    sse := 0;
    WrapSmall(0);
    var i := 0;
    while i < count
      invariant 0 <= i <= count && sse == Wrap(Error(a[..], p, b[..], q, i))
    {
      var diff := Minus(a[p + i], b[q + i]);
      SquareBound(a[p + i], b[q + i]);
      WrapSmall(Square(diff));
      WrapAdd(Error(a[..], p, b[..], q, i), Square(diff));
      sse := Wrap(sse + Square(diff));
      i := i + 1;
    }
  }

  // ----- SumSquareError_SSE2

  type Bytes16 = r: seq<byte> | |r| == 16 witness seq(16, _ => 0)
  type Words8 = r: seq<int> | |r| == 8 witness seq(8, _ => 0)
  type Lanes4 = r: seq<nat> | |r| == 4 witness seq(4, _ => 0)

  /** psubusb on one byte: subtraction that stops at zero. */
  function Saturated(x: byte, y: byte): byte {
    if x >= y then Minus(x, y) else 0
  }

  function Psubusb(x: Bytes16, y: Bytes16): Bytes16 {
    seq(16, i requires 0 <= i < 16 => Saturated(x[i], y[i]))
  }

  function Either(x: byte, y: byte): byte {
    ((x as bv8) | (y as bv8)) as int
  }

  lemma EitherOfZero(x: byte)
    ensures Either(x, 0) == x && Either(0, x) == x
  {
  }

  function Por(x: Bytes16, y: Bytes16): Bytes16 {
    seq(16, i requires 0 <= i < 16 => Either(x[i], y[i]))
  }

  /** punpcklbw and punpckhbw with zero: bytes become words. */
  function LowWords(x: Bytes16): Words8 {
    seq(8, i requires 0 <= i < 8 => x[i])
  }

  function HighWords(x: Bytes16): Words8 {
    seq(8, i requires 0 <= i < 8 => x[8 + i])
  }

  /** pmaddwd of a register with itself: the squares of two neighbouring words, added. */
  function PmaddwdSelf(x: Words8): Lanes4 {
    seq(4, i requires 0 <= i < 4 => Wrap(Square(x[2 * i]) + Square(x[2 * i + 1])))
  }

  function Paddd(x: Lanes4, y: Lanes4): Lanes4 {
    seq(4, i requires 0 <= i < 4 => Wrap(x[i] + y[i]))
  }

  function PshufdEE(x: Lanes4): Lanes4 {
    [x[2], x[3], x[2], x[3]]
  }

  function Pshufd1(x: Lanes4): Lanes4 {
    [x[1], x[0], x[0], x[0]]
  }

  function Loaded(m: seq<byte>, p: int): Bytes16
    requires Fits(m, p, 16)
  {
    m[p..p + 16]
  }

  /** One of the two saturated differences is zero, the other is the distance of the bytes. */
  lemma Difference(x: byte, y: byte)
    ensures Square(Either(Saturated(x, y), Saturated(y, x))) == Square(Minus(x, y))
  {
    EitherOfZero(Saturated(x, y));
    EitherOfZero(Saturated(y, x));
    SquareEven(Minus(x, y));
    hide Square, Either;
  }

  function PixelError(a: seq<byte>, p: int, b: seq<byte>, q: int, i: nat): nat
    requires Fits(a, p, 16) && Fits(b, q, 16) && i < 16
  {
    Square(Minus(a[p + i], b[q + i]))
  }

  /** What sixteen bytes add to lane k. */
  function LaneError(a: seq<byte>, p: int, b: seq<byte>, q: int, k: nat): nat
    requires Fits(a, p, 16) && Fits(b, q, 16) && k < 4
  {
    PixelError(a, p, b, q, 2 * k) + PixelError(a, p, b, q, 2 * k + 1)
    + (PixelError(a, p, b, q, 8 + 2 * k) + PixelError(a, p, b, q, 9 + 2 * k))
  }

  lemma FourErrors(a: seq<byte>, p: int, b: seq<byte>, q: int, i: nat)
    requires Fits(a, p, 16) && Fits(b, q, 16) && i <= 12
    ensures Error(a, p + i, b, q + i, 4)
         == PixelError(a, p, b, q, i) + PixelError(a, p, b, q, i + 1) + PixelError(a, p, b, q, i + 2)
           + PixelError(a, p, b, q, i + 3)
  {
    hide Square;
    var p', q' := p + i, q + i;
    assert Error(a, p', b, q', 1) == PixelError(a, p, b, q, i) by {
      assert Error(a, p', b, q', 0) == 0;
    }
    assert Error(a, p', b, q', 2) == Error(a, p', b, q', 1) + PixelError(a, p, b, q, i + 1);
    assert Error(a, p', b, q', 3) == Error(a, p', b, q', 2) + PixelError(a, p, b, q, i + 2);
    assert Error(a, p', b, q', 4) == Error(a, p', b, q', 3) + PixelError(a, p, b, q, i + 3);
  }

  /** The four lanes share the error of sixteen bytes. */
  lemma LanesShareError(a: seq<byte>, p: int, b: seq<byte>, q: int)
    requires Fits(a, p, 16) && Fits(b, q, 16)
    ensures Error(a, p, b, q, 16)
      == LaneError(a, p, b, q, 0) + LaneError(a, p, b, q, 1) + LaneError(a, p, b, q, 2) + LaneError(a, p, b, q, 3)
  {
    hide Error, PixelError;
    ErrorOn(a, p, b, q, 4, 4);
    ErrorOn(a, p, b, q, 8, 4);
    ErrorOn(a, p, b, q, 12, 4);
    FourErrors(a, p, b, q, 0);
    FourErrors(a, p, b, q, 4);
    FourErrors(a, p, b, q, 8);
    FourErrors(a, p, b, q, 12);
  }

  function BlockDifferences(a: seq<byte>, p: int, b: seq<byte>, q: int): Bytes16
    requires Fits(a, p, 16) && Fits(b, q, 16)
  {
    Por(Psubusb(Loaded(a, p), Loaded(b, q)), Psubusb(Loaded(b, q), Loaded(a, p)))
  }

  lemma DifferenceAt(a: seq<byte>, p: int, b: seq<byte>, q: int, i: nat)
    requires Fits(a, p, 16) && Fits(b, q, 16) && i < 16
    ensures Square(BlockDifferences(a, p, b, q)[i]) == PixelError(a, p, b, q, i) <= 65025
  {
    hide Square, Minus, Saturated, Either;
    Difference(a[p + i], b[q + i]);
    SquareBound(a[p + i], b[q + i]);
  }

  /** What one lane is, and what sixteen more bytes make of it. */
  lemma LaneAfter(a: seq<byte>, p: int, b: seq<byte>, q: int, xmm0: Lanes4, total: nat, k: nat)
    requires Fits(a, p, 16) && Fits(b, q, 16) && k < 4 && xmm0[k] == Wrap(total)
    ensures Paddd(Paddd(xmm0, PmaddwdSelf(LowWords(BlockDifferences(a, p, b, q)))),
                  PmaddwdSelf(HighWords(BlockDifferences(a, p, b, q))))[k]
         == Wrap(total + LaneError(a, p, b, q, k))
  {
    hide Square, Wrap, BlockDifferences, PixelError;
    DifferenceAt(a, p, b, q, 2 * k);
    DifferenceAt(a, p, b, q, 2 * k + 1);
    DifferenceAt(a, p, b, q, 8 + 2 * k);
    DifferenceAt(a, p, b, q, 9 + 2 * k);
    WrapAdd(total, PixelError(a, p, b, q, 2 * k) + PixelError(a, p, b, q, 2 * k + 1));
    WrapAdd(total + PixelError(a, p, b, q, 2 * k) + PixelError(a, p, b, q, 2 * k + 1),
            PixelError(a, p, b, q, 8 + 2 * k) + PixelError(a, p, b, q, 9 + 2 * k));
  }

  /** Four counters that hold, wrapped, parts of the error so far. */
  predicate Shared(xmm0: Lanes4, totals: Lanes4, error: nat) {
    && xmm0[0] == Wrap(totals[0]) && xmm0[1] == Wrap(totals[1]) && xmm0[2] == Wrap(totals[2])
    && xmm0[3] == Wrap(totals[3])
    && totals[0] + totals[1] + totals[2] + totals[3] == error
  }

  /** What sixteen bytes make of the four totals. */
  ghost function NextTotals(totals: Lanes4, a: seq<byte>, p: int, b: seq<byte>, q: int): Lanes4
    requires Fits(a, p, 16) && Fits(b, q, 16)
  {
    [totals[0] + LaneError(a, p, b, q, 0), totals[1] + LaneError(a, p, b, q, 1),
     totals[2] + LaneError(a, p, b, q, 2), totals[3] + LaneError(a, p, b, q, 3)]
  }

  /** One pass of the vector loop. */
  method SquareBlock(a: seq<byte>, p: int, b: seq<byte>, q: int, acc: Lanes4, ghost totals: Lanes4, ghost error: nat)
    returns (xmm0: Lanes4)
    requires Fits(a, p, 16) && Fits(b, q, 16) && Shared(acc, totals, error)
    ensures Shared(xmm0, NextTotals(totals, a, p, b, q), error + Error(a, p, b, q, 16))
  {
    hide Loaded, Psubusb, Por, LowWords, HighWords, PmaddwdSelf, Paddd, Wrap, Error, LaneError;
    var xmm1 := Loaded(a, p);
    var xmm2 := Loaded(b, q);
    var xmm3 := xmm1;
    xmm1 := Psubusb(xmm1, xmm2);
    xmm2 := Psubusb(xmm2, xmm3);
    xmm1 := Por(xmm1, xmm2);
    var low := LowWords(xmm1);
    var high := HighWords(xmm1);
    var lowSquares := PmaddwdSelf(low);
    var highSquares := PmaddwdSelf(high);
    xmm0 := Paddd(acc, lowSquares);
    xmm0 := Paddd(xmm0, highSquares);
    LaneAfter(a, p, b, q, acc, totals[0], 0);
    LaneAfter(a, p, b, q, acc, totals[1], 1);
    LaneAfter(a, p, b, q, acc, totals[2], 2);
    LaneAfter(a, p, b, q, acc, totals[3], 3);
    LanesShareError(a, p, b, q);
  }

  /** The two shuffles add the four lanes up in lane 0. */
  lemma LanesJoined(xmm0: Lanes4, totals: Lanes4, error: nat)
    requires Shared(xmm0, totals, error)
    ensures Paddd(Paddd(xmm0, PshufdEE(xmm0)), Pshufd1(Paddd(xmm0, PshufdEE(xmm0))))[0] == Wrap(error)
  {
    hide Wrap;
    WrapAdd(totals[0], totals[2]);
    WrapAdd(totals[1], totals[3]);
    WrapAdd(totals[0] + totals[2], totals[1] + totals[3]);
  }

  method SumSquareErrorSse2(a: array<byte>, p: int, b: array<byte>, q: int, count: nat) returns (sse: nat)
    requires 0 < count && count % 16 == 0 && Fits(a[..], p, count) && Fits(b[..], q, count)
    ensures sse == Wrap(Error(a[..], p, b[..], q, count))
  {
    hide Wrap, Error, Shared, Paddd, PshufdEE, Pshufd1;
    var xmm0: Lanes4 := [0, 0, 0, 0];
    ghost var totals: Lanes4 := [0, 0, 0, 0];
    NothingYet(a[..], p, b[..], q);
    var i, n := 0, count;
    while n > 0
      invariant 0 <= n <= count && n % 16 == 0 && 0 <= i && i == count - n
      invariant Shared(xmm0, totals, Error(a[..], p, b[..], q, i))
    {
      ErrorOn(a[..], p, b[..], q, i, 16);
      xmm0 := SquareBlock(a[..], p + i, b[..], q + i, xmm0, totals, Error(a[..], p, b[..], q, i));
      totals := NextTotals(totals, a[..], p + i, b[..], q + i);
      i := i + 16;
      n := n - 16;
    }
    LanesJoined(xmm0, totals, Error(a[..], p, b[..], q, count));
    var xmm1 := PshufdEE(xmm0);
    xmm0 := Paddd(xmm0, xmm1);
    xmm1 := Pshufd1(xmm0);
    xmm0 := Paddd(xmm0, xmm1);
    sse := xmm0[0];
  }

  lemma NothingYet(a: seq<byte>, p: int, b: seq<byte>, q: int)
    ensures Shared([0, 0, 0, 0], [0, 0, 0, 0], Error(a, p, b, q, 0))
  {
  }

  // ----- ComputeSumSquareError

  /** A block of 65536 bytes is the longest whose error fits in 32 bits for certain. */
  lemma BlockFits32(n: nat)
    ensures 65025 * n < TWO32 <==> n <= 66051
  {
  }

  /** One call of a kernel on at most a block: the 32-bit counter has not wrapped. */
  method AddPart(a: array<byte>, p: int, b: array<byte>, q: int, n: nat, count: nat, hasSse2: bool, soFar: nat)
    returns (sse: nat)
    requires Fits(a[..], p, n + count) && Fits(b[..], q, n + count) && count <= 65536
    requires hasSse2 ==> count % 16 == 0
    requires soFar == Error(a[..], p, b[..], q, n)
    ensures sse == Error(a[..], p, b[..], q, n + count)
  {
    hide Error, Wrap;
    sse := soFar;
    if count != 0 {
      ErrorOn(a[..], p, b[..], q, n, count);
      ErrorBound(a[..], p + n, b[..], q + n, count);
      BlockFits32(count);
      WrapSmall(Error(a[..], p + n, b[..], q + n, count));
      var part;
      if hasSse2 {
        part := SumSquareErrorSse2(a, p + n, b, q + n, count);
      } else {
        part := SumSquareErrorC(a, p + n, b, q + n, count);
      }
      sse := sse + part;
    }
  }

  /** Blocks of 65536 bytes, then a multiple of 32, then the rest in C. */
  method ComputeSumSquareError(a: array<byte>, p: int, b: array<byte>, q: int, count: nat, hasSse2: bool)
    returns (sse: nat)
    requires Fits(a[..], p, count) && Fits(b[..], q, count)
    ensures sse == Error(a[..], p, b[..], q, count)
  {
    hide Error;
    sse := 0;
    ErrorOfNone(a[..], p, b[..], q);
    var i, k := 0, 0;
    while i < count - 65535
      invariant 0 <= k && i == 65536 * k && i <= count && sse == Error(a[..], p, b[..], q, i)
    {
      sse := AddPart(a, p, b, q, i, 65536, hasSse2, sse);
      i, k := i + 65536, k + 1;
    }
    Parts(count, 65536, 2048, 32, k, count - 65536 * k);
    WholeHalves((count - 65536 * k) / 32, 16);
    var remainder := (count % 65536) / 32 * 32;
    sse := AddPart(a, p, b, q, i, remainder, hasSse2, sse);
    i := i + remainder;
    sse := AddPart(a, p, b, q, i, count % 32, false, sse);
  }

  // ----- planes

  lemma RowFits(m: seq<byte>, p: int, stride: int, w: nat, h: nat, y: nat)
    requires InBounds(Plane(p, stride), w, h, |m|) && y < h
    ensures Fits(m, RowStart(p, stride, y), w)
    ensures forall x | 0 <= x < w :: Plane(p, stride).At(x, y) == RowStart(p, stride, y) + x
  {
    if w > 0 {
      PlaneRow(p, stride, w, h, |m|, y);
    }
  }

  /** The error of two planes of w by h bytes, row by row. */
  ghost function PlaneError(a: seq<byte>, p: int, strideA: int, b: seq<byte>, q: int, strideB: int, w: nat, h: nat): nat
    requires InBounds(Plane(p, strideA), w, h, |a|) && InBounds(Plane(q, strideB), w, h, |b|)
    decreases h
  {
    if h == 0 then 0 else
      EarlierBounds(Plane(p, strideA), w, h - 1, h, |a|);
      EarlierBounds(Plane(q, strideB), w, h - 1, h, |b|);
      RowFits(a, p, strideA, w, h, h - 1);
      RowFits(b, q, strideB, w, h, h - 1);
      PlaneError(a, p, strideA, b, q, strideB, w, h - 1)
        + Error(a, RowStart(p, strideA, h - 1), b, RowStart(q, strideB, h - 1), w)
  }

  ghost predicate SamePlane(a: seq<byte>, p: int, strideA: int, b: seq<byte>, q: int, strideB: int, w: nat, h: nat)
    requires InBounds(Plane(p, strideA), w, h, |a|) && InBounds(Plane(q, strideB), w, h, |b|)
  {
    forall x, y | 0 <= x < w && 0 <= y < h :: a[Plane(p, strideA).At(x, y)] == b[Plane(q, strideB).At(x, y)]
  }

  lemma SameRow(a: seq<byte>, p: int, strideA: int, b: seq<byte>, q: int, strideB: int, w: nat, h: nat)
    requires 0 < h && InBounds(Plane(p, strideA), w, h, |a|) && InBounds(Plane(q, strideB), w, h, |b|)
    requires Fits(a, RowStart(p, strideA, h - 1), w) && Fits(b, RowStart(q, strideB, h - 1), w)
    requires InBounds(Plane(p, strideA), w, h - 1, |a|) && InBounds(Plane(q, strideB), w, h - 1, |b|)
    ensures SamePlane(a, p, strideA, b, q, strideB, w, h)
       <==> (SamePlane(a, p, strideA, b, q, strideB, w, h - 1) &&
             SameRun(a, RowStart(p, strideA, h - 1), b, RowStart(q, strideB, h - 1), w))
  {
    RowFits(a, p, strideA, w, h, h - 1);
    RowFits(b, q, strideB, w, h, h - 1);
    hide View.At, RowStart;
    var i, j := RowStart(p, strideA, h - 1), RowStart(q, strideB, h - 1);
    if SameRun(a, i, b, j, w) && SamePlane(a, p, strideA, b, q, strideB, w, h - 1) {
      forall x, y | 0 <= x < w && 0 <= y < h ensures a[Plane(p, strideA).At(x, y)] == b[Plane(q, strideB).At(x, y)] {
        if y == h - 1 {
          assert a[i + x] == b[i + x - i + j];
        }
      }
    }
    if SamePlane(a, p, strideA, b, q, strideB, w, h) {
      forall k | i <= k < i + w ensures a[k] == b[k - i + j] {
        assert a[Plane(p, strideA).At(k - i, h - 1)] == b[Plane(q, strideB).At(k - i, h - 1)];
      }
    }
  }

  /** The error is zero exactly on equal planes, and never more than 255 squared a pixel. */
  lemma {:induction false} PlaneErrorBound(a: seq<byte>, p: int, strideA: int, b: seq<byte>, q: int, strideB: int,
                                           w: nat, h: nat)
    requires InBounds(Plane(p, strideA), w, h, |a|) && InBounds(Plane(q, strideB), w, h, |b|)
    ensures PlaneError(a, p, strideA, b, q, strideB, w, h) <= 65025 * (w * h)
    ensures PlaneError(a, p, strideA, b, q, strideB, w, h) == 0 <==> SamePlane(a, p, strideA, b, q, strideB, w, h)
    decreases h
  {
    hide Error, SamePlane, SameRun, InBounds, RowStart, Fits;
    if h > 0 {
      EarlierBounds(Plane(p, strideA), w, h - 1, h, |a|);
      EarlierBounds(Plane(q, strideB), w, h - 1, h, |b|);
      RowFits(a, p, strideA, w, h, h - 1);
      RowFits(b, q, strideB, w, h, h - 1);
      PlaneErrorBound(a, p, strideA, b, q, strideB, w, h - 1);
      ErrorBound(a, RowStart(p, strideA, h - 1), b, RowStart(q, strideB, h - 1), w);
      SameRow(a, p, strideA, b, q, strideB, w, h);
      assert w * h == w * (h - 1) + w;
    } else {
      NoRows(a, p, strideA, b, q, strideB, w);
    }
  }

  lemma NoRows(a: seq<byte>, p: int, strideA: int, b: seq<byte>, q: int, strideB: int, w: nat)
    requires InBounds(Plane(p, strideA), w, 0, |a|) && InBounds(Plane(q, strideB), w, 0, |b|)
    ensures SamePlane(a, p, strideA, b, q, strideB, w, 0)
  {
  }

  lemma {:induction false} PlaneErrorSymmetric(a: seq<byte>, p: int, strideA: int, b: seq<byte>, q: int, strideB: int,
                                               w: nat, h: nat)
    requires InBounds(Plane(p, strideA), w, h, |a|) && InBounds(Plane(q, strideB), w, h, |b|)
    ensures PlaneError(a, p, strideA, b, q, strideB, w, h) == PlaneError(b, q, strideB, a, p, strideA, w, h)
    decreases h
  {
    hide Error, InBounds, RowStart, Fits;
    if h > 0 {
      EarlierBounds(Plane(p, strideA), w, h - 1, h, |a|);
      EarlierBounds(Plane(q, strideB), w, h - 1, h, |b|);
      RowFits(a, p, strideA, w, h, h - 1);
      RowFits(b, q, strideB, w, h, h - 1);
      PlaneErrorSymmetric(a, p, strideA, b, q, strideB, w, h - 1);
      ErrorSymmetric(a, RowStart(p, strideA, h - 1), b, RowStart(q, strideB, h - 1), w);
    }
  }

  // ----- rows without gaps

  lemma FlatFits(m: seq<byte>, p: int, w: nat, h: nat)
    requires InBounds(Plane(p, w), w, h, |m|)
    ensures Fits(m, p, w * h)
    ensures InBounds(Plane(p, 0), w * h, 1, |m|)
  {
    if w * h > 0 {
      assert 0 <= Plane(p, w).At(0, 0);
      assert Plane(p, w).At(w - 1, h - 1) == p + w * h - 1;
    }
  }

  lemma LastRowStart(p: int, w: nat, h: nat)
    requires h > 0
    ensures RowStart(p, w, h - 1) == p + w * (h - 1)
    ensures w * h == w * (h - 1) + w
  {
  }

  lemma ErrorOfNone(a: seq<byte>, p: int, b: seq<byte>, q: int)
    ensures Error(a, p, b, q, 0) == 0
  {
  }

  /** Without gaps the rows are one run. */
  lemma {:induction false} OneRun(a: seq<byte>, p: int, b: seq<byte>, q: int, w: nat, h: nat)
    requires InBounds(Plane(p, w), w, h, |a|) && InBounds(Plane(q, w), w, h, |b|)
    requires Fits(a, p, w * h) && Fits(b, q, w * h)
    ensures PlaneError(a, p, w, b, q, w, w, h) == Error(a, p, b, q, w * h)
    decreases h
  {
    hide Error, InBounds, RowStart, Fits;
    if h > 0 {
      EarlierBounds(Plane(p, w), w, h - 1, h, |a|);
      EarlierBounds(Plane(q, w), w, h - 1, h, |b|);
      FlatFits(a, p, w, h - 1);
      FlatFits(b, q, w, h - 1);
      OneRun(a, p, b, q, w, h - 1);
      LastRowStart(p, w, h);
      LastRowStart(q, w, h);
      ErrorOn(a, p, b, q, w * (h - 1), w);
    } else {
      ErrorOfNone(a, p, b, q);
    }
  }

  lemma OneRow(a: seq<byte>, p: int, b: seq<byte>, q: int, n: nat)
    requires InBounds(Plane(p, 0), n, 1, |a|) && InBounds(Plane(q, 0), n, 1, |b|)
    requires Fits(a, p, n) && Fits(b, q, n)
    ensures PlaneError(a, p, 0, b, q, 0, n, 1) == Error(a, p, b, q, n)
  {
    hide Error, InBounds, Fits;
    EarlierBounds(Plane(p, 0), n, 0, 1, |a|);
    EarlierBounds(Plane(q, 0), n, 0, 1, |b|);
    assert PlaneError(a, p, 0, b, q, 0, n, 0) == 0;
  }

  /** The samples of a plane, row after row. */
  ghost function PlaneBytes(m: seq<byte>, p: int, stride: int, w: nat, h: nat): seq<byte>
    requires InBounds(Plane(p, stride), w, h, |m|)
    decreases h
  {
    if w == 0 || h == 0 then [] else
      EarlierBounds(Plane(p, stride), w, h - 1, h, |m|);
      RowFits(m, p, stride, w, h, h - 1);
      PlaneBytes(m, p, stride, w, h - 1) + m[RowStart(p, stride, h - 1)..RowStart(p, stride, h - 1) + w]
  }

  lemma LastBytes(m: seq<byte>, p: int, stride: int, w: nat, h: nat)
    requires 0 < w && 0 < h && InBounds(Plane(p, stride), w, h, |m|)
    ensures var i := RowStart(p, stride, h - 1);
      && InBounds(Plane(p, stride), w, h - 1, |m|) && 0 <= i <= i + w <= |m|
      && PlaneBytes(m, p, stride, w, h) == PlaneBytes(m, p, stride, w, h - 1) + m[i..i + w]
  {
    EarlierBounds(Plane(p, stride), w, h - 1, h, |m|);
    RowFits(m, p, stride, w, h, h - 1);
  }

  lemma {:induction false} PlaneBytesLength(m: seq<byte>, p: int, stride: int, w: nat, h: nat)
    requires InBounds(Plane(p, stride), w, h, |m|)
    ensures |PlaneBytes(m, p, stride, w, h)| == w * h
    decreases h
  {
    if w != 0 && h != 0 {
      LastBytes(m, p, stride, w, h);
      hide InBounds, RowStart, PlaneBytes;
      PlaneBytesLength(m, p, stride, w, h - 1);
      LastRowStart(p, w, h);
    }
  }

  lemma {:induction false} PlaneByteAt(m: seq<byte>, p: int, stride: int, w: nat, h: nat, x: nat, y: nat)
    requires InBounds(Plane(p, stride), w, h, |m|) && x < w && y < h
    ensures x + y * w < |PlaneBytes(m, p, stride, w, h)|
    ensures PlaneBytes(m, p, stride, w, h)[x + y * w] == m[Plane(p, stride).At(x, y)]
    decreases h
  {
    LastBytes(m, p, stride, w, h);
    RowFits(m, p, stride, w, h, y);
    PlaneBytesLength(m, p, stride, w, h - 1);
    hide InBounds, View.At, RowStart, PlaneBytes;
    if y < h - 1 {
      PlaneByteAt(m, p, stride, w, h - 1, x, y);
    } else {
      LastByte(w, h, x);
    }
  }

  lemma LastByte(w: nat, h: nat, x: nat)
    requires x < w && 0 < h
    ensures x + (h - 1) * w - w * (h - 1) == x
  {
  }

  lemma LastError(a: seq<byte>, p: int, strideA: int, b: seq<byte>, q: int, strideB: int, w: nat, h: nat)
    requires 0 < w && 0 < h && InBounds(Plane(p, strideA), w, h, |a|) && InBounds(Plane(q, strideB), w, h, |b|)
    ensures var i, j := RowStart(p, strideA, h - 1), RowStart(q, strideB, h - 1);
      && InBounds(Plane(p, strideA), w, h - 1, |a|) && InBounds(Plane(q, strideB), w, h - 1, |b|)
      && 0 <= i <= i + w <= |a| && 0 <= j <= j + w <= |b|
      && PlaneError(a, p, strideA, b, q, strideB, w, h)
        == PlaneError(a, p, strideA, b, q, strideB, w, h - 1) + Error(a, i, b, j, w)
  {
    EarlierBounds(Plane(p, strideA), w, h - 1, h, |a|);
    EarlierBounds(Plane(q, strideB), w, h - 1, h, |b|);
    RowFits(a, p, strideA, w, h, h - 1);
    RowFits(b, q, strideB, w, h, h - 1);
  }

  lemma {:induction false} NoError(a: seq<byte>, p: int, strideA: int, b: seq<byte>, q: int, strideB: int, h: nat)
    requires InBounds(Plane(p, strideA), 0, h, |a|) && InBounds(Plane(q, strideB), 0, h, |b|)
    ensures PlaneError(a, p, strideA, b, q, strideB, 0, h) == 0
    decreases h
  {
    if h > 0 {
      NoError(a, p, strideA, b, q, strideB, h - 1);
      ErrorOfNone(a, RowStart(p, strideA, h - 1), b, RowStart(q, strideB, h - 1));
    }
  }

  /** The error of two planes in sums of products of their samples. */
  lemma {:induction false} PlaneProducts(a: seq<byte>, p: int, strideA: int, b: seq<byte>, q: int, strideB: int,
                                         w: nat, h: nat)
    requires InBounds(Plane(p, strideA), w, h, |a|) && InBounds(Plane(q, strideB), w, h, |b|)
    ensures |PlaneBytes(a, p, strideA, w, h)| == |PlaneBytes(b, q, strideB, w, h)| == w * h
    ensures var s, t := PlaneBytes(a, p, strideA, w, h), PlaneBytes(b, q, strideB, w, h);
      PlaneError(a, p, strideA, b, q, strideB, w, h) == Ssim.Dot(s, s) - 2 * Ssim.Dot(s, t) + Ssim.Dot(t, t)
    decreases h
  {
    PlaneBytesLength(a, p, strideA, w, h);
    PlaneBytesLength(b, q, strideB, w, h);
    if w == 0 || h == 0 {
      if w == 0 {
        NoError(a, p, strideA, b, q, strideB, h);
      }
    } else {
      LastBytes(a, p, strideA, w, h);
      LastBytes(b, q, strideB, w, h);
      LastError(a, p, strideA, b, q, strideB, w, h);
      hide Error, PlaneError, PlaneBytes, Ssim.Dot, InBounds, RowStart;
      PlaneProducts(a, p, strideA, b, q, strideB, w, h - 1);
      var i, j := RowStart(p, strideA, h - 1), RowStart(q, strideB, h - 1);
      ErrorProducts(a, i, b, j, w);
      var s0, t0 := PlaneBytes(a, p, strideA, w, h - 1), PlaneBytes(b, q, strideB, w, h - 1);
      Ssim.DotConcat(s0, a[i..i + w], s0, a[i..i + w]);
      Ssim.DotConcat(s0, a[i..i + w], t0, b[j..j + w]);
      Ssim.DotConcat(t0, b[j..j + w], t0, b[j..j + w]);
    }
  }

  /** Taking both planes as one long row gives the same error. */
  lemma Coalesced(a: seq<byte>, p: int, b: seq<byte>, q: int, w: nat, h: nat)
    requires InBounds(Plane(p, w), w, h, |a|) && InBounds(Plane(q, w), w, h, |b|)
    ensures InBounds(Plane(p, 0), w * h, 1, |a|) && InBounds(Plane(q, 0), w * h, 1, |b|)
    ensures PlaneError(a, p, 0, b, q, 0, w * h, 1) == PlaneError(a, p, w, b, q, w, w, h)
  {
    hide PlaneError, Error, InBounds, Fits;
    FlatFits(a, p, w, h);
    FlatFits(b, q, w, h);
    OneRun(a, p, b, q, w, h);
    OneRow(a, p, b, q, w * h);
  }

  /** Row after row, or all at once when neither plane has gaps between its rows. */
  method ComputeSumSquareErrorPlane(a: array<byte>, p: int, strideA: int, b: array<byte>, q: int, strideB: int,
                                    width: nat, height: nat, hasSse2: bool) returns (sse: nat)
    requires InBounds(Plane(p, strideA), width, height, a.Length)
    requires InBounds(Plane(q, strideB), width, height, b.Length)
    ensures sse == PlaneError(a[..], p, strideA, b[..], q, strideB, width, height)
    ensures var s, t := PlaneBytes(a[..], p, strideA, width, height), PlaneBytes(b[..], q, strideB, width, height);
      |s| == |t| && sse == Ssim.Dot(s, s) - 2 * Ssim.Dot(s, t) + Ssim.Dot(t, t)
  {
    hide InBounds, Error, RowStart, Fits, Ssim.Dot, PlaneBytes;
    PlaneProducts(a[..], p, strideA, b[..], q, strideB, width, height);
    var w, rows, sa, sb := width, height, strideA, strideB;
    if strideA == width && strideB == width {
      Coalesced(a[..], p, b[..], q, width, height);
      w := width * height;
      rows := 1;
      sa, sb := 0, 0;
    }
    sse := 0;
    var i, j := p, q;
    var y := 0;
    NextRow(p, sa, 0);
    NextRow(q, sb, 0);
    EarlierBounds(Plane(p, sa), w, 0, rows, a.Length);
    EarlierBounds(Plane(q, sb), w, 0, rows, b.Length);
    while y < rows
      invariant 0 <= y <= rows && i == RowStart(p, sa, y) && j == RowStart(q, sb, y)
      invariant InBounds(Plane(p, sa), w, y, a.Length) && InBounds(Plane(q, sb), w, y, b.Length)
      invariant sse == PlaneError(a[..], p, sa, b[..], q, sb, w, y)
    {
      EarlierBounds(Plane(p, sa), w, y + 1, rows, a.Length);
      EarlierBounds(Plane(q, sb), w, y + 1, rows, b.Length);
      RowFits(a[..], p, sa, w, rows, y);
      RowFits(b[..], q, sb, w, rows, y);
      var row := ComputeSumSquareError(a, i, b, j, w, hasSse2);
      sse := sse + row;
      NextRow(p, sa, y);
      NextRow(q, sb, y);
      i, j := i + sa, j + sb;
      y := y + 1;
    }
  }

  // ----- PSNR

  function Pow5(n: nat): nat {
    n * n * n * n * n
  }

  function RealPow5(x: real): real {
    x * x * x * x * x
  }

  const TEN64: nat := 10000000000000000000000000000000000000000000000000000000000000000

  /** kMaxPsnr, which is 128, or what 10 * log10 is taken of. */
  datatype Psnr = MaxPsnr | TenLog10(ratio: real)

  /** 10 * log10(x) > 128. */
  predicate AboveMax(x: real) {
    RealPow5(x) > TEN64 as real
  }

  /** The error is so small for so many samples that the logarithm exceeds the maximum. */
  predicate Clamped(sse: nat, count: nat) {
    Pow5(65025 * count) > TEN64 * Pow5(sse)
  }

  predicate AnswersMax(sse: nat, count: nat) {
    sse == 0 || Clamped(sse, count)
  }

  /** PSNR is ten times the logarithm of 65025 * count / sse, unless that exceeds the maximum.  It is
      not negative as long as the error is that of count bytes. */
  ghost predicate PsnrOf(r: Psnr, sse: nat, count: nat) {
    && (r == MaxPsnr <==> AnswersMax(sse, count))
    && (r.TenLog10? ==>
        (r.ratio >= 1.0 <==> sse <= 65025 * count) && r.ratio * (sse as real) == 65025.0 * (count as real))
  }

  method SumSquareErrorToPsnr(sse: nat, count: nat) returns (r: Psnr)
    ensures PsnrOf(r, sse, count)
  {
    hide Clamped, AboveMax;
    if sse > 0 {
      var mse := (count as real) / (sse as real);
      QuotientTimes(count as real, sse as real);
      RatioBound(mse, count as real, sse as real);
      ClampedIf(255.0 * 255.0 * mse, sse, count);
      r := TenLog10(255.0 * 255.0 * mse);
    } else {
      r := MaxPsnr;
    }
    if r.TenLog10? && AboveMax(r.ratio) {
      r := MaxPsnr;
    }
  }

  lemma Pow5Product(x: real, y: real)
    ensures RealPow5(x * y) == RealPow5(x) * RealPow5(y)
  {
    var z := x * y;
    assert z * z == (x * x) * (y * y);
    assert (z * z) * (z * z) == ((x * x) * (x * x)) * ((y * y) * (y * y)) by {
      Regroup(x * x, y * y);
    }
    assert RealPow5(z) == ((z * z) * (z * z)) * z;
    assert RealPow5(x) == ((x * x) * (x * x)) * x && RealPow5(y) == ((y * y) * (y * y)) * y;
    Interchange((x * x) * (x * x), (y * y) * (y * y), x, y);
  }

  lemma Regroup(a: real, b: real)
    ensures (a * b) * (a * b) == (a * a) * (b * b)
  {
    Interchange(a, b, a, b);
  }

  lemma Interchange(a: real, b: real, c: real, d: real)
    ensures (a * b) * (c * d) == (a * c) * (b * d)
  {
  }

  lemma Pow5OfNat(n: nat)
    ensures RealPow5(n as real) == Pow5(n) as real
    ensures n > 0 ==> Pow5(n) > 0
  {
    assert (n as real) * (n as real) == (n * n) as real;
    assert (n * n) as real * (n as real) == (n * n * n) as real;
    assert (n * n * n) as real * (n as real) == (n * n * n * n) as real;
    assert (n * n * n * n) as real * (n as real) == (n * n * n * n * n) as real;
    if n > 0 {
      Pow5Monotone(1, n);
    }
  }

  lemma Pow5Monotone(m: nat, n: nat)
    requires m <= n
    ensures Pow5(m) <= Pow5(n)
  {
    ProductMonotone(m, m, n, n);
    ProductMonotone(m * m, m, n * n, n);
    ProductMonotone(m * m * m, m, n * n * n, n);
    ProductMonotone(m * m * m * m, m, n * n * n * n, n);
  }

  lemma ProductMonotone(a: nat, b: nat, c: nat, d: nat)
    requires a <= c && b <= d
    ensures 0 <= a * b <= c * d
  {
    MulMonotone(a, c, b);
    MulMonotone(b, d, c);
    MulMonotone(0, a, b);
  }

  lemma RealProduct(a: int, b: int)
    ensures (a * b) as real == (a as real) * (b as real)
  {
  }

  lemma ScaledPow5(x: real, s: real, t: real, s5: real, t5: real)
    requires x * s == t && s5 == RealPow5(s) && t5 == RealPow5(t)
    ensures RealPow5(x) * s5 == t5
  {
    hide RealPow5;
    Pow5Product(x, s);
  }

  lemma ClampedIf(x: real, sse: nat, count: nat)
    requires 0 < sse && x * (sse as real) == 65025.0 * (count as real)
    ensures AboveMax(x) <==> Clamped(sse, count)
  {
    hide Pow5, RealPow5;
    RealProduct(65025, count);
    Pow5OfNat(sse);
    Pow5OfNat(65025 * count);
    ScaledPow5(x, sse as real, (65025 * count) as real, Pow5(sse) as real, Pow5(65025 * count) as real);
    Compare(RealPow5(x), TEN64, Pow5(sse), Pow5(65025 * count));
  }

  /** A quotient of integers compared with an integer. */
  lemma Compare(x: real, y: nat, s: nat, t: nat)
    requires 0 < s && x * (s as real) == t as real
    ensures x > y as real <==> t > y * s
  {
    RealProduct(y, s);
    if x > y as real {
      RealScale(y as real, x, s as real);
    } else if x < y as real {
      RealScale(x, y as real, s as real);
    }
  }

  lemma QuotientTimes(c: real, s: real)
    requires 0.0 < s
    ensures (c / s) * s == c
  {
  }

  lemma RatioBound(m: real, c: real, s: real)
    requires 0.0 < s && m * s == c
    ensures 255.0 * 255.0 * m >= 1.0 <==> s <= 65025.0 * c
    ensures 255.0 * 255.0 * m * s == 65025.0 * c
  {
    assert 65025.0 * m * s == 65025.0 * (m * s);
    if 65025.0 * m < 1.0 {
      RealScale(65025.0 * m, 1.0, s);
    } else if 65025.0 * m > 1.0 {
      RealScale(1.0, 65025.0 * m, s);
    }
  }

  lemma RealScale(x: real, y: real, s: real)
    requires x < y && 0.0 < s
    ensures x * s < y * s
  {
  }

  ghost function SurfaceError(a: Surface, b: Surface, w: nat, h: nat): nat
    requires a.mem != null && b.mem != null && a.Readable(w, h) && b.Readable(w, h)
    reads a.mem, b.mem
  {
    PlaneError(a.mem[..], a.off, a.stride, b.mem[..], b.off, b.stride, w, h)
  }

  ghost predicate SameSurface(a: Surface, b: Surface, w: nat, h: nat)
    requires a.mem != null && b.mem != null && a.Readable(w, h) && b.Readable(w, h)
    reads a.mem, b.mem
  {
    SamePlane(a.mem[..], a.off, a.stride, b.mem[..], b.off, b.stride, w, h)
  }

  method SurfaceSumSquareError(a: Surface, b: Surface, w: nat, h: nat, hasSse2: bool) returns (sse: nat)
    requires a.mem != null && b.mem != null && a.Readable(w, h) && b.Readable(w, h)
    ensures sse == SurfaceError(a, b, w, h) <= 65025 * (w * h)
    ensures sse == 0 <==> SameSurface(a, b, w, h)
  {
    PlaneErrorBound(a.mem[..], a.off, a.stride, b.mem[..], b.off, b.stride, w, h);
    hide PlaneError, SamePlane;
    sse := ComputeSumSquareErrorPlane(a.mem, a.off, a.stride, b.mem, b.off, b.stride, w, h, hasSse2);
  }

  function Samples(width: nat, height: nat): nat {
    width * height + 2 * (Half(width) * Half(height))
  }

  lemma MaxWhen(r: Psnr, sse: nat, count: nat)
    requires PsnrOf(r, sse, count)
    ensures r == MaxPsnr <==> sse == 0 || Clamped(sse, count)
    ensures count <= 97033040 ==> (r == MaxPsnr <==> sse == 0)
  {
    hide Clamped;
    if 0 < sse && count <= 97033040 {
      FewSamples(sse, count);
    }
  }

  lemma RatioIs(r: Psnr, sse: nat, count: nat)
    requires PsnrOf(r, sse, count)
    ensures r.TenLog10? ==> r.ratio * (sse as real) == 255.0 * 255.0 * (count as real)
  {
  }

  /** Identical images get the maximum, and so do all that are close enough for their size; up to
      97033040 samples no others.  Any other pair gets the logarithm of at least one, so PSNR is
      never negative and nothing is divided by zero. */
  method I420Psnr(ya: Surface, ua: Surface, va: Surface, yb: Surface, ub: Surface, vb: Surface, width: nat, height: nat,
                  hasSse2: bool)
    returns (r: Psnr)
    requires ReadableImage(ya, ua, va, width, height) && ReadableImage(yb, ub, vb, width, height)
    ensures r == MaxPsnr <==>
      SameImage(ya, ua, va, yb, ub, vb, width, height)
        || Clamped(ImageSse(ya, ua, va, yb, ub, vb, width, height), Samples(width, height))
    ensures Samples(width, height) <= 97033040 ==> (r == MaxPsnr <==> SameImage(ya, ua, va, yb, ub, vb, width, height))
    ensures PsnrOf(r, ImageSse(ya, ua, va, yb, ub, vb, width, height), Samples(width, height))
    ensures r.TenLog10? ==>
      var halfWidth, halfHeight := (width + 1) / 2, (height + 1) / 2;
      var y, u, v := SurfaceError(ya, yb, width, height), SurfaceError(ua, ub, halfWidth, halfHeight),
                     SurfaceError(va, vb, halfWidth, halfHeight);
      r.ratio * ((y + u + v) as real) == 255.0 * 255.0 * ((width * height + 2 * (halfWidth * halfHeight)) as real)
  {
    hide SameSurface, SurfaceError, Surface.Readable, PsnrOf, Clamped;
    var sseY := SurfaceSumSquareError(ya, yb, width, height, hasSse2);
    var sseU := SurfaceSumSquareError(ua, ub, Half(width), Half(height), hasSse2);
    var sseV := SurfaceSumSquareError(va, vb, Half(width), Half(height), hasSse2);
    r := SumSquareErrorToPsnr(sseY + sseU + sseV, Samples(width, height));
    MaxWhen(r, sseY + sseU + sseV, Samples(width, height));
    RatioIs(r, sseY + sseU + sseV, Samples(width, height));
  }

  /** The error of two images. */
  ghost function ImageSse(ya: Surface, ua: Surface, va: Surface, yb: Surface, ub: Surface, vb: Surface, w: nat,
                          h: nat): nat
    requires ReadableImage(ya, ua, va, w, h) && ReadableImage(yb, ub, vb, w, h)
    reads ya.mem, ua.mem, va.mem, yb.mem, ub.mem, vb.mem
  {
    SurfaceError(ya, yb, w, h) + SurfaceError(ua, ub, Half(w), Half(h)) + SurfaceError(va, vb, Half(w), Half(h))
  }

  ghost predicate SameImage(ya: Surface, ua: Surface, va: Surface, yb: Surface, ub: Surface, vb: Surface, w: nat,
                            h: nat)
    requires ReadableImage(ya, ua, va, w, h) && ReadableImage(yb, ub, vb, w, h)
    reads ya.mem, ua.mem, va.mem, yb.mem, ub.mem, vb.mem
  {
    SameSurface(ya, yb, w, h) && SameSurface(ua, ub, Half(w), Half(h)) && SameSurface(va, vb, Half(w), Half(h))
  }

  // ----- when the maximum means equality

  lemma FewSamples(sse: nat, count: nat)
    requires 0 < sse && count <= 97033040
    ensures !Clamped(sse, count)
  {
    Pow5Monotone(65025 * count, 65025 * 97033040);
    Pow5Monotone(1, sse);
    hide Pow5;
    LimitBelow();
    MulMonotone(1, Pow5(sse), TEN64);
  }

  lemma LimitBelow()
    ensures Pow5(65025 * 97033040) <= TEN64 && Pow5(1) == 1
    ensures Pow5(65025 * 97033041) > TEN64
  {
  }

  /** A single step of one sample is then clamped away. */
  lemma ManySamples(count: nat)
    requires count > 97033040
    ensures Clamped(1, count)
  {
    Pow5Monotone(65025 * 97033041, 65025 * count);
    hide Pow5;
    LimitBelow();
  }

  /** An image without gaps between its rows. */
  datatype Planes = Planes(y: seq<byte>, u: seq<byte>, v: seq<byte>)

  predicate OfSize(p: Planes, w: nat, h: nat) {
    |p.y| == w * h && |p.u| == Half(w) * Half(h) && |p.v| == Half(w) * Half(h)
  }

  /** The bytes of the three planes. */
  lemma SamplesCounted(p: Planes, w: nat, h: nat)
    requires OfSize(p, w, h)
    ensures Samples(w, h) == |p.y| + |p.u| + |p.v|
  {
  }

  lemma TightBounds(m: seq<byte>, w: nat, h: nat)
    requires |m| == w * h
    ensures InBounds(Plane(0, w), w, h, |m|) && Fits(m, 0, w * h)
  {
    GridFits(w, h);
  }

  ghost function TightError(a: seq<byte>, b: seq<byte>, w: nat, h: nat): nat
    requires |a| == |b| == w * h
  {
    TightBounds(a, w, h);
    TightBounds(b, w, h);
    PlaneError(a, 0, w, b, 0, w, w, h)
  }

  ghost function PlanesError(a: Planes, b: Planes, w: nat, h: nat): nat
    requires OfSize(a, w, h) && OfSize(b, w, h)
  {
    TightError(a.y, b.y, w, h) + TightError(a.u, b.u, Half(w), Half(h)) + TightError(a.v, b.v, Half(w), Half(h))
  }

  lemma TightIsRun(a: seq<byte>, b: seq<byte>, w: nat, h: nat)
    requires |a| == |b| == w * h
    ensures Fits(a, 0, w * h) && Fits(b, 0, w * h) && TightError(a, b, w, h) == Error(a, 0, b, 0, w * h)
    ensures TightError(a, b, w, h) == 0 <==> a == b
  {
    TightBounds(a, w, h);
    TightBounds(b, w, h);
    OneRun(a, 0, b, 0, w, h);
    ErrorBound(a, 0, b, 0, w * h);
    hide Error, PlaneError;
  }

  function Black(n: nat): seq<byte> {
    seq(n, _ => 0)
  }

  lemma {:induction false} OneStep(n: nat, k: nat)
    requires 0 < n && k <= n
    ensures Error(Black(n), 0, Black(n)[0 := 1], 0, k) == if k == 0 then 0 else 1
  {
    if k > 0 {
      OneStep(n, k - 1);
    }
  }

  lemma OneSampleOff(w: nat, h: nat)
    requires 0 < w * h
    ensures var a := Planes(Black(w * h), Black(Half(w) * Half(h)), Black(Half(w) * Half(h)));
      var b := a.(y := a.y[0 := 1]);
      OfSize(a, w, h) && OfSize(b, w, h) && a != b && PlanesError(a, b, w, h) == 1
  {
    var y, c := Black(w * h), Black(Half(w) * Half(h));
    hide TightError;
    TightIsRun(y, y[0 := 1], w, h);
    TightIsRun(c, c, Half(w), Half(h));
    OneStep(w * h, w * h);
    assert y[0] == 0;
  }

  /** The first `run` samples in place of the whole plane, for all planes of w by h samples. */
  ghost predicate RunGivesError(run: int, w: nat, h: nat) {
    && 0 <= run <= w * h
    && forall a: seq<byte>, b: seq<byte> | |a| == |b| == w * h :: RunError(a, b, run) == TightError(a, b, w, h)
  }

  function RunError(a: seq<byte>, b: seq<byte>, run: int): nat
    requires 0 <= run <= |a| == |b|
  {
    Error(a, 0, b, 0, run)
  }

  /** The product of width and height is an int: taking both planes as one run is right for all
      planes exactly if there are fewer than 2^31 samples. */
  lemma CoalescedRight(w: nat, h: nat)
    ensures RunGivesError(Wrap32(w * h), w, h) <==> w * h < TWO31
  {
    hide Wrap32, TightError, Error;
    if w * h < TWO31 {
      WrapExact(w * h);
      forall a: seq<byte>, b: seq<byte> | |a| == |b| == w * h
        ensures RunError(a, b, w * h) == TightError(a, b, w, h)
      {
        TightIsRun(a, b, w, h);
      }
    } else {
      WrapInside(w * h);
      var run := Wrap32(w * h);
      if 0 <= run {
        LastSampleMissed(run, w * h);
        var a := Black(w * h);
        var b := a[w * h - 1 := 1];
        TightIsRun(a, b, w, h);
        assert RunError(a, b, run) != TightError(a, b, w, h);
      }
    }
  }

  lemma LastSampleMissed(run: nat, n: nat)
    requires run < n
    ensures var a := Black(n); var b := a[n - 1 := 1];
      a != b && RunError(a, b, run) == 0
  {
    ErrorBound(Black(n), 0, Black(n)[n - 1 := 1], 0, run);
    assert Black(n)[n - 1] == 0;
  }

  /** The maximum means equal planes, for all images of w by h pixels, exactly up to 97033040 samples. */
  lemma PsnrLimit(w: nat, h: nat)
    ensures (forall a, b | OfSize(a, w, h) && OfSize(b, w, h) ::
               AnswersMax(PlanesError(a, b, w, h), Samples(w, h)) <==> a == b)
       <==> Samples(w, h) <= 97033040
  {
    hide TightError, Clamped;
    if Samples(w, h) <= 97033040 {
      forall a, b | OfSize(a, w, h) && OfSize(b, w, h)
        ensures AnswersMax(PlanesError(a, b, w, h), Samples(w, h)) <==> a == b
      {
        TightIsRun(a.y, b.y, w, h);
        TightIsRun(a.u, b.u, Half(w), Half(h));
        TightIsRun(a.v, b.v, Half(w), Half(h));
        if PlanesError(a, b, w, h) > 0 {
          FewSamples(PlanesError(a, b, w, h), Samples(w, h));
        }
      }
    } else {
      if w * h == 0 {
        NoSamples(w, h);
      }
      OneSampleOff(w, h);
      ManySamples(Samples(w, h));
    }
  }

  lemma NoSamples(w: nat, h: nat)
    requires w * h == 0
    ensures Samples(w, h) == 0
  {
  }

  /** Two different images of 8192 by 8192 pixels that are answered like identical ones: one sample
      is off by one. */
  lemma LargeImage()
    ensures exists a, b | OfSize(a, 8192, 8192) && OfSize(b, 8192, 8192) ::
      a != b && PlanesError(a, b, 8192, 8192) == 1 && AnswersMax(PlanesError(a, b, 8192, 8192), Samples(8192, 8192))
  {
    hide TightError, Clamped;
    OneSampleOff(8192, 8192);
    ManySamples(Samples(8192, 8192));
  }
}
