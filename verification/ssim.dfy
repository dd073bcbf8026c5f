/** compare.cc: structural similarity of 8 by 8 windows and of whole planes, over the reals. */
module Ssim {
  import opened Planar
  import opened Views

  // ----- sums over a window

  function Sum(s: seq<int>): int {
    if s == [] then 0 else Sum(s[..|s| - 1]) + s[|s| - 1]
  }

  function Product(x: int, y: int): int {
    x * y
  }

  function Dot(s: seq<int>, t: seq<int>): int
    requires |s| == |t|
  {
    if s == [] then 0 else Dot(s[..|s| - 1], t[..|t| - 1]) + Product(s[|s| - 1], t[|t| - 1])
  }

  /** s + k * t, element by element. */
  function Combined(s: seq<int>, t: seq<int>, k: int): seq<int>
    requires |s| == |t|
  {
    seq(|s|, i requires 0 <= i < |s| => s[i] + Product(k, t[i]))
  }

  lemma SquareOfSum(x: int, y: int, k: int)
    ensures Product(x + Product(k, y), x + Product(k, y))
      == Product(x, x) + 2 * Product(k, Product(x, y)) + Product(k, Product(k, Product(y, y)))
  {
  }

  lemma Distributes(k: int, x: int, y: int)
    ensures Product(k, x + y) == Product(k, x) + Product(k, y)
  {
  }

  /** The moments of a combination. */
  lemma {:induction false} CombinedMoments(s: seq<int>, t: seq<int>, k: int)
    requires |s| == |t|
    ensures Sum(Combined(s, t, k)) == Sum(s) + Product(k, Sum(t))
    ensures Dot(Combined(s, t, k), Combined(s, t, k))
      == Dot(s, s) + 2 * Product(k, Dot(s, t)) + Product(k, Product(k, Dot(t, t)))
    decreases |s|
  {
    if s != [] {
      var n := |s| - 1;
      var c := Combined(s, t, k);
      assert c[..n] == Combined(s[..n], t[..n], k);
      CombinedMoments(s[..n], t[..n], k);
      SquareOfSum(s[n], t[n], k);
      hide Product;
      Distributes(k, Sum(t[..n]), t[n]);
      Distributes(k, Dot(s[..n], t[..n]), Product(s[n], t[n]));
      Distributes(k, Dot(t[..n], t[..n]), Product(t[n], t[n]));
      Distributes(k, Product(k, Dot(t[..n], t[..n])), Product(k, Product(t[n], t[n])));
    }
  }

  /** The squared distances from any value x sum to something that is not negative. */
  lemma {:induction false} SpreadAround(c: seq<int>, x: int)
    ensures Dot(c, c) - 2 * Product(x, Sum(c)) + Product(|c|, Product(x, x)) >= 0
    decreases |c|
  {
    if c != [] {
      var n := |c| - 1;
      SpreadAround(c[..n], x);
      OneDistance(c[n], x);
      hide Product;
      Distributes(x, Sum(c[..n]), c[n]);
      OneMore(n, Product(x, x));
    }
  }

  lemma OneDistance(y: int, x: int)
    ensures Product(y, y) - 2 * Product(x, y) + Product(x, x) >= 0
  {
    assert (y - x) * (y - x) >= 0;
  }

  lemma OneMore(n: int, y: int)
    ensures Product(n + 1, y) == Product(n, y) + y
  {
  }

  /** n times the sum of squares is at least the square of the sum. */
  lemma {:induction false} CauchySchwarz(c: seq<int>)
    ensures Product(|c|, Dot(c, c)) >= Product(Sum(c), Sum(c))
    decreases |c|
  {
    if c != [] {
      var n := |c| - 1;
      var x, s, q := c[n], Sum(c[..n]), Dot(c[..n], c[..n]);
      CauchySchwarz(c[..n]);
      SpreadAround(c[..n], x);
      CauchyStep(n, x, s, q);
    }
  }

  lemma CauchyStep(n: int, x: int, s: int, q: int)
    requires Product(n, q) >= Product(s, s)
    requires q - 2 * Product(x, s) + Product(n, Product(x, x)) >= 0
    ensures Product(n + 1, q + Product(x, x)) >= Product(s + x, s + x)
  {
    assert Product(n + 1, q + Product(x, x)) == Product(n, q) + q + Product(n, Product(x, x)) + Product(x, x);
    assert Product(s + x, s + x) == Product(s, s) + 2 * Product(x, s) + Product(x, x);
  }

  // ----- the bytes of a window

  lemma {:induction false} SumBound(s: seq<byte>)
    ensures 0 <= Sum(s) <= 255 * |s|
    decreases |s|
  {
    if s != [] {
      SumBound(s[..|s| - 1]);
    }
  }

  lemma ProductBound(x: byte, y: byte)
    ensures 0 <= Product(x, y) <= 65025
  {
    MulMonotone(x, 255, y);
    MulMonotone(0, x, y);
  }

  lemma {:induction false} DotBound(s: seq<byte>, t: seq<byte>)
    requires |s| == |t|
    ensures 0 <= Dot(s, t) <= 65025 * |s|
    decreases |s|
  {
    hide Product;
    if s != [] {
      DotBound(s[..|s| - 1], t[..|t| - 1]);
      ProductBound(s[|s| - 1], t[|t| - 1]);
    }
  }

  lemma SquareZero(x: int)
    ensures Product(x, x) >= 0
    ensures Product(x, x) == 0 <==> x == 0
  {
  }

  lemma {:induction false} SquaresZero(c: seq<int>)
    ensures Dot(c, c) >= 0
    ensures Dot(c, c) == 0 <==> forall i | 0 <= i < |c| :: c[i] == 0
    decreases |c|
  {
    hide Product;
    if c != [] {
      SquaresZero(c[..|c| - 1]);
      SquareZero(c[|c| - 1]);
    }
  }

  // ----- the two products of Ssim8x8_C

  const C1: int := 26634
  const C2: int := 239708

  /** They are 64 * 64 times the squares of 0.01 * 255 and of 0.03 * 255, without the fraction. */
  lemma UsualConstants()
    ensures 10000 * C1 <= 64 * 64 * (255 * 255) < 10000 * (C1 + 1)
    ensures 10000 * C2 <= 64 * 64 * (3 * 255 * (3 * 255)) < 10000 * (C2 + 1)
  {
  }

  type Window = w: seq<byte> | |w| == 64 witness seq(64, _ => 0)

  /** 2 * sum_a * sum_b, and sum_a squared plus sum_b squared. */
  function TwiceMeans(a: Window, b: Window): int {
    2 * Product(Sum(a), Sum(b))
  }

  function SquaredMeans(a: Window, b: Window): int {
    Product(Sum(a), Sum(a)) + Product(Sum(b), Sum(b))
  }

  /** 64 squared times twice the covariance, and times the sum of the variances. */
  function Covariance(a: Window, b: Window): int {
    2 * 64 * Dot(a, b) - TwiceMeans(a, b)
  }

  function Variances(a: Window, b: Window): int {
    64 * Dot(a, a) - Product(Sum(a), Sum(a)) + 64 * Dot(b, b) - Product(Sum(b), Sum(b))
  }

  function SsimN(a: Window, b: Window): int {
    Product(TwiceMeans(a, b) + C1, Covariance(a, b) + C2)
  }

  function SsimD(a: Window, b: Window): int {
    Product(SquaredMeans(a, b) + C1, Variances(a, b) + C2)
  }

  lemma Signs(x: int)
    ensures Product(1, x) == x && Product(-1, x) == -x && Product(64, x) == 64 * x
  {
  }

  /** Twice the covariance lies between minus and plus the sum of the variances; at the upper end
      with equal means the windows are equal. */
  lemma CovarianceBound(a: Window, b: Window)
    ensures -Variances(a, b) <= Covariance(a, b) <= Variances(a, b)
    ensures Sum(a) == Sum(b) && Covariance(a, b) == Variances(a, b) ==> a == b
  {
    var plus, minus := Combined(a, b, 1), Combined(a, b, -1);
    CombinedMoments(a, b, 1);
    CombinedMoments(a, b, -1);
    CauchySchwarz(plus);
    CauchySchwarz(minus);
    MeansCombined(Sum(a), Sum(b));
    hide Product, Dot, Sum;
    Signs(Dot(a, b));
    Signs(Dot(b, b));
    Signs(-Dot(b, b));
    Signs(Sum(b));
    Signs(Dot(plus, plus));
    Signs(Dot(minus, minus));
    if Sum(a) == Sum(b) && Covariance(a, b) == Variances(a, b) {
      SquaresZero(minus);
      forall i | 0 <= i < 64 ensures a[i] == b[i] {
        Signs(b[i]);
        assert minus[i] == 0;
      }
    }
  }

  lemma MeansCombined(x: int, y: int)
    ensures Product(x + y, x + y) == Product(x, x) + 2 * Product(x, y) + Product(y, y)
    ensures Product(x - y, x - y) == Product(x, x) - 2 * Product(x, y) + Product(y, y)
  {
  }

  lemma MeansBound(x: nat, y: nat)
    ensures 0 <= 2 * Product(x, y) <= Product(x, x) + Product(y, y)
    ensures 2 * Product(x, y) == Product(x, x) + Product(y, y) ==> x == y
  {
    MeansCombined(x, y);
    SquareZero(x - y);
    MulMonotone(0, x, y);
  }

  /** A product of two factors, each at most its counterpart in size. */
  lemma ProductsOrdered(p: int, s: int, c: int, v: int)
    requires 0 < p <= s && 0 < v && -v <= c <= v
    ensures 0 < Product(s, v) && -Product(s, v) <= Product(p, c) <= Product(s, v)
    ensures Product(p, c) == Product(s, v) <==> p == s && c == v
  {
    MulMonotone(c, v, p);
    MulMonotone(-v, c, p);
    MulMonotone(p, s, v);
    MulMonotone(1, s, v);
    if c < v {
      MulMonotone(c, v - 1, p);
    }
    if p < s {
      MulMonotone(p, s - 1, v);
    }
  }

  /** The denominator is never zero, the quotient lies between minus one and one, and it is one
      exactly on equal windows. */
  lemma SsimBound(a: Window, b: Window)
    ensures 0 < SsimD(a, b)
    ensures -SsimD(a, b) <= SsimN(a, b) <= SsimD(a, b)
    ensures SsimN(a, b) == SsimD(a, b) <==> a == b
  {
    SumBound(a);
    SumBound(b);
    CovarianceBound(a, b);
    MeansBound(Sum(a), Sum(b));
    hide Product, Sum, Dot;
    ProductsOrdered(TwiceMeans(a, b) + C1, SquaredMeans(a, b) + C1, Covariance(a, b) + C2, Variances(a, b) + C2);
  }

  /** Every intermediate value stays far inside 64 bits. */
  lemma FitsInt64(a: Window, b: Window)
    ensures 0 <= TwiceMeans(a, b) + C1 <= SquaredMeans(a, b) + C1 <= 532711434
    ensures -532924508 <= Covariance(a, b) + C2 <= 532924508 && 0 <= Variances(a, b) + C2 <= 532924508
    ensures 0 < SsimD(a, b) <= 283894978870424472 && -283894978870424472 <= SsimN(a, b) <= 283894978870424472
  {
    SsimBound(a, b);
    CovarianceBound(a, b);
    SumBound(a);
    SumBound(b);
    DotBound(a, a);
    DotBound(b, b);
    MeansBound(Sum(a), Sum(b));
    SumSquareBound(Sum(a));
    SumSquareBound(Sum(b));
    hide Sum, Dot;
    MulMonotone(SquaredMeans(a, b) + C1, 532711434, Variances(a, b) + C2);
    MulMonotone(Variances(a, b) + C2, 532924508, 532711434);
  }

  lemma SumSquareBound(x: nat)
    requires x <= 16320
    ensures 0 <= Product(x, x) <= 266342400
  {
    MulMonotone(x, 16320, x);
  }

  // ----- Ssim8x8_C

  /** The first n pixels of a window, row after row. */
  ghost function Pixels(m: seq<byte>, v: View, n: nat): (s: seq<byte>)
    requires n <= 64 && InBounds(v, 8, 8, |m|)
    ensures |s| == n
  {
    if n == 0 then [] else Pixels(m, v, n - 1) + [m[v.At((n - 1) % 8, (n - 1) / 8)]]
  }

  ghost function WindowOf(m: seq<byte>, v: View): Window
    requires InBounds(v, 8, 8, |m|)
  {
    Pixels(m, v, 64)
  }

  lemma Raster(x: nat, y: nat)
    requires x < 8
    ensures (8 * y + x) % 8 == x && (8 * y + x) / 8 == y
  {
  }

  lemma {:induction false} PixelAt(m: seq<byte>, v: View, n: nat, x: nat, y: nat)
    requires n <= 64 && InBounds(v, 8, 8, |m|) && x < 8 && 8 * y + x < n
    ensures Pixels(m, v, n)[8 * y + x] == m[v.At(x, y)]
  {
    hide View.At;
    Raster(x, y);
    if 8 * y + x < n - 1 {
      PixelAt(m, v, n - 1, x, y);
    }
  }

  /** Two windows are equal exactly when all their pixels are. */
  lemma WindowsEqual(a: seq<byte>, va: View, b: seq<byte>, vb: View)
    requires InBounds(va, 8, 8, |a|) && InBounds(vb, 8, 8, |b|)
    ensures WindowOf(a, va) == WindowOf(b, vb)
      <==> forall x, y | 0 <= x < 8 && 0 <= y < 8 :: a[va.At(x, y)] == b[vb.At(x, y)]
  {
    hide Pixels, View.At;
    var wa, wb := WindowOf(a, va), WindowOf(b, vb);
    if wa == wb {
      forall x, y | 0 <= x < 8 && 0 <= y < 8 ensures a[va.At(x, y)] == b[vb.At(x, y)] {
        PixelAt(a, va, 64, x, y);
        PixelAt(b, vb, 64, x, y);
      }
    }
    if forall x, y | 0 <= x < 8 && 0 <= y < 8 :: a[va.At(x, y)] == b[vb.At(x, y)] {
      forall k | 0 <= k < 64 ensures wa[k] == wb[k] {
        PixelAt(a, va, 64, k % 8, k / 8);
        PixelAt(b, vb, 64, k % 8, k / 8);
        assert 8 * (k / 8) + k % 8 == k;
      }
    }
  }

  /** The similarity of two windows. */
  function Similarity(a: Window, b: Window): real {
    SsimBound(a, b);
    (SsimN(a, b) as real) / (SsimD(a, b) as real)
  }

  /** Numerator and denominator written out. */
  lemma SimilarityValue(a: Window, b: Window)
    ensures var sumA, sumB, sqA, sqB, ab := Sum(a), Sum(b), Dot(a, a), Dot(b, b), Dot(a, b);
      Similarity(a, b) * (((sumA * sumA + sumB * sumB + 26634) *
                           (64 * sqA - sumA * sumA + 64 * sqB - sumB * sumB + 239708)) as real)
        == ((2 * (sumA * sumB) + 26634) * (2 * 64 * ab - 2 * (sumA * sumB) + 239708)) as real
  {
    SsimBound(a, b);
    hide Sum, Dot;
    QuotientTimes(SsimN(a, b) as real, SsimD(a, b) as real);
  }

  function Flat(n: nat, x: byte): seq<byte> {
    seq(n, _ => x)
  }

  lemma {:induction false} FlatMoments(x: byte, y: byte, n: nat)
    ensures Sum(Flat(n, x)) == n * x && Dot(Flat(n, x), Flat(n, y)) == n * Product(x, y)
  {
    if n > 0 {
      FlatMoments(x, y, n - 1);
      assert Flat(n, x)[..n - 1] == Flat(n - 1, x) && Flat(n, y)[..n - 1] == Flat(n - 1, y);
      assert n * x == (n - 1) * x + x && n * Product(x, y) == (n - 1) * Product(x, y) + Product(x, y);
      hide Product;
    }
  }

  /** Two flat windows of grey x and y are compared by their means alone. */
  lemma FlatWindows(x: byte, y: byte)
    ensures Similarity(Flat(64, x), Flat(64, y)) * ((4096 * (x * x + y * y) + 26634) as real)
      == (4096 * (2 * (x * y)) + 26634) as real
  {
    FlatMoments(x, y, 64);
    FlatMoments(x, x, 64);
    FlatMoments(y, y, 64);
    SimilarityValue(Flat(64, x), Flat(64, y));
    hide Sum, Dot, Similarity;
    TimesSixtyFour(x, x);
    TimesSixtyFour(x, y);
    TimesSixtyFour(y, y);
    CommonFactor(Similarity(Flat(64, x), Flat(64, y)), 4096 * (x * x + y * y) + 26634, 4096 * (2 * (x * y)) + 26634);
  }

  lemma TimesSixtyFour(x: int, y: int)
    ensures 64 * x * (64 * y) == 4096 * (x * y) && Product(x, y) == x * y
  {
  }

  lemma CommonFactor(q: real, d: int, n: int)
    requires q * ((d * 239708) as real) == (n * 239708) as real
    ensures q * (d as real) == n as real
  {
    assert (d * 239708) as real == (d as real) * 239708.0;
  }

  lemma QuotientTimes(n: real, d: real)
    requires 0.0 < d
    ensures n / d * d == n
  {
  }

  lemma SimilarityBound(a: Window, b: Window)
    ensures -1.0 <= Similarity(a, b) <= 1.0
    ensures Similarity(a, b) == 1.0 <==> a == b
  {
    SsimBound(a, b);
    hide SsimN, SsimD;
    QuotientBound(SsimN(a, b) as real, SsimD(a, b) as real);
  }

  lemma QuotientBound(n: real, d: real)
    requires 0.0 < d && -d <= n <= d
    ensures -1.0 <= n / d <= 1.0
    ensures n / d == 1.0 <==> n == d
  {
    var q := n / d;
    assert q * d == n;
    if q > 1.0 {
      Scale(1.0, q, d);
    } else if q < 1.0 {
      Scale(q, 1.0, d);
    }
    if q < -1.0 {
      Scale(q, -1.0, d);
    }
  }

  lemma Scale(x: real, y: real, d: real)
    requires x < y && 0.0 < d
    ensures x * d < y * d
  {
  }

  /** What one window yields: the source answers a zero denominator with the largest double. */
  datatype Quotient = DblMax | Of(value: real)

  lemma NextPixel(m: seq<byte>, v: View, i: nat, j: nat)
    requires i < 8 && j < 8 && InBounds(v, 8, 8, |m|)
    ensures Pixels(m, v, 8 * i + j + 1) == Pixels(m, v, 8 * i + j) + [m[v.At(j, i)]]
    ensures 0 <= v.At(j, i) < |m|
  {
    assert (8 * i + j) % 8 == j && (8 * i + j) / 8 == i;
  }

  lemma SumNext(s: seq<int>, x: int)
    ensures Sum(s + [x]) == Sum(s) + x
  {
    assert (s + [x])[..|s|] == s;
  }

  lemma DotNext(s: seq<int>, t: seq<int>, x: int, y: int)
    requires |s| == |t|
    ensures Dot(s + [x], t + [y]) == Dot(s, t) + Product(x, y)
  {
    assert (s + [x])[..|s|] == s && (t + [y])[..|t|] == t;
  }

  lemma {:induction false} DotConcat(s0: seq<int>, s1: seq<int>, t0: seq<int>, t1: seq<int>)
    requires |s0| == |t0| && |s1| == |t1|
    ensures Dot(s0 + s1, t0 + t1) == Dot(s0, t0) + Dot(s1, t1)
    decreases |s1|
  {
    if s1 == [] {
      assert s0 + s1 == s0 && t0 + t1 == t0;
    } else {
      var n := |s1| - 1;
      DotConcat(s0, s1[..n], t0, t1[..n]);
      assert (s0 + s1)[..|s0| + n] == s0 + s1[..n] && (t0 + t1)[..|t0| + n] == t0 + t1[..n];
    }
  }

  /** The five running sums. */
  datatype Moments = Moments(a: int, b: int, aa: int, bb: int, ab: int)

  ghost function MomentsOf(s: seq<byte>, t: seq<byte>): Moments
    requires |s| == |t|
  {
    Moments(Sum(s), Sum(t), Dot(s, s), Dot(t, t), Dot(s, t))
  }

  function Accumulate(m: Moments, x: int, y: int): Moments {
    Moments(m.a + x, m.b + y, m.aa + Product(x, x), m.bb + Product(y, y), m.ab + Product(x, y))
  }

  lemma MomentsNext(s: seq<byte>, t: seq<byte>, x: byte, y: byte)
    requires |s| == |t|
    ensures MomentsOf(s + [x], t + [y]) == Accumulate(MomentsOf(s, t), x, y)
  {
    hide Sum, Dot, Product;
    SumNext(s, x);
    SumNext(t, y);
    DotNext(s, s, x, x);
    DotNext(t, t, y, y);
    DotNext(s, t, x, y);
  }

  /** The two pointers move down by their strides; the branch for a zero denominator is dead. */
  method Ssim8x8C(a: array<byte>, p: int, strideA: int, b: array<byte>, q: int, strideB: int) returns (r: Quotient)
    requires InBounds(Plane(p, strideA), 8, 8, a.Length) && InBounds(Plane(q, strideB), 8, 8, b.Length)
    ensures r == Of(Similarity(WindowOf(a[..], Plane(p, strideA)), WindowOf(b[..], Plane(q, strideB))))
  {
    hide InBounds, Pixels, MomentsOf, Accumulate;
    ghost var va, vb := Plane(p, strideA), Plane(q, strideB);
    var m := Moments(0, 0, 0, 0, 0);
    NoPixels(a[..], va, b[..], vb);
    var srcA, srcB := p, q;
    var i := 0;
    while i < 8
      invariant 0 <= i <= 8 && srcA == p + i * strideA && srcB == q + i * strideB
      invariant m == MomentsOf(Pixels(a[..], va, 8 * i), Pixels(b[..], vb, 8 * i))
    {
      var j := 0;
      while j < 8
        invariant 0 <= j <= 8
        invariant m == MomentsOf(Pixels(a[..], va, 8 * i + j), Pixels(b[..], vb, 8 * i + j))
      {
        NextPixel(a[..], va, i, j);
        NextPixel(b[..], vb, i, j);
        MomentsNext(Pixels(a[..], va, 8 * i + j), Pixels(b[..], vb, 8 * i + j), a[srcA + j], b[srcB + j]);
        m := Accumulate(m, a[srcA + j], b[srcB + j]);
        j := j + 1;
      }
      srcA, srcB := srcA + strideA, srcB + strideB;
      i := i + 1;
    }
    r := Quality(m);
    QualityIsSimilarity(WindowOf(a[..], va), WindowOf(b[..], vb));
  }

  /** What the sums of a window come to. */
  function Quality(m: Moments): Quotient {
    var count := 64;
    var c1 := (26634 * count * count) / 4096;
    var c2 := (239708 * count * count) / 4096;
    var sumAxSumB := Product(m.a, m.b);
    var n := Product(2 * sumAxSumB + c1, 2 * count * m.ab - 2 * sumAxSumB + c2);
    var sumASq := Product(m.a, m.a);
    var sumBSq := Product(m.b, m.b);
    var d := Product(sumASq + sumBSq + c1, count * m.aa - sumASq + count * m.bb - sumBSq + c2);
    if d == 0 then DblMax else Of((n as real) * 1.0 / (d as real))
  }

  lemma QualityIsSimilarity(a: Window, b: Window)
    ensures Quality(MomentsOf(a, b)) == Of(Similarity(a, b))
  {
    SsimBound(a, b);
    hide Product, Sum, Dot;
  }

  lemma NoPixels(a: seq<byte>, va: View, b: seq<byte>, vb: View)
    requires InBounds(va, 8, 8, |a|) && InBounds(vb, 8, 8, |b|)
    ensures MomentsOf(Pixels(a, va, 0), Pixels(b, vb, 0)) == Moments(0, 0, 0, 0, 0)
  {
  }

  // ----- CalcFrameSsim

  /** The window whose top left pixel is (4 * j, 4 * i). */
  function Corner(v: View, i: int, j: int): View {
    v.Shift(4 * j, 4 * i)
  }

  /** How many windows start in n pixels: one every four, strictly more than eight from the end. */
  function Starts(n: int): nat {
    if n <= 8 then 0 else (n - 8 + 3) / 4
  }

  lemma CornerInside(v: View, w: int, h: int, len: int, i: nat, j: nat)
    requires InBounds(v, w, h, len) && i < Starts(h) && j < Starts(w)
    ensures InBounds(Corner(v, i, j), 8, 8, len)
  {
    ShiftBounds(v, w, h, len, 4 * j, 4 * i, 8, 8);
  }

  ghost function SimilarityAt(a: seq<byte>, va: View, b: seq<byte>, vb: View, w: int, h: int, i: nat, j: nat): real
    requires InBounds(va, w, h, |a|) && InBounds(vb, w, h, |b|) && i < Starts(h) && j < Starts(w)
  {
    CornerInside(va, w, h, |a|, i, j);
    CornerInside(vb, w, h, |b|, i, j);
    Similarity(WindowOf(a, Corner(va, i, j)), WindowOf(b, Corner(vb, i, j)))
  }

  ghost function RowTotal(a: seq<byte>, va: View, b: seq<byte>, vb: View, w: int, h: int, i: nat, n: nat): real
    requires InBounds(va, w, h, |a|) && InBounds(vb, w, h, |b|) && i < Starts(h) && n <= Starts(w)
  {
    if n == 0 then 0.0 else RowTotal(a, va, b, vb, w, h, i, n - 1) + SimilarityAt(a, va, b, vb, w, h, i, n - 1)
  }

  ghost function FrameTotal(a: seq<byte>, va: View, b: seq<byte>, vb: View, w: int, h: int, n: nat): real
    requires InBounds(va, w, h, |a|) && InBounds(vb, w, h, |b|) && n <= Starts(h)
  {
    if n == 0 then 0.0 else FrameTotal(a, va, b, vb, w, h, n - 1) + RowTotal(a, va, b, vb, w, h, n - 1, Starts(w))
  }

  ghost predicate SameAt(a: seq<byte>, va: View, b: seq<byte>, vb: View, w: int, h: int, i: nat, j: nat)
    requires InBounds(va, w, h, |a|) && InBounds(vb, w, h, |b|) && i < Starts(h) && j < Starts(w)
  {
    CornerInside(va, w, h, |a|, i, j);
    CornerInside(vb, w, h, |b|, i, j);
    WindowOf(a, Corner(va, i, j)) == WindowOf(b, Corner(vb, i, j))
  }

  lemma OneWindow(a: seq<byte>, va: View, b: seq<byte>, vb: View, w: int, h: int, i: nat, j: nat)
    requires InBounds(va, w, h, |a|) && InBounds(vb, w, h, |b|) && i < Starts(h) && j < Starts(w)
    ensures -1.0 <= SimilarityAt(a, va, b, vb, w, h, i, j) <= 1.0
    ensures SimilarityAt(a, va, b, vb, w, h, i, j) == 1.0 <==> SameAt(a, va, b, vb, w, h, i, j)
  {
    hide Similarity, WindowOf, InBounds;
    CornerInside(va, w, h, |a|, i, j);
    CornerInside(vb, w, h, |b|, i, j);
    SimilarityBound(WindowOf(a, Corner(va, i, j)), WindowOf(b, Corner(vb, i, j)));
  }

  lemma {:induction false} RowBound(a: seq<byte>, va: View, b: seq<byte>, vb: View, w: int, h: int, i: nat, n: nat)
    requires InBounds(va, w, h, |a|) && InBounds(vb, w, h, |b|) && i < Starts(h) && n <= Starts(w)
    ensures -(n as real) <= RowTotal(a, va, b, vb, w, h, i, n) <= n as real
    ensures RowTotal(a, va, b, vb, w, h, i, n) == n as real
      <==> forall j: nat | j < n :: SameAt(a, va, b, vb, w, h, i, j)
  {
    hide SimilarityAt, SameAt, InBounds, Starts;
    if n > 0 {
      RowBound(a, va, b, vb, w, h, i, n - 1);
      OneWindow(a, va, b, vb, w, h, i, n - 1);
    }
  }

  ghost predicate RowSame(a: seq<byte>, va: View, b: seq<byte>, vb: View, w: int, h: int, i: nat)
    requires InBounds(va, w, h, |a|) && InBounds(vb, w, h, |b|) && i < Starts(h)
  {
    forall j: nat | j < Starts(w) :: SameAt(a, va, b, vb, w, h, i, j)
  }

  lemma {:induction false} FrameBound(a: seq<byte>, va: View, b: seq<byte>, vb: View, w: int, h: int, n: nat)
    requires InBounds(va, w, h, |a|) && InBounds(vb, w, h, |b|) && n <= Starts(h)
    ensures -((n * Starts(w)) as real) <= FrameTotal(a, va, b, vb, w, h, n) <= (n * Starts(w)) as real
    ensures FrameTotal(a, va, b, vb, w, h, n) == (n * Starts(w)) as real
      <==> forall i: nat | i < n :: RowSame(a, va, b, vb, w, h, i)
  {
    hide RowTotal, SameAt, InBounds, Starts;
    if n > 0 {
      FrameBound(a, va, b, vb, w, h, n - 1);
      RowBound(a, va, b, vb, w, h, n - 1, Starts(w));
      NextRowCount(n - 1, Starts(w));
      assert RowTotal(a, va, b, vb, w, h, n - 1, Starts(w)) == Starts(w) as real
        <==> RowSame(a, va, b, vb, w, h, n - 1);
      hide RowSame;
    }
  }

  // ----- the pixels that are looked at

  /** The columns or rows that some window reaches. */
  function Seen(n: int): int {
    if n <= 8 then 0 else 4 * Starts(n) + 4
  }

  /** The window furthest to the left that holds pixel x. */
  function WindowAt(n: int, x: int): nat
    requires 0 <= x < Seen(n)
  {
    if x / 4 < Starts(n) then x / 4 else Starts(n) - 1
  }

  /** Never all of them, and at most four are left out. */
  lemma SeenAlmostAll(n: int)
    ensures 8 < n ==> n - 4 <= Seen(n) < n
  {
  }

  ghost predicate SameSeen(a: seq<byte>, va: View, b: seq<byte>, vb: View, w: int, h: int)
    requires InBounds(va, w, h, |a|) && InBounds(vb, w, h, |b|)
  {
    forall x, y | 0 <= x < Seen(w) && 0 <= y < Seen(h) :: SamePixel(a, va, b, vb, x, y)
  }

  ghost predicate SamePixel(a: seq<byte>, va: View, b: seq<byte>, vb: View, x: int, y: int) {
    0 <= va.At(x, y) < |a| && 0 <= vb.At(x, y) < |b| && a[va.At(x, y)] == b[vb.At(x, y)]
  }

  /** One window in pixels. */
  lemma WindowPixels(a: seq<byte>, va: View, b: seq<byte>, vb: View, w: int, h: int, i: nat, j: nat)
    requires InBounds(va, w, h, |a|) && InBounds(vb, w, h, |b|) && i < Starts(h) && j < Starts(w)
    ensures SameAt(a, va, b, vb, w, h, i, j) <==>
      forall x, y | 4 * j <= x < 4 * j + 8 && 4 * i <= y < 4 * i + 8 :: SamePixel(a, va, b, vb, x, y)
  {
    CornerInside(va, w, h, |a|, i, j);
    CornerInside(vb, w, h, |b|, i, j);
    var ca, cb := Corner(va, i, j), Corner(vb, i, j);
    WindowsEqual(a, ca, b, cb);
    hide View.At, View.Shift, WindowOf, Starts, Corner;
    forall x, y | 4 * j <= x < 4 * j + 8 && 4 * i <= y < 4 * i + 8
      ensures SamePixel(a, va, b, vb, x, y) <==> a[ca.At(x - 4 * j, y - 4 * i)] == b[cb.At(x - 4 * j, y - 4 * i)]
    {
      CornerAt(va, i, j, x, y);
      CornerAt(vb, i, j, x, y);
    }
    if forall x, y | 4 * j <= x < 4 * j + 8 && 4 * i <= y < 4 * i + 8 :: SamePixel(a, va, b, vb, x, y) {
      forall x, y | 0 <= x < 8 && 0 <= y < 8
        ensures a[ca.At(x, y)] == b[cb.At(x, y)]
      {
        assert SamePixel(a, va, b, vb, x + 4 * j, y + 4 * i);
      }
    }
  }

  lemma CornerAt(v: View, i: nat, j: nat, x: int, y: int)
    ensures Corner(v, i, j).At(x - 4 * j, y - 4 * i) == v.At(x, y)
  {
    ShiftAt(v, 4 * j, 4 * i, x - 4 * j, y - 4 * i);
  }

  /** All windows agree exactly if the planes agree on the rectangle that the windows cover. */
  lemma WindowsCover(a: seq<byte>, va: View, b: seq<byte>, vb: View, w: int, h: int)
    requires InBounds(va, w, h, |a|) && InBounds(vb, w, h, |b|)
    ensures (forall i: nat | i < Starts(h) :: RowSame(a, va, b, vb, w, h, i)) <==> SameSeen(a, va, b, vb, w, h)
  {
    hide SameAt, SamePixel, InBounds;
    if forall i: nat | i < Starts(h) :: RowSame(a, va, b, vb, w, h, i) {
      forall x, y | 0 <= x < Seen(w) && 0 <= y < Seen(h)
        ensures SamePixel(a, va, b, vb, x, y)
      {
        var i, j := WindowAt(h, y), WindowAt(w, x);
        assert RowSame(a, va, b, vb, w, h, i);
        WindowPixels(a, va, b, vb, w, h, i, j);
      }
    }
    if SameSeen(a, va, b, vb, w, h) {
      forall i: nat, j: nat | i < Starts(h) && j < Starts(w)
        ensures SameAt(a, va, b, vb, w, h, i, j)
      {
        WindowPixels(a, va, b, vb, w, h, i, j);
      }
    }
  }

  /** A grey plane whose last column has the value v. */
  function LastColumn(w: nat, h: nat, v: byte): seq<byte> {
    seq(w * h, k requires 0 <= k < w * h => if 0 < w && k % w == w - 1 then v else 128)
  }

  lemma ColumnCell(w: nat, h: nat, v: byte, x: int, y: int)
    requires 0 <= x < w && 0 <= y < h
    ensures 0 <= Plane(0, w).At(x, y) < |LastColumn(w, h, v)| == w * h
    ensures LastColumn(w, h, v)[Plane(0, w).At(x, y)] == if x == w - 1 then v else 128
  {
    FlatIndexInside(w, h, x, y);
    FlatIndex(w, h, x + y * w);
    SameRemainder(w, x, y, (x + y * w) % w, (x + y * w) / w);
  }

  lemma SameRemainder(w: int, x: int, y: int, x': int, y': int)
    requires 0 <= x < w && 0 <= x' < w && x + y * w == x' + y' * w
    ensures x == x'
  {
    if y < y' {
      MulMonotone(y + 1, y', w);
    } else if y' < y {
      MulMonotone(y' + 1, y, w);
    }
  }

  /** Two planes of any size with a window that differ in a whole column, and no window sees it. */
  lemma LastColumnUnseen(w: nat, h: nat)
    requires 8 < w && 8 < h
    ensures var a, b, v := LastColumn(w, h, 0), LastColumn(w, h, 255), Plane(0, w);
      && InBounds(v, w, h, |a|) && InBounds(v, w, h, |b|) && SameSeen(a, v, b, v, w, h)
      && forall x, y | 0 <= x < w && 0 <= y < h :: SamePixel(a, v, b, v, x, y) <==> x < w - 1
  {
    var a, b, v := LastColumn(w, h, 0), LastColumn(w, h, 255), Plane(0, w);
    hide LastColumn, View.At;
    forall x, y | 0 <= x < w && 0 <= y < h
      ensures 0 <= v.At(x, y) < |a| && v.At(x, y) < |b| && (SamePixel(a, v, b, v, x, y) <==> x < w - 1)
    {
      ColumnCell(w, h, 0, x, y);
      ColumnCell(w, h, 255, x, y);
    }
    SeenAlmostAll(w);
    SeenAlmostAll(h);
    hide SamePixel, Seen;
  }

  /** The mean, or nothing where the source divides zero by zero. */
  datatype Mean = NotANumber | Mean(value: real)

  lemma StartsAt(n: int, k: nat)
    ensures 4 * k < n - 8 <==> k < Starts(n)
    ensures Starts(n) == 0 <==> n <= 8
  {
  }

  lemma DownFour(p: int, stride: int, row: nat, src: int)
    requires Plane(src, stride) == Plane(p, stride).Shift(0, 4 * row)
    ensures Plane(src + stride * 4, stride) == Plane(p, stride).Shift(0, 4 * (row + 1))
  {
    PlaneDown(p, stride, 4 * row);
    PlaneDown(p, stride, 4 * (row + 1));
    hide View.Shift;
    assert 4 * (row + 1) * stride == 4 * row * stride + stride * 4;
  }

  lemma AcrossFour(p: int, stride: int, row: nat, src: int, j: nat)
    requires Plane(src, stride) == Plane(p, stride).Shift(0, 4 * row)
    ensures Plane(src + 4 * j, stride) == Corner(Plane(p, stride), row, j)
  {
    PlaneDown(p, stride, 4 * row);
  }

  /** The windows of one row of the grid. */
  method SsimRow(a: array<byte>, ghost p: int, strideA: int, b: array<byte>, ghost q: int, strideB: int, width: int,
                 ghost height: int,
                 ghost row: nat, srcA: int, srcB: int, samples0: nat, total0: real) returns (samples: nat, total: real)
    requires InBounds(Plane(p, strideA), width, height, a.Length)
    requires InBounds(Plane(q, strideB), width, height, b.Length)
    requires row < Starts(height)
    requires Plane(srcA, strideA) == Plane(p, strideA).Shift(0, 4 * row)
    requires Plane(srcB, strideB) == Plane(q, strideB).Shift(0, 4 * row)
    ensures samples == samples0 + Starts(width)
    ensures total
      == total0 + RowTotal(a[..], Plane(p, strideA), b[..], Plane(q, strideB), width, height, row, Starts(width))
  {
    hide InBounds, Similarity, WindowOf, Starts, Corner;
    ghost var va, vb := Plane(p, strideA), Plane(q, strideB);
    samples, total := samples0, total0;
    var j, col := 0, 0;
    StartsAt(width, 0);
    while j < width - 8
      invariant 0 <= col <= Starts(width) && j == 4 * col
      invariant j < width - 8 <==> col < Starts(width)
      invariant samples == samples0 + col
      invariant total == total0 + RowTotal(a[..], va, b[..], vb, width, height, row, col)
    {
      CornerInside(va, width, height, a.Length, row, col);
      CornerInside(vb, width, height, b.Length, row, col);
      AcrossFour(p, strideA, row, srcA, col);
      AcrossFour(q, strideB, row, srcB, col);
      var ssim := Ssim8x8C(a, srcA + j, strideA, b, srcB + j, strideB);
      total := total + ssim.value;
      samples := samples + 1;
      StartsAt(width, col + 1);
      j, col := j + 4, col + 1;
    }
  }

  lemma NextRowCount(row: nat, n: nat)
    ensures (row + 1) * n == row * n + n
  {
  }

  lemma MeanBound(total: real, samples: nat)
    requires samples > 0 && -(samples as real) <= total <= samples as real
    ensures -1.0 <= total / (samples as real) <= 1.0
    ensures total / (samples as real) == 1.0 <==> total == samples as real
  {
    QuotientBound(total, samples as real);
  }

  /** The mean similarity over the grid of windows.  A plane of eight pixels or less either way
      has no window at all. */
  method CalcFrameSsim(a: array<byte>, p: int, strideA: int, b: array<byte>, q: int, strideB: int, width: int,
                       height: int) returns (r: Mean)
    requires InBounds(Plane(p, strideA), width, height, a.Length)
    requires InBounds(Plane(q, strideB), width, height, b.Length)
    ensures r == NotANumber <==> width <= 8 || height <= 8
    ensures r.Mean? ==>
      r.value == FrameTotal(a[..], Plane(p, strideA), b[..], Plane(q, strideB), width, height,
                            Starts(height)) / ((Starts(height) * Starts(width)) as real)
    ensures r.Mean? ==> -1.0 <= r.value <= 1.0
    ensures r.Mean? ==>
      (r.value == 1.0 <==> SameSeen(a[..], Plane(p, strideA), b[..], Plane(q, strideB), width, height))
  {
    hide InBounds, RowTotal, RowSame, SameSeen, Starts;
    ghost var va, vb := Plane(p, strideA), Plane(q, strideB);
    var samples := 0;
    var total := 0.0;
    var srcA, srcB := p, q;
    var i, row := 0, 0;
    StartsAt(height, 0);
    while i < height - 8
      invariant 0 <= row <= Starts(height) && i == 4 * row
      invariant i < height - 8 <==> row < Starts(height)
      invariant Plane(srcA, strideA) == va.Shift(0, 4 * row) && Plane(srcB, strideB) == vb.Shift(0, 4 * row)
      invariant samples == row * Starts(width)
      invariant total == FrameTotal(a[..], va, b[..], vb, width, height, row)
      decreases height - i
    {
      NextRowCount(row, Starts(width));
      samples, total := SsimRow(a, p, strideA, b, q, strideB, width, height, row, srcA, srcB, samples, total);
      StartsAt(height, row + 1);
      DownFour(p, strideA, row, srcA);
      DownFour(q, strideB, row, srcB);
      srcA, srcB := srcA + strideA * 4, srcB + strideB * 4;
      i, row := i + 4, row + 1;
    }
    FrameBound(a[..], va, b[..], vb, width, height, Starts(height));
    WindowsCover(a[..], va, b[..], vb, width, height);
    StartsAt(width, 0);
    WindowCount(Starts(height), Starts(width));
    if samples == 0 {
      r := NotANumber;
    } else {
      MeanBound(total, samples);
      r := Mean(total / (samples as real));
    }
  }

  lemma WindowCount(m: nat, n: nat)
    ensures m * n == 0 <==> m == 0 || n == 0
    ensures m * n >= 0
  {
  }

  // ----- I420Ssim

  /** The mean over all windows of two planes that have some. */
  ghost function PlaneMean(a: Surface, b: Surface, w: nat, h: nat): real
    requires a.mem != null && b.mem != null && a.Readable(w, h) && b.Readable(w, h) && 8 < w && 8 < h
    reads a.mem, b.mem
  {
    WindowCount(Starts(h), Starts(w));
    FrameTotal(a.mem[..], Plane(a.off, a.stride), b.mem[..], Plane(b.off, b.stride), w, h, Starts(h))
    / ((Starts(h) * Starts(w)) as real)
  }

  method SurfaceSsim(a: Surface, b: Surface, w: nat, h: nat) returns (r: Mean)
    requires a.mem != null && b.mem != null && a.Readable(w, h) && b.Readable(w, h)
    ensures r == NotANumber <==> w <= 8 || h <= 8
    ensures r.Mean? ==> r.value == PlaneMean(a, b, w, h)
    ensures r.Mean? ==> -1.0 <= r.value <= 1.0
    ensures r.Mean? ==> (r.value == 1.0 <==> SameWindows(a, b, w, h))
  {
    StartsAt(w, 0);
    StartsAt(h, 0);
    hide FrameTotal, SameSeen, Starts;
    r := CalcFrameSsim(a.mem, a.off, a.stride, b.mem, b.off, b.stride, w, h);
  }

  /** The planes agree wherever a window reaches. */
  ghost predicate SameWindows(a: Surface, b: Surface, w: nat, h: nat)
    requires a.mem != null && b.mem != null && a.Readable(w, h) && b.Readable(w, h)
    reads a.mem, b.mem
  {
    SameSeen(a.mem[..], Plane(a.off, a.stride), b.mem[..], Plane(b.off, b.stride), w, h)
  }

  /** A mean of three means.  An image of sixteen pixels or less either way has no chroma window,
      so all of it is undefined. */
  method I420Ssim(ya: Surface, ua: Surface, va: Surface, yb: Surface, ub: Surface, vb: Surface, width: nat, height: nat)
    returns (r: Mean)
    requires ReadableImage(ya, ua, va, width, height) && ReadableImage(yb, ub, vb, width, height)
    ensures r == NotANumber <==> width <= 16 || height <= 16
    ensures r.Mean? ==> -1.0 <= r.value <= 1.0
    ensures r.Mean? ==> (r.value == 1.0 <==>
      SameWindows(ya, yb, width, height) && SameWindows(ua, ub, Half(width), Half(height))
        && SameWindows(va, vb, Half(width), Half(height)))
    ensures r.Mean? ==>
      var y, u, v := PlaneMean(ya, yb, width, height), PlaneMean(ua, ub, Half(width), Half(height)),
                     PlaneMean(va, vb, Half(width), Half(height));
      10.0 * r.value == 8.0 * y + u + v
  {
    hide SameWindows, Surface.Readable, PlaneMean;
    var y := SurfaceSsim(ya, yb, width, height);
    var u := SurfaceSsim(ua, ub, Half(width), Half(height));
    var v := SurfaceSsim(va, vb, Half(width), Half(height));
    if y.NotANumber? || u.NotANumber? || v.NotANumber? {
      r := NotANumber;
    } else {
      r := Mean(y.value * 0.8 + 0.1 * (u.value + v.value));
    }
  }
}
