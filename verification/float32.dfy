/** Single-precision arithmetic on non-negative numbers, exactly: IEEE 754 binary32 with rounding to
    nearest, ties to even.  A value is kept as an integer and a power of two it is to be divided by. */
module Float32 {
  import opened Views

  // ----- powers of two

  function Pow2(k: nat): (p: nat)
    ensures 0 < p
  {
    if k == 0 then 1 else 2 * Pow2(k - 1)
  }

  lemma {:induction false} Pow2Add(a: nat, b: nat)
    ensures Pow2(a + b) == Pow2(a) * Pow2(b)
  {
    if a > 0 {
      Pow2Add(a - 1, b);
      Associate(2, Pow2(a - 1), Pow2(b));
    }
  }

  lemma Associate(x: int, y: int, z: int)
    ensures (x * y) * z == x * (y * z)
  {
  }

  lemma {:induction false} Pow2Monotone(a: nat, b: nat)
    requires a <= b
    ensures Pow2(a) <= Pow2(b)
    decreases b
  {
    if a < b {
      Pow2Monotone(a, b - 1);
    }
  }

  lemma Pow2Small()
    ensures Pow2(8) == 256 && Pow2(15) == 32768 && Pow2(16) == 65536
    ensures Pow2(23) == 8388608 && Pow2(24) == 16777216
  {
    assert Pow2(4) == 16;
    Pow2Add(4, 4);
    Pow2Add(8, 8);
    Pow2Add(8, 7);
    assert Pow2(7) == 128 by {
      assert Pow2(3) == 8;
      Pow2Add(4, 3);
    }
    Pow2Add(16, 7);
    Pow2Add(16, 8);
  }

  // ----- rounding

  /** The number of binary digits. */
  function Bits(n: nat): nat {
    if n == 0 then 0 else 1 + Bits(n / 2)
  }

  lemma {:induction false} BitsBound(n: nat)
    requires 0 < n
    ensures 0 < Bits(n) && Pow2(Bits(n) - 1) <= n < Pow2(Bits(n))
  {
    if n > 1 {
      BitsBound(n / 2);
    }
  }

  /** Below 2^k there are at most k digits. */
  lemma BitsAtMost(n: nat, k: nat)
    requires n < Pow2(k)
    ensures Bits(n) <= k
  {
    hide Pow2;
    if k < Bits(n) {
      Pow2Monotone(k, Bits(n) - 1);
      BitsBound(n);
    }
  }

  /** The integer nearest to n / d, the even one if two are. */
  function Nearest(n: nat, d: nat): nat
    requires 0 < d
  {
    var q, r := n / d, n % d;
    if 2 * r < d then q else if 2 * r > d then q + 1 else if q % 2 == 0 then q else q + 1
  }

  lemma NearestError(n: nat, d: nat)
    requires 0 < d
    ensures -(d as int) <= 2 * (Nearest(n, d) * d - n) <= d
  {
    var q, r := n / d, n % d;
    assert n == q * d + r;
    assert (q + 1) * d == q * d + d;
  }

  /** No multiple of d is nearer. */
  lemma NearestIsNearest(n: nat, d: nat, j: int)
    requires 0 < d
    ensures var e := Nearest(n, d) * d - n;
      (if e < 0 then -e else e) <= if j * d < n then n - j * d else j * d - n
  {
    var q := Nearest(n, d);
    NearestError(n, d);
    if j < q {
      MulMonotone(j, q - 1, d);
      assert (q - 1) * d == q * d - d;
    } else if j > q {
      MulMonotone(q + 1, j, d);
      assert (q + 1) * d == q * d + d;
    }
  }

  /** m units of 2^k. */
  function Units(m: nat, k: nat): nat {
    m * Pow2(k)
  }

  /** A number with a significand of 24 binary digits; the exponent range never matters here. */
  ghost predicate Representable(n: nat) {
    exists m: nat, k: nat :: m <= Pow2(24) && n == Units(m, k)
  }

  /** n rounded to single precision. */
  function Round24(n: nat): nat {
    if Bits(n) <= 24 then n else Nearest(n, Pow2(Bits(n) - 24)) * Pow2(Bits(n) - 24)
  }

  /** The binade of n. */
  lemma Binade(n: nat)
    requires 24 < Bits(n)
    ensures var u := Pow2(Bits(n) - 24);
      Pow2(23) * u <= n < Pow2(24) * u
  {
    hide Pow2;
    BitsBound(n);
    Pow2Add(23, Bits(n) - 24);
    Pow2Add(24, Bits(n) - 24);
  }

  /** Rounding changes a number by no more than its 2^24th part. */
  lemma RoundError(n: nat)
    ensures -(n as int) <= Pow2(24) * (Round24(n) - n) <= n
  {
    hide Pow2, Nearest;
    if Bits(n) > 24 {
      var u := Pow2(Bits(n) - 24);
      Binade(n);
      NearestError(n, u);
      Pow2Half();
      ScaleError(Pow2(23), u, Round24(n) - n);
      Associate(2, Pow2(23), Round24(n) - n);
    }
  }

  lemma Pow2Half()
    ensures Pow2(24) == 2 * Pow2(23)
  {
  }

  lemma ScaleError(c: int, u: int, e: int)
    requires 0 <= c && -u <= 2 * e <= u
    ensures -(c * u) <= 2 * (c * e) <= c * u
  {
    MulMonotone(2 * e, u, c);
    MulMonotone(-u, 2 * e, c);
    assert 2 * e * c == 2 * (c * e) && -u * c == -(c * u);
  }

  function Distance(x: int, y: int): nat {
    if x < y then y - x else x - y
  }

  /** Rounding is what the standard asks for: the result has 24 digits, and no number that has is nearer. */
  lemma RoundIsNearest(n: nat, y: nat)
    requires Representable(y)
    ensures Representable(Round24(n)) && Distance(Round24(n), n) <= Distance(y, n)
  {
    hide Pow2, Nearest, Distance, Units;
    var m: nat, k: nat :| m <= Pow2(24) && y == Units(m, k);
    if Bits(n) <= 24 {
      NoDistance(n, y);
      FewDigits(n);
    } else {
      RoundedUnits(n);
      if Bits(n) - 24 <= k {
        CoarserNotNearer(n, m, k);
      } else {
        FinerNotNearer(n, m, k);
      }
    }
  }

  lemma CoarserNotNearer(n: nat, m: nat, k: nat)
    requires 24 < Bits(n) <= 24 + k
    ensures Distance(Round24(n), n) <= Distance(Units(m, k), n)
  {
    hide Pow2, Nearest, Distance, Units, Bits;
    var c := Bits(n) - 24;
    CoarserGrid(m, k, c);
    MultipleNotNearer(n, Pow2(c), m * Pow2(k - c));
  }

  lemma FinerNotNearer(n: nat, m: nat, k: nat)
    requires m <= Pow2(24) && 24 + k < Bits(n)
    ensures Distance(Round24(n), n) <= Distance(Units(m, k), n)
  {
    hide Pow2, Nearest, Distance, Units, Bits;
    var c := Bits(n) - 24;
    SmallerGrid(m, k, c);
    Binade(n);
    MultipleNotNearer(n, Pow2(c), Pow2(23));
    FurtherDown(Units(m, k), Pow2(23) * Pow2(c), n);
  }

  /** Halfway between two neighbours the even significand is taken. */
  lemma TiesToEven(n: nat)
    requires 24 < Bits(n) && 2 * Distance(Round24(n), n) == Pow2(Bits(n) - 24)
    ensures exists m: nat :: Round24(n) == Units(2 * m, Bits(n) - 24)
  {
    hide Pow2;
    var u := Pow2(Bits(n) - 24);
    NearestTie(n, u);
    assert Round24(n) == Units(2 * (Nearest(n, u) / 2), Bits(n) - 24);
  }

  lemma NearestTie(n: nat, d: nat)
    requires 0 < d && 2 * Distance(Nearest(n, d) * d, n) == d
    ensures Nearest(n, d) % 2 == 0
  {
    var q, r := n / d, n % d;
    assert n == q * d + r;
    OneMore(q, d);
  }

  /** What needs no rounding stays. */
  lemma RoundStays(n: nat)
    requires Representable(n)
    ensures Round24(n) == n
  {
    hide Round24, Representable;
    RoundIsNearest(n, n);
  }

  lemma NoDistance(n: nat, y: nat)
    ensures Distance(n, n) <= Distance(y, n)
  {
  }

  lemma FurtherDown(y: int, z: int, n: int)
    requires y <= z <= n
    ensures Distance(z, n) <= Distance(y, n)
  {
  }

  lemma FewDigits(n: nat)
    requires Bits(n) <= 24
    ensures Representable(n)
  {
    if n > 0 {
      BitsBound(n);
      Pow2Monotone(Bits(n), 24);
    }
    assert Units(n, 0) == n;
  }

  lemma RoundedUnits(n: nat)
    requires 24 < Bits(n)
    ensures Representable(Round24(n))
  {
    hide Pow2, Nearest;
    Binade(n);
    NearestAtMost(n, Pow2(Bits(n) - 24), Pow2(24));
    assert Round24(n) == Units(Nearest(n, Pow2(Bits(n) - 24)), Bits(n) - 24);
  }

  lemma MultipleNotNearer(n: nat, d: nat, j: nat)
    requires 0 < d
    ensures Distance(Nearest(n, d) * d, n) <= Distance(j * d, n)
  {
    NearestIsNearest(n, d, j);
  }

  lemma NearestAtMost(n: nat, d: nat, j: nat)
    requires 0 < d && n <= j * d
    ensures Nearest(n, d) <= j
  {
    hide Nearest;
    NearestError(n, d);
    if j < Nearest(n, d) {
      MulMonotone(j + 1, Nearest(n, d), d);
      OneMore(j, d);
    }
  }

  lemma OneMore(j: int, d: int)
    ensures (j + 1) * d == j * d + d
  {
  }

  lemma CoarserGrid(m: nat, k: nat, c: nat)
    requires c <= k
    ensures Units(m, k) == m * Pow2(k - c) * Pow2(c)
  {
    hide Pow2;
    Pow2Add(k - c, c);
    Associate(m, Pow2(k - c), Pow2(c));
  }

  lemma SmallerGrid(m: nat, k: nat, c: nat)
    requires m <= Pow2(24) && k < c
    ensures Units(m, k) <= Pow2(23) * Pow2(c)
  {
    Pow2Half();
    Pow2Next(c);
    hide Pow2;
    Pow2Monotone(k, c - 1);
    HalfSteps(m, Pow2(k), Pow2(23), Pow2(c - 1));
  }

  lemma Pow2Next(c: nat)
    requires 0 < c
    ensures Pow2(c) == 2 * Pow2(c - 1)
  {
  }

  lemma HalfSteps(m: nat, p: nat, h: nat, q: nat)
    requires m <= 2 * h && p <= q
    ensures m * p <= h * (2 * q)
  {
    MulMonotone(m, 2 * h, p);
    MulMonotone(p, q, 2 * h);
    assert q * (2 * h) == h * (2 * q);
  }

  // ----- a product with a rounded reciprocal

  /** 1.0f / a is Reciprocal(a) over Scale(a), when a has at most 24 digits. */
  function Scale(a: nat): (p: nat)
    ensures 0 < p
  {
    Pow2(23 + Bits(a))
  }

  function Reciprocal(a: nat): nat
    requires 0 < a
  {
    Nearest(Scale(a), a)
  }

  lemma RoundPositive(n: nat)
    requires 0 < n
    ensures 0 < Round24(n)
  {
    hide Round24;
    RoundError(n);
    Pow2Small();
  }

  /** The reciprocal, too, has a significand of 24 digits. */
  lemma ReciprocalDigits(a: nat)
    requires 0 < a
    ensures Pow2(23) <= Reciprocal(a) <= Pow2(24)
  {
    hide Pow2, Nearest, Bits;
    BitsBound(a);
    ScaleSplit(a);
    NearestBounds(Scale(a), a, Pow2(Bits(a)), Pow2(23), Pow2(Bits(a) - 1), Pow2(24));
  }

  lemma ScaleSplit(a: nat)
    requires 0 < Bits(a)
    ensures Scale(a) == Pow2(Bits(a)) * Pow2(23) == Pow2(Bits(a) - 1) * Pow2(24)
  {
    hide Pow2;
    Pow2Add(Bits(a), 23);
    Pow2Add(Bits(a) - 1, 24);
  }

  lemma NearestBounds(n: nat, d: nat, d1: nat, lo: nat, d0: nat, hi: nat)
    requires 0 < d0 <= d <= d1 && n == d1 * lo == d0 * hi
    ensures lo <= Nearest(n, d) <= hi
  {
    hide Nearest;
    MulMonotone(d, d1, lo);
    MulMonotone(d0, d, hi);
    NearestAtMost(n, d, hi);
    NearestAtLeast(n, d, lo);
  }

  lemma NearestAtLeast(n: nat, d: nat, j: nat)
    requires 0 < d && j * d <= n
    ensures j <= Nearest(n, d)
  {
    hide Nearest;
    NearestError(n, d);
    if Nearest(n, d) < j {
      MulMonotone(Nearest(n, d) + 1, j, d);
      OneMore(Nearest(n, d), d);
    }
  }

  function Times(x: nat, y: nat): nat {
    x * y
  }

  function Over(x: nat, d: nat): nat
    requires 0 < d
  {
    x / d
  }

  /** (int)(s * (1.0f / a)) of two single-precision numbers. */
  function RoundedQuotient(s: nat, a: nat): nat
    requires 0 < a
  {
    Over(Round24(Times(s, Reciprocal(a))), Scale(a))
  }

  /** (int)((float)sum * (1.0f / (float)area)). */
  function Quotient(sum: nat, area: nat): nat
    requires 0 < area
  {
    RoundPositive(area);
    RoundedQuotient(Round24(sum), Round24(area))
  }

  lemma SmallExact(n: nat)
    requires n < 16777216
    ensures Round24(n) == n
  {
    hide Pow2;
    Pow2Small();
    BitsAtMost(n, 24);
  }

  const T: int := 16777216

  /** Two errors of at most one part in 2^24 add up to a little over one part in 2^23. */
  lemma TwoErrors(u: int, v: int, w: int, z: int)
    requires -z <= 2 * (u - w) <= z && 8388608 * z <= w && -u <= T * (v - u) <= u
    ensures (T - 1) * (T - 1) * w <= T * T * v <= (T + 1) * (T + 1) * w
  {
    assert (T - 1) * w <= T * u <= (T + 1) * w;
  }

  lemma SumTimes(s: int, x: int, y: int)
    requires 0 <= s && -y <= 2 * x <= y
    ensures -(s * y) <= 2 * (s * x) <= s * y
  {
    ScaleError(s, y, x);
  }

  lemma TimesBetween(x: int, y: int, c: int, a: int)
    requires 0 <= a && -y <= c * x <= y
    ensures -(y * a) <= c * (x * a) <= y * a
  {
    MulMonotone(c * x, y, a);
    MulMonotone(-y, c * x, a);
    Associate(c, x, a);
    assert -y * a == -(y * a);
  }

  lemma Distribute(s: int, m: int, a: int, p: int)
    ensures s * (m * a - p) == (s * m) * a - s * p
  {
  }

  lemma Subtract(x: int, y: int, a: int)
    ensures (x - y) * a == x * a - y * a
  {
  }

  /** A reciprocal m / p off by half a unit at most and a product r off by one part in 2^24. */
  lemma ErrorsAdd(s: nat, a: nat, m: nat, p: nat, r: int)
    requires -(a as int) <= 2 * (m * a - p) <= a && 8388608 * a <= p
    requires -(s * m) <= T * (r - s * m) <= s * m
    ensures (T - 1) * (T - 1) * (s * p) <= T * T * (r * a) <= (T + 1) * (T + 1) * (s * p)
  {
    ReciprocalOff(s, a, m, p);
    ProductOff(s * m, a, r);
    TwoErrors(s * m * a, r * a, s * p, s * a);
  }

  lemma ReciprocalOff(s: nat, a: nat, m: nat, p: nat)
    requires -(a as int) <= 2 * (m * a - p) <= a && 8388608 * a <= p
    ensures -(s * a) <= 2 * (s * m * a - s * p) <= s * a && 8388608 * (s * a) <= s * p
  {
    SumTimes(s, m * a - p, a);
    Distribute(s, m, a, p);
    MulMonotone(8388608 * a, p, s);
    Reorder(8388608, a, s);
  }

  lemma ProductOff(x: int, a: nat, r: int)
    requires -x <= T * (r - x) <= x
    ensures -(x * a) <= T * (r * a - x * a) <= x * a
  {
    TimesBetween(r - x, x, T, a);
    Subtract(r, x, a);
  }

  lemma Reorder(x: int, y: int, z: int)
    ensures x * y * z == x * (z * y)
  {
    Associate(x, y, z);
  }

  /** The rounded product, times the divisor, against the exact one. */
  lemma ProductError(s: nat, a: nat)
    requires 0 < a
    ensures var v, w := Round24(Times(s, Reciprocal(a))) * a, s * Scale(a);
      (T - 1) * (T - 1) * w <= T * T * v <= (T + 1) * (T + 1) * w
  {
    hide Round24, Nearest, Pow2, Scale, Bits;
    NearestError(Scale(a), a);
    AreaBelowScale(a);
    ProductRounded(Times(s, Reciprocal(a)));
    ErrorsAdd(s, a, Reciprocal(a), Scale(a), Round24(Times(s, Reciprocal(a))));
  }

  lemma ProductRounded(x: nat)
    ensures -(x as int) <= T * (Round24(x) - x) <= x
  {
    hide Round24;
    RoundError(x);
    Pow2Small();
  }

  lemma AreaBelowScale(a: nat)
    requires 0 < a
    ensures 8388608 * a < Scale(a)
  {
    hide Pow2;
    BitsBound(a);
    Pow2Small();
    Pow2Add(23, Bits(a));
  }

  /** Sum and area are converted to single precision before anything is computed of them. */
  lemma ConvertedFirst(sum: nat, area: nat)
    requires 0 < area
    ensures 0 < Round24(area) && Quotient(sum, area) == Quotient(Round24(sum), Round24(area))
  {
    hide Round24, RoundedQuotient, Representable;
    RoundPositive(area);
    RoundIsNearest(sum, 0) by {
      ZeroRepresentable();
    }
    RoundIsNearest(area, 0) by {
      ZeroRepresentable();
    }
    RoundStays(Round24(sum));
    RoundStays(Round24(area));
  }

  lemma ZeroRepresentable()
    ensures Representable(0)
  {
    assert Units(0, 0) == 0;
  }

  // ----- the quotient against the exact one

  lemma CancelLess(x: int, y: int, p: int)
    requires 0 < p && x * p < y * p
    ensures x < y
  {
    if y <= x {
      MulMonotone(y, x, p);
    }
  }

  /** r / p, times a, lies within one p of s. */
  lemma TruncatedClose(r: int, a: int, s: int, p: int)
    requires 0 < a && 0 < p && (s - 1) * p <= r * a < (s + 1) * p
    ensures r / p * a <= s <= (r / p + 1) * a
  {
    var q := r / p;
    QuotientStep(r, p);
    MulMonotone(q * p, r, a);
    Associate(q, p, a);
    Associate(q, a, p);
    assert p * a == a * p;
    CancelLess(q * a, s + 1, p);
    MulLess(r, (q + 1) * p, a);
    Associate(q + 1, p, a);
    Associate(q + 1, a, p);
    CancelLess(s - 1, (q + 1) * a, p);
  }

  lemma QuotientStep(r: int, p: int)
    requires 0 < p
    ensures r / p * p <= r < (r / p + 1) * p
  {
    OneMore(r / p, p);
  }

  lemma MulLess(x: int, y: int, a: int)
    requires 0 < a && x < y
    ensures x * a < y * a
  {
    MulMonotone(x + 1, y, a);
    OneMore(x, a);
  }

  /** Sums below 2^23 leave less than one p of error. */
  lemma SmallError(v: int, s: int, p: int)
    requires 0 <= s < 8388608 && 0 < p
    requires (T - 1) * (T - 1) * (s * p) <= T * T * v <= (T + 1) * (T + 1) * (s * p)
    ensures (s - 1) * p <= v < (s + 1) * p
  {
    MulMonotone(s, 8388607, p);
    OneMore(s, p);
    OneMore(s - 1, p);
  }

  lemma QuotientIs(sum: int, area: int, q: int)
    requires 0 < area && q * area <= sum < (q + 1) * area
    ensures sum / area == q && sum % area == sum - q * area
  {
    QuotientStep(sum, area);
    assert sum % area == sum - sum / area * area;
    var d := sum / area;
    CancelLess(d, q + 1, area);
    CancelLess(q, d + 1, area);
  }

  lemma Division(sum: int, area: int, q: int)
    requires 0 < area && q * area <= sum <= (q + 1) * area
    ensures sum / area == q || (sum % area == 0 && sum / area == q + 1)
  {
    if sum < (q + 1) * area {
      QuotientIs(sum, area, q);
    } else {
      OneMore(q + 1, area);
      QuotientIs(sum, area, q + 1);
    }
  }

  /** The single-precision quotient of a sum below 2^23 is exact, or one less and then only if the
      area divides the sum. */
  lemma QuotientNear(sum: nat, area: nat)
    requires sum < 8388608 && 0 < area < 16777216
    ensures Quotient(sum, area) == sum / area || (sum % area == 0 && Quotient(sum, area) == sum / area - 1)
  {
    hide Round24, Reciprocal, Scale;
    SmallExact(sum);
    SmallExact(area);
    ProductError(sum, area);
    var r := Round24(Times(sum, Reciprocal(area)));
    SmallError(r * area, sum, Scale(area));
    TruncatedClose(r, area, sum, Scale(area));
    Division(sum, area, Quotient(sum, area));
  }

  /** It falls below a lower bound of the mean only if the mean is that bound. */
  lemma QuotientBelow(sum: nat, area: nat, lo: int)
    requires sum < 8388608 && 0 < area < 16777216 && lo * area <= sum && Quotient(sum, area) < lo
    ensures sum == lo * area
  {
    hide Quotient;
    QuotientNear(sum, area);
    QuotientStep(sum, area);
    CancelLess(lo, sum / area + 1, area);
  }

  // ----- sums of any size

  lemma NotAbove(q: int, s: int, a: int, sum: int, area: int, hi: int)
    requires 0 < area && 0 <= a && 0 <= hi <= 255 && sum <= hi * area
    requires T * T * (q * a) <= (T + 1) * (T + 1) * s
    requires -area <= T * (a - area) && T * (s - sum) <= sum
    ensures q <= hi
  {
    if hi < q {
      MulMonotone(hi + 1, q, a);
      ScaleBoth(T - 1, area, T, a, hi + 1);
      MulMonotone(hi, 255, area);
      OneMore(hi, area);
      AboveFails((hi + 1) * a, s, sum, area, hi * area, (hi + 1) * area);
    }
  }

  lemma ScaleBoth(c: int, x: int, d: int, y: int, k: int)
    requires 0 <= k && c * x <= d * y
    ensures c * (k * x) <= d * (k * y)
  {
    MulMonotone(c * x, d * y, k);
    Reorder(c, x, k);
    Reorder(d, y, k);
  }

  lemma AboveFails(x: int, s: int, sum: int, area: int, y: int, z: int)
    requires 0 < area && y <= 255 * area && z == y + area && sum <= y && T * (s - sum) <= sum
    requires (T - 1) * z <= T * x
    ensures (T + 1) * (T + 1) * s < T * T * x
  {
  }

  lemma NotBelow(q: int, s: int, a: int, sum: int, area: int, lo: int)
    requires 0 < area && 0 <= a && 0 <= q && 0 <= lo <= 255 && lo * area <= sum
    requires (T - 1) * (T - 1) * s <= T * T * ((q + 1) * a)
    requires T * (a - area) <= area && -sum <= T * (s - sum)
    ensures lo <= q + 1
  {
    if q + 1 < lo {
      MulMonotone(q + 1, lo - 1, a);
      ScaleBoth(T, a, T + 1, area, lo - 1);
      MulMonotone(lo, 255, area);
      OneMore(lo - 1, area);
      BelowFails((lo - 1) * a, s, sum, area, lo * area, (lo - 1) * area);
    }
  }

  lemma BelowFails(x: int, s: int, sum: int, area: int, y: int, z: int)
    requires 0 < area && y <= 255 * area && z == y - area && y <= sum && -sum <= T * (s - sum)
    requires T * x <= (T + 1) * z
    ensures T * T * x < (T - 1) * (T - 1) * s
  {
  }

  /** r / p, times a, against s, with the constants of the two roundings. */
  lemma TruncatedBounds(r: int, a: int, s: int, p: int)
    requires 0 <= a && 0 < p && 0 <= r
    requires (T - 1) * (T - 1) * (s * p) <= T * T * (r * a) <= (T + 1) * (T + 1) * (s * p)
    ensures T * T * (r / p * a) <= (T + 1) * (T + 1) * s && (T - 1) * (T - 1) * s <= T * T * ((r / p + 1) * a)
  {
    QuotientStep(r, p);
    var q := r / p;
    MulMonotone(q * p, r, a);
    MulMonotone(r, (q + 1) * p, a);
    Swap(q, p, a);
    Swap(q + 1, p, a);
    CancelScaled(T * T, q * a, (T + 1) * (T + 1), s, p);
    CancelScaled((T - 1) * (T - 1), s, T * T, (q + 1) * a, p);
  }

  lemma Swap(x: int, y: int, z: int)
    ensures x * y * z == x * z * y
  {
    Reorder(x, y, z);
    Associate(x, z, y);
  }

  lemma CancelScaled(c: int, x: int, d: int, y: int, p: int)
    requires 0 < p && c * (x * p) <= d * (y * p)
    ensures c * x <= d * y
  {
    Associate(c, x, p);
    Associate(d, y, p);
    if d * y < c * x {
      MulLess(d * y, c * x, p);
    }
  }

  /** Whatever the size of the sum, the quotient of a mean between lo and hi, bytes both, is never
      above hi and never more than one below lo. */
  lemma QuotientBetween(sum: nat, area: nat, lo: int, hi: int)
    requires 0 < area && 0 <= lo && hi <= 255 && lo * area <= sum <= hi * area
    ensures lo - 1 <= Quotient(sum, area) <= hi
  {
    hide Round24, Reciprocal, Scale, Pow2;
    var s, a := Round24(sum), Round24(area);
    RoundPositive(area);
    Pow2Small();
    RoundError(sum);
    RoundError(area);
    ProductError(s, a);
    var r := Round24(Times(s, Reciprocal(a)));
    TruncatedBounds(r, a, s, Scale(a));
    CancelAtMost(lo, hi, area);
    NotAbove(Quotient(sum, area), s, a, sum, area, hi);
    NotBelow(Quotient(sum, area), s, a, sum, area, lo);
  }

  lemma CancelAtMost(x: int, y: int, p: int)
    requires 0 < p && x * p <= y * p
    ensures x <= y
  {
    if y < x {
      MulLess(y, x, p);
    }
  }

  // ----- flat areas

  /** The mean of area pixels that all have the value v. */
  function FlatMean(v: nat, area: nat): nat
    requires 0 < area
  {
    Quotient(Times(v, area), area)
  }

  /** The rounded reciprocal falls short of 1 / area by no more than one part in 2^25. */
  predicate KeepsFlat(area: nat)
    requires 0 < area
  {
    4 * (Scale(area) - area * Reciprocal(area)) <= Pow2(Bits(area))
  }

  /** An even multiple of the unit is not lost by half a unit. */
  lemma NearestEven(x: nat, u: nat, j: nat)
    requires 0 < u && 0 < j && x <= 2 * j * u && 2 * (2 * j * u - x) <= u
    ensures 2 * j <= Nearest(x, u)
  {
    if x == 2 * j * u {
      NearestAtLeast(x, u, 2 * j);
    } else {
      OneMore(2 * j - 1, u);
      QuotientIs(x, u, 2 * j - 1);
    }
  }

  lemma NearestBelow(x: nat, u: nat, j: nat)
    requires 0 < u && u < 2 * (j * u - x)
    ensures Nearest(x, u) < j
  {
    hide Nearest;
    NearestError(x, u);
    CancelLess(Nearest(x, u), j, u);
  }

  /** Rounding never passes below a number that needs no rounding. */
  lemma RoundAtLeast(x: nat, n: nat)
    requires Representable(n) && n <= x
    ensures n <= Round24(x)
  {
    hide Round24, Representable;
    RoundIsNearest(x, n);
  }

  lemma BitsAre(n: nat, k: nat)
    requires 0 < k && Pow2(k - 1) <= n < Pow2(k)
    ensures Bits(n) == k
  {
    hide Pow2;
    BitsAtMost(n, k);
    BitsBound(n);
    if Bits(n) < k {
      Pow2Monotone(Bits(n), k - 1);
    }
  }

  /** A product below v * 2^23 * b by at most a quarter of v * b: how it relates to its unit u. */
  lemma ShortfallInUnits(v: int, b: int, e: int, x: int, u: int)
    requires 0 < v && 0 < e && 4 * e <= b && u <= 8388608
    requires x == v * (8388608 * b) - v * e && x < T * u
    ensures v * b <= 2 * u && 2 * (v * e) <= u
  {
    MulMonotone(4 * e, b, v);
    Times4(v, e);
    assert v * (8388608 * b) == 8388608 * (v * b);
  }

  lemma Times4(v: int, e: int)
    ensures 4 * e * v == 4 * (v * e)
  {
  }

  lemma ManyDigits(n: nat)
    requires Pow2(24) <= n
    ensures 24 < Bits(n)
  {
    hide Pow2;
    BitsBound(n);
    if Bits(n) <= 24 {
      Pow2Monotone(Bits(n), 24);
    }
  }

  lemma ProductSize(v: int, b: int, e: int, x: int)
    requires 0 < v <= 255 && 0 < e && 4 * e <= b && x == v * (8388608 * b) - v * e
    ensures 16777216 <= x < 256 * (8388608 * b)
  {
    Subtract(8388608 * b, e, v);
    MulMonotone(1, v, 8388608 * b - e);
    MulMonotone(v, 255, 8388608 * b);
    MulMonotone(1, e, v);
  }

  lemma EvenMultiple(v: nat, b: nat, k: nat)
    requires 0 < v && k <= 22 + b
    ensures v * Pow2(23 + b) == 2 * (v * Pow2(22 + b - k)) * Pow2(k) && 0 < v * Pow2(22 + b - k)
  {
    Pow2Next(23 + b - k);
    hide Pow2;
    Pow2Add(23 + b - k, k);
    Associate(v, Pow2(23 + b - k), Pow2(k));
    Associate(2, v, Pow2(22 + b - k));
    Associate(v, 2, Pow2(22 + b - k));
    PositiveProduct(v, Pow2(22 + b - k));
  }

  lemma PositiveProduct(x: int, y: int)
    requires 0 < x && 0 < y
    ensures 0 < x * y
  {
  }

  /** v times a product that falls short of 2^(23 + b) by e. */
  lemma KeptFromBelow(v: nat, b: nat, e: nat, x: nat)
    requires 0 < v <= 255 && b <= 16 && 0 < e && 4 * e <= Pow2(b)
    requires x == v * Pow2(23 + b) - v * e
    ensures v * Pow2(23 + b) <= Round24(x)
  {
    hide Pow2, Nearest, Bits;
    Pow2Small();
    Pow2Add(23, b);
    Pow2Add(8, 23 + b);
    ProductSize(v, Pow2(b), e, x);
    ManyDigits(x);
    BitsAtMost(x, 31 + b);
    var k := Bits(x) - 24;
    Pow2Monotone(k, 23);
    Binade(x);
    ShortfallInUnits(v, Pow2(b), e, x, Pow2(k));
    EvenMultiple(v, b, k);
    NearestEven(x, Pow2(k), v * Pow2(22 + b - k));
    MulMonotone(2 * (v * Pow2(22 + b - k)), Nearest(x, Pow2(k)), Pow2(k));
  }

  /** The number 1, times a product that falls short by more. */
  lemma LostFromBelow(b: nat, e: nat, x: nat)
    requires 2 <= b && Pow2(b) < 4 * e && 2 * e <= Pow2(b)
    requires x == Pow2(23 + b) - e
    ensures Round24(x) < Pow2(23 + b)
  {
    Pow2Next(b);
    Pow2Next(23 + b);
    hide Pow2, Nearest, Bits;
    Pow2Small();
    Pow2Add(23, b);
    Pow2Add(24, b - 1);
    BitsAre(x, 23 + b);
    var u := Pow2(b - 1);
    NearestBelow(x, u, Pow2(24));
    MulLess(Nearest(x, u), Pow2(24), u);
  }

  lemma SmallArea(area: nat)
    requires 0 < area && 255 * area < 8388608
    ensures 0 < Bits(area) <= 16 && area < Pow2(Bits(area))
  {
    hide Pow2;
    Pow2Small();
    BitsAtMost(area, 16);
    BitsBound(area);
  }

  lemma AtLeastTimes(r: int, p: int, v: int)
    requires 0 < p
    ensures v <= r / p <==> v * p <= r
  {
    QuotientStep(r, p);
    if v <= r / p {
      MulMonotone(v, r / p, p);
    } else {
      MulMonotone(r / p + 1, v, p);
    }
  }

  /** One flat area: the value or one less, and the value if the rounded product reaches it. */
  lemma FlatQuotient(v: nat, area: nat)
    requires v <= 255 && 0 < area && 255 * area < 8388608
    ensures FlatMean(v, area) == v || FlatMean(v, area) == v - 1
    ensures FlatMean(v, area) == v
       <==> v * Scale(area) <= Round24(Times(Times(v, area), Reciprocal(area)))
  {
    hide Round24, Reciprocal, Scale;
    MulMonotone(v, 255, area);
    SmallExact(v * area);
    SmallExact(area);
    OneMore(v, area);
    QuotientIs(v * area, area, v);
    QuotientNear(v * area, area);
    AtLeastTimes(Round24(Times(Times(v, area), Reciprocal(area))), Scale(area), v);
  }

  lemma FlatProduct(v: nat, area: nat, m: nat, p: nat)
    ensures Times(Times(v, area), m) == v * p - v * (p - area * m)
  {
    Associate(v, area, m);
    Subtract(p, area * m, v);
  }

  /** However the product falls short or goes beyond, it reaches the number. */
  lemma Reaches(v: nat, b: nat, e: int, x: nat)
    requires v <= 255 && b <= 16 && 4 * e <= Pow2(b)
    requires x == v * Pow2(23 + b) - v * e
    ensures v * Pow2(23 + b) <= Round24(x)
  {
    hide Pow2, Round24;
    if 0 < v && 0 < e {
      KeptFromBelow(v, b, e, x);
    } else {
      NoShortfall(v, e);
      Pow2Small();
      assert v * Pow2(23 + b) == Units(v, 23 + b);
      RoundAtLeast(x, v * Pow2(23 + b));
    }
  }

  lemma NoShortfall(v: int, e: int)
    requires 0 <= v && (v == 0 || e <= 0)
    ensures v * e <= 0
  {
  }

  /** With a reciprocal that is good enough, a flat area keeps its value. */
  lemma FlatStays(v: nat, area: nat)
    requires v <= 255 && 0 < area && 255 * area < 8388608 && KeepsFlat(area)
    ensures FlatMean(v, area) == v
  {
    hide Pow2, FlatMean, Round24, Reciprocal, Bits, Times;
    FlatQuotient(v, area);
    SmallArea(area);
    FlatProduct(v, area, Reciprocal(area), Scale(area));
    Reaches(v, Bits(area), Scale(area) - area * Reciprocal(area), Times(Times(v, area), Reciprocal(area)));
  }

  /** Otherwise an area of ones turns black. */
  lemma FlatLost(area: nat)
    requires 0 < area && 255 * area < 8388608 && !KeepsFlat(area)
    ensures FlatMean(1, area) == 0
  {
    hide Pow2, FlatMean, Round24, Reciprocal, Bits, Times;
    FlatQuotient(1, area);
    SmallArea(area);
    SingleKept(area);
    ReciprocalError(area);
    FlatProduct(1, area, Reciprocal(area), Scale(area));
    LostFromBelow(Bits(area), Scale(area) - area * Reciprocal(area), Times(Times(1, area), Reciprocal(area)));
  }

  lemma ReciprocalError(a: nat)
    requires 0 < a
    ensures 2 * (Scale(a) - a * Reciprocal(a)) <= a
  {
    hide Nearest, Scale;
    NearestError(Scale(a), a);
  }

  lemma SingleKept(area: nat)
    requires 0 < area && !KeepsFlat(area)
    ensures 2 <= Bits(area)
  {
    BitsBound(area);
    if Bits(area) < 2 {
      assert Pow2(1) == 2;
      WholeReciprocal(area);
    }
  }

  lemma WholeReciprocal(area: nat)
    requires area == 1
    ensures KeepsFlat(area)
  {
    hide Pow2, Scale;
  }

  /** Flat areas of this size stay as they are if and only if the reciprocal is good enough. */
  lemma FlatKept(area: nat)
    requires 0 < area && 255 * area < 8388608
    ensures (forall v: nat | v <= 255 :: FlatMean(v, area) == v) <==> KeepsFlat(area)
  {
    hide FlatMean, KeepsFlat;
    if KeepsFlat(area) {
      forall v: nat | v <= 255 ensures FlatMean(v, area) == v {
        FlatStays(v, area);
      }
    } else {
      FlatLost(area);
    }
  }

  /** Eleven rows of five pixels are too many for the reciprocal. */
  lemma FiftyFive()
    ensures !KeepsFlat(55) && FlatMean(1, 55) == 0
  {
    assert !KeepsFlat(55) by {
      Pow2Small();
      assert Bits(55) == 6 by {
        assert Bits(6) == 3;
        assert Bits(13) == 4;
      }
      Pow2Add(23, 6);
      assert Pow2(6) == 64 by {
        assert Pow2(3) == 8;
      }
    }
    FlatLost(55);
  }
}
