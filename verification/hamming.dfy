/** compare_common.cc, compare_gcc.cc, compare_neon64.cc and compare.cc: the number of bits in
    which two buffers differ.  The kernels work on bits, so bytes are bit-vectors here. */
module Hamming {
  import opened Counters
  import opened PopCounts

  // ----- what the distance is

  /** The number of differing bits of two buffers of one length. */
  function Distance(a: seq<bv8>, b: seq<bv8>): nat
    requires |a| == |b|
  {
    if a == [] then 0 else Distance(a[..|a| - 1], b[..|b| - 1]) + BitDiff(a[|a| - 1], b[|b| - 1])
  }

  lemma {:induction false} DistanceConcat(a: seq<bv8>, b: seq<bv8>, c: seq<bv8>, d: seq<bv8>)
    requires |a| == |b| && |c| == |d|
    ensures Distance(a + c, b + d) == Distance(a, b) + Distance(c, d)
    decreases |c|
  {
    hide BitDiff;
    if c == [] {
      assert a + c == a && b + d == b;
    } else {
      assert (a + c)[..|a + c| - 1] == a + c[..|c| - 1];
      assert (b + d)[..|b + d| - 1] == b + d[..|d| - 1];
      DistanceConcat(a, b, c[..|c| - 1], d[..|d| - 1]);
    }
  }

  /** Two windows of n + k bytes: the first n and the k after them. */
  lemma DistanceOn(a: seq<bv8>, b: seq<bv8>, p: int, q: int, n: int, k: int)
    requires 0 <= p && 0 <= q && 0 <= n && 0 <= k && p + n + k <= |a| && q + n + k <= |b|
    ensures Distance(a[p..p + n + k], b[q..q + n + k])
         == Distance(a[p..p + n], b[q..q + n]) + Distance(a[p + n..p + n + k], b[q + n..q + n + k])
  {
    hide Distance;
    assert a[p..p + n + k] == a[p..p + n] + a[p + n..p + n + k];
    assert b[q..q + n + k] == b[q..q + n] + b[q + n..q + n + k];
    DistanceConcat(a[p..p + n], b[q..q + n], a[p + n..p + n + k], b[q + n..q + n + k]);
  }

  // ----- the distance is a metric

  lemma {:induction false} DistanceBound(a: seq<bv8>, b: seq<bv8>)
    requires |a| == |b|
    ensures Distance(a, b) <= 8 * |a|
    ensures Distance(a, b) == 0 <==> a == b
    decreases |a|
  {
    hide BitDiff;
    if a != [] {
      var n := |a| - 1;
      DistanceBound(a[..n], b[..n]);
      BitDiffBound(a[n], b[n]);
      assert a == a[..n] + [a[n]] && b == b[..n] + [b[n]];
    }
  }

  lemma {:induction false} DistanceSymmetric(a: seq<bv8>, b: seq<bv8>)
    requires |a| == |b|
    ensures Distance(a, b) == Distance(b, a)
    decreases |a|
  {
    hide BitDiff;
    if a != [] {
      var n := |a| - 1;
      DistanceSymmetric(a[..n], b[..n]);
      BitDiffBound(a[n], b[n]);
    }
  }

  lemma {:induction false} Triangle(a: seq<bv8>, b: seq<bv8>, c: seq<bv8>)
    requires |a| == |b| == |c|
    ensures Distance(a, c) <= Distance(a, b) + Distance(b, c)
    decreases |a|
  {
    hide BitDiff;
    if a != [] {
      var n := |a| - 1;
      Triangle(a[..n], b[..n], c[..n]);
      BitDiffTriangle(a[n], b[n], c[n]);
    }
  }

  // ----- HammingDistance_C

  lemma One(a: bv8, b: bv8)
    ensures Distance([a], [b]) == BitDiff(a, b)
  {
    hide BitDiff;
    assert [a][..0] == [] && [b][..0] == [];
  }

  lemma FourBytes(a: seq<bv8>, b: seq<bv8>)
    requires |a| == |b| == 4
    ensures Distance(a, b) == BitDiff(a[0], b[0]) + BitDiff(a[1], b[1]) + BitDiff(a[2], b[2]) + BitDiff(a[3], b[3])
  {
    hide BitDiff;
    assert a[..3][..2] == a[..2] && b[..3][..2] == b[..2];
    assert a[..2][..1] == a[..1] && b[..2][..1] == b[..1];
    assert Distance(a[..0], b[..0]) == 0;
    assert a[..1][..0] == a[..0] && b[..1][..0] == b[..0];
    assert Distance(a[..1], b[..1]) == BitDiff(a[0], b[0]);
    assert Distance(a[..2], b[..2]) == Distance(a[..1], b[..1]) + BitDiff(a[1], b[1]);
    assert Distance(a[..3], b[..3]) == Distance(a[..2], b[..2]) + BitDiff(a[2], b[2]);
  }

  function WordAt(m: seq<bv8>, i: int): bv32
    requires 0 <= i && i + 4 <= |m|
  {
    Load32(m[i], m[i + 1], m[i + 2], m[i + 3])
  }

  /** The bit-parallel count of one pair of words. */
  function WordBits(a: seq<bv8>, b: seq<bv8>, p: int, q: int): nat
    requires 0 <= p && 0 <= q && p + 4 <= |a| && q + 4 <= |b|
  {
    var x := Xor32(WordAt(a, p), WordAt(b, q));
    Sum32(Bytes32(Nibbles32(Pairs32(x)))) as int
  }

  function TailBits(a: bv8, b: bv8): nat {
    TailCount(Xor(a, b) as bv32) as int
  }

  lemma WordDistance(a: seq<bv8>, b: seq<bv8>, p: int, q: int)
    requires 0 <= p && 0 <= q && p + 4 <= |a| && q + 4 <= |b|
    ensures WordBits(a, b, p, q) == Distance(a[p..p + 4], b[q..q + 4])
  {
    hide Sum32, Bytes32, Nibbles32, Pairs32, Load32, PopCount, Distance, Xor, Xor32;
    XorByBytes(a[p], a[p + 1], a[p + 2], a[p + 3], b[q], b[q + 1], b[q + 2], b[q + 3]);
    WordCounted(Xor(a[p], b[q]), Xor(a[p + 1], b[q + 1]), Xor(a[p + 2], b[q + 2]), Xor(a[p + 3], b[q + 3]));
    FourBytes(a[p..p + 4], b[q..q + 4]);
  }

  lemma TailDistance(a: seq<bv8>, b: seq<bv8>, p: int, q: int)
    requires 0 <= p < |a| && 0 <= q < |b|
    ensures TailBits(a[p], b[q]) == Distance(a[p..p + 1], b[q..q + 1])
  {
    hide TailCount, PopCount, Distance, Xor;
    TailCounted(Xor(a[p], b[q]));
    One(a[p], b[q]);
    assert a[p..p + 1] == [a[p]] && b[q..q + 1] == [b[q]];
  }

  lemma Nothing(a: seq<bv8>, b: seq<bv8>, p: int, q: int)
    requires 0 <= p <= |a| && 0 <= q <= |b|
    ensures Distance(a[p..p], b[q..q]) == 0 && Wrap(0) == 0
  {
  }

  /** Counting k more bytes, in 32 bits. */
  lemma CountOn(a: seq<bv8>, b: seq<bv8>, p: int, q: int, n: int, k: int)
    requires 0 <= p && 0 <= q && 0 <= n && 0 <= k && p + n + k <= |a| && q + n + k <= |b|
    ensures Wrap(Wrap(Distance(a[p..p + n], b[q..q + n])) + Distance(a[p + n..p + n + k], b[q + n..q + n + k]))
         == Wrap(Distance(a[p..p + n + k], b[q..q + n + k]))
  {
    hide *;
    DistanceOn(a, b, p, q, n, k);
    WrapAdd(Distance(a[p..p + n], b[q..q + n]), Distance(a[p + n..p + n + k], b[q + n..q + n + k]));
  }

  /** Four bytes at a time, then one at a time.  The counter has 32 bits. */
  method HammingDistanceC(a: array<bv8>, p: int, b: array<bv8>, q: int, count: int) returns (diff: nat)
    requires 0 <= count && 0 <= p && p + count <= a.Length && 0 <= q && q + count <= b.Length
    ensures diff == Wrap(Distance(a[..][p..p + count], b[..][q..q + count]))
  {
    hide *;
    diff := 0;
    var i := 0;
    Nothing(a[..], b[..], p, q);
    while i < count - 3
      invariant 0 <= i <= count
      invariant diff == Wrap(Distance(a[..][p..p + i], b[..][q..q + i]))
    {
      WordDistance(a[..], b[..], p + i, q + i);
      CountOn(a[..], b[..], p, q, i, 4);
      diff := Wrap(diff + WordBits(a[..], b[..], p + i, q + i));
      i := i + 4;
    }
    while i < count
      invariant 0 <= i <= count
      invariant diff == Wrap(Distance(a[..][p..p + i], b[..][q..q + i]))
    {
      TailDistance(a[..], b[..], p + i, q + i);
      CountOn(a[..], b[..], p, q, i, 1);
      diff := Wrap(diff + TailBits(a[p + i], b[q + i]));
      i := i + 1;
    }
  }

  // ----- sixteen bytes at a time

  type Xmm = r: seq<bv8> | |r| == 16 witness seq(16, _ => 0)
  type Lanes4 = r: seq<nat> | |r| == 4 witness seq(4, _ => 0)

  function Pxor(x: Xmm, y: Xmm): Xmm {
    seq(16, i requires 0 <= i < 16 => Xor(x[i], y[i]))
  }

  /** pand with fifteen in every byte. */
  function LowNibbles(x: Xmm): Xmm {
    seq(16, i requires 0 <= i < 16 => Low(x[i]))
  }

  /** psrlw $4: sixteen-bit lanes, so four bits cross from each odd byte into the even one below. */
  function Psrlw4(x: Xmm): Xmm {
    seq(16, i requires 0 <= i < 16 => if i % 2 == 0 then CrossedDown(x[i], x[i + 1]) else High(x[i]))
  }

  function Low(b: bv8): bv8 {
    b & 0x0f
  }

  function High(b: bv8): bv8 {
    b >> 4
  }

  function CrossedDown(low: bv8, high: bv8): bv8 {
    (low >> 4) | (high << 4)
  }

  function Pshufb(table: Xmm, index: Xmm): Xmm {
    seq(16, i requires 0 <= i < 16 => Shuffled(table, index[i]))
  }

  function Paddb(x: Xmm, y: Xmm): Xmm {
    seq(16, i requires 0 <= i < 16 => Plus(x[i], y[i]))
  }

  /** The shift by words and the mask leave each byte its own high half. */
  lemma HighNibble(low: bv8, high: bv8)
    ensures Low(CrossedDown(low, high)) == Low(High(low))
  {
  }

  lemma HighNibbles(x: Xmm, i: nat)
    requires i < 16
    ensures LowNibbles(Psrlw4(x))[i] == Low(High(x[i]))
  {
    hide CrossedDown, Low, High;
    if i % 2 == 0 {
      HighNibble(x[i], x[i + 1]);
    }
  }

  /** The bit count of every byte of x, by two table lookups. */
  method CountBytes(x: Xmm) returns (r: Xmm)
    ensures forall i :: 0 <= i < 16 ==> Counted(r[i], x[i])
  {
    var xmm6 := LowNibbles(x);
    var xmm4 := Psrlw4(x);
    var xmm7 := Pshufb(KBitCount, xmm6);
    xmm4 := LowNibbles(xmm4);
    xmm6 := Pshufb(KBitCount, xmm4);
    r := Paddb(xmm6, xmm7);
    forall i | 0 <= i < 16 ensures Counted(r[i], x[i]) {
      hide Psrlw4, LowNibbles, Counted, Shuffled, Plus;
      HighNibbles(x, i);
      LowNibble(x, i);
      BothNibbles(x[i]);
    }
  }

  predicate Counted(n: bv8, b: bv8) {
    n <= 8 && n as int == PopCount(b)
  }

  lemma LowNibble(x: Xmm, i: nat)
    requires i < 16
    ensures LowNibbles(x)[i] == Low(x[i])
  {
  }

  lemma BothNibbles(b: bv8)
    ensures Counted(Plus(Shuffled(KBitCount, Low(High(b))), Shuffled(KBitCount, Low(b))), b)
  {
    hide *;
    Masked(b);
    Masked(High(b));
    Entry(Low(High(b)));
    Entry(Low(b));
    SumOfNibbles(b);
  }

  lemma Masked(b: bv8)
    ensures Low(b) <= 15
  {
  }

  lemma SumOfNibbles(b: bv8)
    ensures Counted(Plus(NibbleCount(Low(High(b))), NibbleCount(Low(b))), b)
  {
  }

  // ----- HammingDistance_SSSE3

  function ByteSum(x: Xmm, i: nat): nat
    requires i <= 8
  {
    (x[i] as int) + (x[i + 1] as int) + (x[i + 2] as int) + (x[i + 3] as int)
    + (x[i + 4] as int) + (x[i + 5] as int) + (x[i + 6] as int) + (x[i + 7] as int)
  }

  /** psadbw against zero: the sum of each half in the low double word of its half. */
  function PsadbwZero(x: Xmm): Lanes4 {
    [ByteSum(x, 0), 0, ByteSum(x, 8), 0]
  }

  function Paddd(x: Lanes4, y: Lanes4): Lanes4 {
    [Wrap(x[0] + y[0]), Wrap(x[1] + y[1]), Wrap(x[2] + y[2]), Wrap(x[3] + y[3])]
  }

  function PshufdAA(x: Lanes4): Lanes4 {
    [x[2], x[2], x[2], x[2]]
  }

  function FourDistance(x: Xmm, y: Xmm, i: nat): nat
    requires i <= 12
  {
    BitDiff(x[i], y[i]) + BitDiff(x[i + 1], y[i + 1]) + BitDiff(x[i + 2], y[i + 2]) + BitDiff(x[i + 3], y[i + 3])
  }

  /** The distance of bytes i .. i + 8 of two registers. */
  function HalfDistance(x: Xmm, y: Xmm, i: nat): nat
    requires i <= 8
  {
    FourDistance(x, y, i) + FourDistance(x, y, i + 4)
  }

  lemma FourAt(x: Xmm, y: Xmm, i: nat)
    requires i <= 12
    ensures Distance(x[i..i + 4], y[i..i + 4]) == FourDistance(x, y, i)
  {
    hide Distance, BitDiff;
    FourBytes(x[i..i + 4], y[i..i + 4]);
  }

  lemma HalvesAreDistance(x: Xmm, y: Xmm)
    ensures Distance(x, y) == HalfDistance(x, y, 0) + HalfDistance(x, y, 8)
  {
    hide Distance, FourDistance;
    DistanceOn(x, y, 0, 0, 4, 4);
    DistanceOn(x, y, 0, 0, 8, 4);
    DistanceOn(x, y, 0, 0, 12, 4);
    FourAt(x, y, 0);
    FourAt(x, y, 4);
    FourAt(x, y, 8);
    FourAt(x, y, 12);
    assert x[0..16] == x && y[0..16] == y;
  }

  predicate TwoCounted(n: bv8, x0: bv8, x1: bv8) {
    n as int == PopCount(x0) + PopCount(x1)
  }

  /** Two counts of at most eight bits never leave a byte. */
  lemma NoByteOverflows(n: bv8, m: bv8, x0: bv8, x1: bv8)
    requires Counted(n, x0) && Counted(m, x1)
    ensures TwoCounted(Plus(n, m), x0, x1)
  {
    hide PopCount, Plus;
    PlusIsSum(n, m);
  }

  lemma HalfSum(r: Xmm, x0: Xmm, x1: Xmm, y0: Xmm, y1: Xmm, i: nat)
    requires i <= 8
    requires forall i :: 0 <= i < 16 ==> r[i] as int == BitDiff(x0[i], y0[i]) + BitDiff(x1[i], y1[i])
    ensures ByteSum(r, i) == HalfDistance(x0, y0, i) + HalfDistance(x1, y1, i)
  {
    hide BitDiff;
  }

  /** The register program for 32 bytes: the two sums it adds to the accumulator. */
  method HammingBlock(x0: Xmm, x1: Xmm, y0: Xmm, y1: Xmm) returns (sums: Lanes4)
    ensures sums[1] == sums[3] == 0
    ensures sums[0] == HalfDistance(x0, y0, 0) + HalfDistance(x1, y1, 0)
    ensures sums[2] == HalfDistance(x0, y0, 8) + HalfDistance(x1, y1, 8)
  {
    hide BitDiff, FourDistance, ByteSum;
    var xmm4 := Pxor(x0, y0);
    var xmm6 := CountBytes(xmm4);
    var xmm5 := Pxor(x1, y1);
    var odd := CountBytes(xmm5);
    ghost var even := xmm6;
    xmm6 := Paddb(xmm6, odd);
    forall i | 0 <= i < 16 ensures xmm6[i] as int == BitDiff(x0[i], y0[i]) + BitDiff(x1[i], y1[i]) {
      hide Counted, Xor, Plus, PopCount;
      DiffIsCount(x0[i], y0[i]);
      DiffIsCount(x1[i], y1[i]);
      NoByteOverflows(even[i], odd[i], xmm4[i], xmm5[i]);
    }
    HalfSum(xmm6, x0, x1, y0, y1, 0);
    HalfSum(xmm6, x0, x1, y0, y1, 8);
    sums := PsadbwZero(xmm6);
  }

  /** The two lanes that are ever filled hold, wrapped, what makes up the distance so far. */
  predicate Accumulated(xmm0: Lanes4, low: nat, high: nat, distance: nat) {
    xmm0[0] == Wrap(low) && xmm0[2] == Wrap(high) && low + high == distance
  }

  lemma AccumulateBlock(xmm0: Lanes4, sums: Lanes4, low: nat, high: nat, distance: nat)
    requires Accumulated(xmm0, low, high, distance)
    ensures Accumulated(Paddd(xmm0, sums), low + sums[0], high + sums[2], distance + sums[0] + sums[2])
  {
    hide Wrap;
    WrapAdd(low, sums[0]);
    WrapAdd(high, sums[2]);
  }

  lemma LanesJoined(xmm0: Lanes4, low: nat, high: nat, distance: nat)
    requires Accumulated(xmm0, low, high, distance)
    ensures Paddd(xmm0, PshufdAA(xmm0))[0] == Wrap(distance)
  {
    hide Wrap;
    WrapAdd(low, Wrap(high));
    WrapAdd(low, high);
  }

  function Loaded(m: seq<bv8>, p: int): Xmm
    requires 0 <= p && p + 16 <= |m|
  {
    m[p..p + 16]
  }

  lemma BlockDistance(a: seq<bv8>, b: seq<bv8>, p: int, q: int)
    requires 0 <= p && 0 <= q && p + 32 <= |a| && q + 32 <= |b|
    ensures Distance(a[p..p + 32], b[q..q + 32])
         == HalfDistance(Loaded(a, p), Loaded(b, q), 0) + HalfDistance(Loaded(a, p), Loaded(b, q), 8)
          + HalfDistance(Loaded(a, p + 16), Loaded(b, q + 16), 0)
            + HalfDistance(Loaded(a, p + 16), Loaded(b, q + 16), 8)
  {
    hide Distance, HalfDistance;
    DistanceOn(a, b, p, q, 16, 16);
    HalvesAreDistance(Loaded(a, p), Loaded(b, q));
    HalvesAreDistance(Loaded(a, p + 16), Loaded(b, q + 16));
  }

  /** The second buffer is addressed by its distance from the first. */
  method HammingDistanceSsse3(a: array<bv8>, p: int, b: array<bv8>, q: int, count: int) returns (diff: nat)
    requires 0 < count && count % 32 == 0 && 0 <= p && p + count <= a.Length && 0 <= q && q + count <= b.Length
    ensures diff == Wrap(Distance(a[..][p..p + count], b[..][q..q + count]))
  {
    hide Distance, HalfDistance, Wrap, Accumulated, Paddd, PshufdAA, Loaded;
    var xmm0: Lanes4 := [0, 0, 0, 0];
    ghost var low, high := 0, 0;
    var delta := q - p;
    var at, n := p, count;
    Nothing(a[..], b[..], p, q);
    assert Accumulated(xmm0, 0, 0, 0) by {
      NothingYet(xmm0);
    }
    while n > 0
      invariant 0 <= n <= count && n % 32 == 0 && at == p + (count - n)
      invariant Accumulated(xmm0, low, high, Distance(a[..][p..at], b[..][q..at + delta]))
    {
      var sums :=
        HammingBlock(Loaded(a[..], at), Loaded(a[..], at + 16), Loaded(b[..], at + delta),
                     Loaded(b[..], at + delta + 16));
      BlockDistance(a[..], b[..], at, at + delta);
      DistanceOn(a[..], b[..], p, q, at - p, 32);
      AccumulateBlock(xmm0, sums, low, high, Distance(a[..][p..at], b[..][q..at + delta]));
      low, high := low + sums[0], high + sums[2];
      xmm0 := Paddd(xmm0, sums);
      at := at + 32;
      n := n - 32;
    }
    LanesJoined(xmm0, low, high, Distance(a[..][p..at], b[..][q..at + delta]));
    var xmm1 := PshufdAA(xmm0);
    xmm0 := Paddd(xmm0, xmm1);
    diff := xmm0[0];
  }

  lemma NothingYet(xmm0: Lanes4)
    requires xmm0[0] == xmm0[2] == 0
    ensures Accumulated(xmm0, 0, 0, 0)
  {
  }

  // ----- HammingDistance_NEON: eight sixteen-bit lanes

  const TWO16: int := 0x1_0000

  type Lanes8 = r: seq<nat> | |r| == 8 witness seq(8, _ => 0)
  type Counts16 = r: seq<nat> | |r| == 16 witness seq(16, _ => 0)

  function Cnt(x: Xmm): Counts16 {
    seq(16, i requires 0 <= i < 16 => PopCount(x[i]))
  }

  function AddBytes(x: Counts16, y: Counts16): Counts16 {
    seq(16, i requires 0 <= i < 16 => (x[i] + y[i]) % 256)
  }

  /** uadalp: each lane takes in two neighbouring bytes. */
  function Uadalp(acc: Lanes8, x: Counts16): Lanes8 {
    seq(8, j requires 0 <= j < 8 => (acc[j] + x[2 * j] + x[2 * j + 1]) % TWO16)
  }

  function Uaddlv(x: Lanes8): nat {
    x[0] + x[1] + x[2] + x[3] + x[4] + x[5] + x[6] + x[7]
  }

  /** What one block adds to lane j. */
  function BlockLane(a: seq<bv8>, b: seq<bv8>, p: int, j: int): nat
    requires 0 <= p && p + 32 <= |a| && p + 32 <= |b| && 0 <= j < 8
  {
    BitDiff(a[p + 2 * j], b[p + 2 * j]) + BitDiff(a[p + 16 + 2 * j], b[p + 16 + 2 * j])
    + BitDiff(a[p + 2 * j + 1], b[p + 2 * j + 1]) + BitDiff(a[p + 17 + 2 * j], b[p + 17 + 2 * j])
  }

  /** What lane j would hold after n blocks if it were wide enough. */
  function LaneTotal(a: seq<bv8>, b: seq<bv8>, j: int, n: nat): nat
    requires 32 * n <= |a| && 32 * n <= |b| && 0 <= j < 8
  {
    if n == 0 then 0 else LaneTotal(a, b, j, n - 1) + BlockLane(a, b, 32 * (n - 1), j)
  }

  function LaneKept(a: seq<bv8>, b: seq<bv8>, j: int, n: nat): nat
    requires 32 * n <= |a| && 32 * n <= |b| && 0 <= j < 8
  {
    LaneTotal(a, b, j, n) % TWO16
  }

  /** What the kernel returns on whole buffers of n blocks. */
  function NeonDistance(a: seq<bv8>, b: seq<bv8>, n: nat): nat
    requires 32 * n <= |a| && 32 * n <= |b|
  {
    LaneKept(a, b, 0, n) + LaneKept(a, b, 1, n) + LaneKept(a, b, 2, n) + LaneKept(a, b, 3, n)
    + LaneKept(a, b, 4, n) + LaneKept(a, b, 5, n) + LaneKept(a, b, 6, n) + LaneKept(a, b, 7, n)
  }

  lemma LaneStep(acc: nat, total: nat, x: nat, y: nat)
    requires acc == total % TWO16
    ensures (acc + x + y) % TWO16 == (total + (x + y)) % TWO16
  {
    LaneMultiple(acc + x + y, total / TWO16);
  }

  lemma LaneMultiple(n: nat, k: nat)
    ensures (n + TWO16 * k) % TWO16 == n % TWO16
  {
  }

  lemma NoCountWraps(x: bv8, y: bv8, z: bv8, w: bv8)
    ensures (BitDiff(x, y) + BitDiff(z, w)) % 256 == BitDiff(x, y) + BitDiff(z, w)
  {
    hide BitDiff;
    BitDiffBound(x, y);
    BitDiffBound(z, w);
  }

  /** Byte i after the two counts are added. */
  lemma CountAt(x0: Xmm, x1: Xmm, y0: Xmm, y1: Xmm, i: nat)
    requires i < 16
    ensures AddBytes(Cnt(Pxor(x0, y0)), Cnt(Pxor(x1, y1)))[i] == BitDiff(x0[i], y0[i]) + BitDiff(x1[i], y1[i])
  {
    hide PopCount, Xor, BitDiff;
    DiffIsCount(x0[i], y0[i]);
    DiffIsCount(x1[i], y1[i]);
    NoCountWraps(x0[i], y0[i], x1[i], y1[i]);
  }

  function BlockCounts(a: seq<bv8>, b: seq<bv8>, p: int): Counts16
    requires 0 <= p && p + 32 <= |a| && p + 32 <= |b|
  {
    AddBytes(Cnt(Pxor(Loaded(a, p), Loaded(b, p))), Cnt(Pxor(Loaded(a, p + 16), Loaded(b, p + 16))))
  }

  lemma BlockLaneCounted(a: seq<bv8>, b: seq<bv8>, p: int, j: nat)
    requires 0 <= p && p + 32 <= |a| && p + 32 <= |b| && j < 8
    ensures BlockCounts(a, b, p)[2 * j] + BlockCounts(a, b, p)[2 * j + 1] == BlockLane(a, b, p, j)
  {
    hide AddBytes, Cnt, Pxor, BitDiff;
    CountAt(Loaded(a, p), Loaded(a, p + 16), Loaded(b, p), Loaded(b, p + 16), 2 * j);
    CountAt(Loaded(a, p), Loaded(a, p + 16), Loaded(b, p), Loaded(b, p + 16), 2 * j + 1);
  }

  lemma LaneAfter(a: seq<bv8>, b: seq<bv8>, n: nat, acc: Lanes8, j: nat)
    requires 32 * n + 32 <= |a| && 32 * n + 32 <= |b| && j < 8
    requires acc[j] == LaneKept(a, b, j, n)
    ensures Uadalp(acc, BlockCounts(a, b, 32 * n))[j] == LaneKept(a, b, j, n + 1)
  {
    hide BlockCounts, BlockLane;
    BlockLaneCounted(a, b, 32 * n, j);
    LaneStep(acc[j], LaneTotal(a, b, j, n), BlockCounts(a, b, 32 * n)[2 * j], BlockCounts(a, b, 32 * n)[2 * j + 1]);
  }

  /** One pass of the NEON loop. */
  method NeonBlock(a: seq<bv8>, b: seq<bv8>, n: nat, acc: Lanes8) returns (v4: Lanes8)
    requires 32 * n + 32 <= |a| && 32 * n + 32 <= |b|
    requires forall j | 0 <= j < 8 :: acc[j] == LaneKept(a, b, j, n)
    ensures forall j | 0 <= j < 8 :: v4[j] == LaneKept(a, b, j, n + 1)
  {
    hide Loaded, Pxor, Cnt, AddBytes, Uadalp, LaneKept;
    var v0, v1 := Loaded(a, 32 * n), Loaded(a, 32 * n + 16);
    var v2, v3 := Loaded(b, 32 * n), Loaded(b, 32 * n + 16);
    v0 := Pxor(v0, v2);
    v1 := Pxor(v1, v3);
    var c0 := Cnt(v0);
    var c1 := Cnt(v1);
    c0 := AddBytes(c0, c1);
    v4 := Uadalp(acc, c0);
    forall j | 0 <= j < 8 ensures v4[j] == LaneKept(a, b, j, n + 1) {
      LaneAfter(a, b, n, acc, j);
    }
  }

  lemma DiffIsCount(x: bv8, y: bv8)
    ensures BitDiff(x, y) == PopCount(Xor(x, y))
  {
  }

  /** The kernel as it stands: sixteen-bit lanes, whatever the size. */
  method HammingDistanceNeon(a: array<bv8>, p: int, b: array<bv8>, q: int, count: int) returns (diff: nat)
    requires 0 < count && count % 32 == 0 && 0 <= p && p + count <= a.Length && 0 <= q && q + count <= b.Length
    ensures diff == NeonDistance(a[..][p..p + count], b[..][q..q + count], count / 32)
  {
    hide LaneKept;
    ghost var x, y := a[..][p..p + count], b[..][q..q + count];
    var v4: Lanes8 := [0, 0, 0, 0, 0, 0, 0, 0];
    var done, n := 0, count;
    forall j | 0 <= j < 8 ensures v4[j] == LaneKept(x, y, j, 0) {
      EmptyLane(x, y, j);
    }
    while n > 0
      invariant 0 <= n <= count && n % 32 == 0 && 0 <= done && 32 * done == count - n
      invariant forall j | 0 <= j < 8 :: v4[j] == LaneKept(x, y, j, done)
    {
      v4 := NeonBlock(a[..][p..p + count], b[..][q..q + count], done, v4);
      done := done + 1;
      n := n - 32;
    }
    diff := Uaddlv(v4);
  }

  lemma EmptyLane(a: seq<bv8>, b: seq<bv8>, j: nat)
    requires j < 8
    ensures LaneKept(a, b, j, 0) == 0
  {
  }

  // ----- when the sixteen bits suffice

  lemma {:induction false} LaneBound(a: seq<bv8>, b: seq<bv8>, j: nat, n: nat)
    requires 32 * n <= |a| && 32 * n <= |b| && j < 8
    ensures LaneTotal(a, b, j, n) <= 32 * n
  {
    hide BitDiff;
    if n > 0 {
      var p := 32 * (n - 1);
      LaneBound(a, b, j, n - 1);
      BitDiffBound(a[p + 2 * j], b[p + 2 * j]);
      BitDiffBound(a[p + 16 + 2 * j], b[p + 16 + 2 * j]);
      BitDiffBound(a[p + 2 * j + 1], b[p + 2 * j + 1]);
      BitDiffBound(a[p + 17 + 2 * j], b[p + 17 + 2 * j]);
    }
  }

  function AllLanes(a: seq<bv8>, b: seq<bv8>, n: nat): nat
    requires 32 * n <= |a| && 32 * n <= |b|
  {
    LaneTotal(a, b, 0, n) + LaneTotal(a, b, 1, n) + LaneTotal(a, b, 2, n) + LaneTotal(a, b, 3, n)
    + LaneTotal(a, b, 4, n) + LaneTotal(a, b, 5, n) + LaneTotal(a, b, 6, n) + LaneTotal(a, b, 7, n)
  }

  function AllBlockLanes(a: seq<bv8>, b: seq<bv8>, p: int): nat
    requires 0 <= p && p + 32 <= |a| && p + 32 <= |b|
  {
    BlockLane(a, b, p, 0) + BlockLane(a, b, p, 1) + BlockLane(a, b, p, 2) + BlockLane(a, b, p, 3)
    + BlockLane(a, b, p, 4) + BlockLane(a, b, p, 5) + BlockLane(a, b, p, 6) + BlockLane(a, b, p, 7)
  }

  /** Two neighbouring lanes take four bytes of each register. */
  lemma TwoLanes(a: seq<bv8>, b: seq<bv8>, p: int, j: nat)
    requires 0 <= p && p + 32 <= |a| && p + 32 <= |b| && j < 7
    ensures BlockLane(a, b, p, j) + BlockLane(a, b, p, j + 1)
         == FourDistance(Loaded(a, p), Loaded(b, p), 2 * j) + FourDistance(Loaded(a, p + 16), Loaded(b, p + 16), 2 * j)
  {
    hide BitDiff, FourDistance, Loaded;
    FourLoaded(a, b, p, 2 * j);
    FourLoaded(a, b, p + 16, 2 * j);
  }

  lemma FourLoaded(a: seq<bv8>, b: seq<bv8>, p: int, i: nat)
    requires 0 <= p && p + 16 <= |a| && p + 16 <= |b| && i <= 12
    ensures FourDistance(Loaded(a, p), Loaded(b, p), i)
         == BitDiff(a[p + i], b[p + i]) + BitDiff(a[p + i + 1], b[p + i + 1]) + BitDiff(a[p + i + 2], b[p + i + 2])
           + BitDiff(a[p + i + 3], b[p + i + 3])
  {
    hide BitDiff;
  }

  lemma BlockLanesAreDistance(a: seq<bv8>, b: seq<bv8>, p: int)
    requires 0 <= p && p + 32 <= |a| && p + 32 <= |b|
    ensures AllBlockLanes(a, b, p) == Distance(a[p..p + 32], b[p..p + 32])
  {
    hide Distance, BlockLane, FourDistance, Loaded;
    BlockDistance(a, b, p, p);
    TwoLanes(a, b, p, 0);
    TwoLanes(a, b, p, 2);
    TwoLanes(a, b, p, 4);
    TwoLanes(a, b, p, 6);
  }

  /** No bit is counted twice and none is left out: the eight lanes share the distance. */
  lemma {:induction false} LanesShareDistance(a: seq<bv8>, b: seq<bv8>, n: nat)
    requires 32 * n <= |a| && 32 * n <= |b|
    ensures AllLanes(a, b, n) == Distance(a[..32 * n], b[..32 * n])
  {
    hide Distance, BlockLane;
    if n == 0 {
      Nothing(a, b, 0, 0);
    } else {
      LanesShareDistance(a, b, n - 1);
      BlockLanesAreDistance(a, b, 32 * (n - 1));
      DistanceOn(a, b, 0, 0, 32 * (n - 1), 32);
    }
  }

  lemma LaneFits(a: seq<bv8>, b: seq<bv8>, j: nat, n: nat)
    requires 32 * n <= |a| && 32 * n <= |b| && j < 8 && n < 2048
    ensures LaneKept(a, b, j, n) == LaneTotal(a, b, j, n)
  {
    hide LaneTotal;
    LaneBound(a, b, j, n);
  }

  lemma NeonExact(a: seq<bv8>, b: seq<bv8>, n: nat)
    requires |a| == |b| == 32 * n && n < 2048
    ensures NeonDistance(a, b, n) == Distance(a, b)
  {
    hide Distance, LaneTotal, LaneKept;
    LaneFits(a, b, 0, n); LaneFits(a, b, 1, n); LaneFits(a, b, 2, n); LaneFits(a, b, 3, n);
    LaneFits(a, b, 4, n); LaneFits(a, b, 5, n); LaneFits(a, b, 6, n); LaneFits(a, b, 7, n);
    LanesShareDistance(a, b, n);
    assert a[..32 * n] == a && b[..32 * n] == b;
  }

  function Filled(v: bv8, n: nat): seq<bv8> {
    seq(n, _ => v)
  }

  lemma {:induction false} FullLane(m: nat, j: nat, n: nat)
    requires 32 * n <= m && j < 8
    ensures LaneTotal(Filled(0, m), Filled(255, m), j, n) == 32 * n
  {
    hide BlockLane, Filled;
    if n > 0 {
      FullLane(m, j, n - 1);
      FullBlock(m, 32 * (n - 1), j);
    }
  }

  lemma FullBlock(m: nat, p: nat, j: nat)
    requires p + 32 <= m && j < 8
    ensures BlockLane(Filled(0, m), Filled(255, m), p, j) == 32
  {
    hide BitDiff;
    AllBits();
  }

  lemma AllBits()
    ensures BitDiff(0, 255) == 8
  {
  }

  /** On opposite buffers every lane is as full as it can get. */
  lemma NeonWraps(n: nat)
    requires n >= 2048
    ensures NeonDistance(Filled(0, 32 * n), Filled(255, 32 * n), n) != Distance(Filled(0, 32 * n), Filled(255, 32 * n))
  {
    hide Distance, LaneTotal;
    var m := 32 * n;
    FullLane(m, 0, n); FullLane(m, 1, n); FullLane(m, 2, n); FullLane(m, 3, n);
    FullLane(m, 4, n); FullLane(m, 5, n); FullLane(m, 6, n); FullLane(m, 7, n);
    LanesShareDistance(Filled(0, m), Filled(255, m), n);
    assert Filled(0, m)[..m] == Filled(0, m) && Filled(255, m)[..m] == Filled(255, m);
  }

  /** The kernel is right on every pair of buffers of n blocks exactly below 65536 bytes. */
  lemma NeonLimit(n: nat)
    ensures (forall a: seq<bv8>, b: seq<bv8> | |a| == |b| == 32 * n :: NeonDistance(a, b, n) == Distance(a, b))
      <==> 32 * n < 65536
  {
    hide NeonDistance, Distance;
    if n < 2048 {
      forall a: seq<bv8>, b: seq<bv8> | |a| == |b| == 32 * n ensures NeonDistance(a, b, n) == Distance(a, b) {
        NeonExact(a, b, n);
      }
    } else {
      NeonWraps(n);
    }
  }

  // ----- ComputeHammingDistance

  datatype Kernel = C | Ssse3 | Neon

  /** One call through the kernel pointer: a block is small enough for every counter. */
  method HammingPart(a: array<bv8>, p: int, b: array<bv8>, q: int, count: int, kernel: Kernel) returns (diff: nat)
    requires 0 < count <= 32768 && count % 32 == 0 && 0 <= p && p + count <= a.Length && 0 <= q && q + count <= b.Length
    ensures diff == Distance(a[..][p..p + count], b[..][q..q + count])
  {
    hide Distance, Wrap, NeonDistance;
    DistanceBound(a[..][p..p + count], b[..][q..q + count]);
    WrapSmall(Distance(a[..][p..p + count], b[..][q..q + count]));
    match kernel {
      case C => diff := HammingDistanceC(a, p, b, q, count);
      case Ssse3 => diff := HammingDistanceSsse3(a, p, b, q, count);
      case Neon =>
        NeonExact(a[..][p..p + count], b[..][q..q + count], count / 32);
        diff := HammingDistanceNeon(a, p, b, q, count);
    }
  }

  /** Adding the distance of the next part to that of everything before it. */
  method AddPart(a: array<bv8>, b: array<bv8>, p: nat, count: nat, kernel: Kernel, soFar: nat) returns (diff: nat)
    requires p + count <= a.Length && p + count <= b.Length && soFar == Distance(a[..][0..p], b[..][0..p])
    requires count <= 32768 && count % 32 == 0
    ensures diff == Distance(a[..][0..p + count], b[..][0..p + count])
  {
    hide Distance;
    diff := soFar;
    if count != 0 {
      DistanceOn(a[..], b[..], 0, 0, p, count);
      var d := HammingPart(a, p, b, p, count, kernel);
      diff := diff + d;
    }
  }

  method AddRest(a: array<bv8>, b: array<bv8>, p: nat, count: nat, soFar: nat) returns (diff: nat)
    requires p + count <= a.Length && p + count <= b.Length && soFar == Distance(a[..][0..p], b[..][0..p])
    requires count < 64
    ensures diff == Distance(a[..][0..p + count], b[..][0..p + count])
  {
    hide Distance, Wrap;
    diff := soFar;
    if count != 0 {
      DistanceOn(a[..], b[..], 0, 0, p, count);
      DistanceBound(a[..][p..p + count], b[..][p..p + count]);
      WrapSmall(Distance(a[..][p..p + count], b[..][p..p + count]));
      var d := HammingDistanceC(a, p, b, p, count);
      diff := diff + d;
    }
  }

  /** Blocks of 32768 bytes, then a multiple of 64, then the rest in C. */
  method ComputeHammingDistance(a: array<bv8>, b: array<bv8>, count: nat, kernel: Kernel) returns (diff: nat)
    requires count <= a.Length && count <= b.Length
    ensures diff == Distance(a[..count], b[..count])
    ensures diff <= 8 * count
    ensures diff == 0 <==> a[..count] == b[..count]
  {
    hide *;
    Nothing(a[..], b[..], 0, 0);
    diff := 0;
    var p, k := 0, 0;
    while p < count - 32767
      invariant 0 <= k && p == 32768 * k && p <= count && diff == Distance(a[..][0..p], b[..][0..p])
    {
      diff := AddPart(a, b, p, 32768, kernel, diff);
      p, k := p + 32768, k + 1;
    }
    Parts(count, 32768, 512, 64, k, count - 32768 * k);
    WholeHalves((count - 32768 * k) / 64, 32);
    var remainder := (count % 32768) / 64 * 64;
    diff := AddPart(a, b, p, remainder, kernel, diff);
    p := p + remainder;
    diff := AddRest(a, b, p, count % 64, diff);
    DistanceBound(a[..][0..count], b[..][0..count]);
    assert a[..count] == a[..][0..count] && b[..count] == b[..][0..count];
  }
}
