/** compare_common.cc, compare_gcc.cc and compare.cc: the djb2 hash of a buffer. */
module Hash {
  import opened Counters
  import opened Views

  type uint32 = x: int | 0 <= x < TWO32

  // ----- what the hash is

  function Step(h: uint32, b: byte): uint32 {
    (h * 33 + b) % TWO32
  }

  /** hash * 33 + byte over the whole buffer, modulo 2^32. */
  function Djb2(s: seq<byte>, seed: uint32): uint32 {
    if s == [] then seed else Step(Djb2(s[..|s| - 1], seed), s[|s| - 1])
  }

  /** Hashing may stop and go on with the value reached as the next seed. */
  lemma {:induction false} HashConcat(a: seq<byte>, b: seq<byte>, seed: uint32)
    ensures Djb2(a + b, seed) == Djb2(b, Djb2(a, seed))
    decreases |b|
  {
    if b == [] {
      assert a + b == a;
    } else {
      assert (a + b)[..|a + b| - 1] == a + b[..|b| - 1];
      HashConcat(a, b[..|b| - 1], seed);
    }
  }

  function Flatten(chunks: seq<seq<byte>>): seq<byte> {
    if chunks == [] then [] else chunks[0] + Flatten(chunks[1..])
  }

  /** A file hashed read by read, as the comparison tool does. */
  function HashChunks(chunks: seq<seq<byte>>, seed: uint32): uint32 {
    if chunks == [] then seed else HashChunks(chunks[1..], Djb2(chunks[0], seed))
  }

  /** The sizes of the reads do not matter. */
  lemma {:induction false} ChunksDoNotMatter(chunks: seq<seq<byte>>, seed: uint32)
    ensures HashChunks(chunks, seed) == Djb2(Flatten(chunks), seed)
  {
    if chunks != [] {
      HashConcat(chunks[0], Flatten(chunks[1..]), seed);
      ChunksDoNotMatter(chunks[1..], Djb2(chunks[0], seed));
    }
  }

  // ----- collisions that cannot happen

  /** 33 has an inverse modulo 2^32, so a step loses nothing of the hash before it. */
  lemma StepInjective(g: uint32, h: uint32, b: byte)
    ensures Step(g, b) == Step(h, b) ==> g == h
  {
    var p, q := (g * 33 + b) / TWO32, (h * 33 + b) / TWO32;
    if Step(g, b) == Step(h, b) {
      assert (g - h) * 33 == TWO32 * (p - q);
      assert (g - h) * (33 * 1041204193) == TWO32 * ((p - q) * 1041204193);
      assert g - h == TWO32 * ((p - q) * 1041204193 - 8 * (g - h));
    }
  }

  lemma StepTellsBytes(h: uint32, b: byte, c: byte)
    ensures Step(h, b) == Step(h, c) ==> b == c
  {
  }

  /** Different seeds give different hashes of every buffer. */
  lemma {:induction false} SeedMatters(s: seq<byte>, g: uint32, h: uint32)
    ensures Djb2(s, g) == Djb2(s, h) <==> g == h
    decreases |s|
  {
    if s != [] {
      SeedMatters(s[..|s| - 1], g, h);
      StepInjective(Djb2(s[..|s| - 1], g), Djb2(s[..|s| - 1], h), s[|s| - 1]);
    }
  }

  /** Changing one byte, anywhere in a buffer of any length, always changes the hash. */
  lemma OneByteMatters(s: seq<byte>, k: nat, b: byte, seed: uint32)
    requires k < |s|
    ensures Djb2(s[k := b], seed) == Djb2(s, seed) <==> b == s[k]
  {
    var front, back := s[..k], s[k + 1..];
    assert s == front + [s[k]] + back && s[k := b] == front + [b] + back;
    HashConcat(front + [s[k]], back, seed);
    HashConcat(front + [b], back, seed);
    assert (front + [b])[..k] == front && (front + [s[k]])[..k] == front;
    SeedMatters(back, Djb2(front + [b], seed), Djb2(front + [s[k]], seed));
    StepTellsBytes(Djb2(front, seed), b, s[k]);
  }

  // ----- HashDjb2_C

  /** hash += (hash << 5) + byte, in 32 bits. */
  lemma ShiftAddStep(h: uint32, b: byte)
    ensures (h + ((h * 32) % TWO32 + b) % TWO32) % TWO32 == Step(h, b)
  {
    var q := h * 32 / TWO32;
    var r := ((h * 32) % TWO32 + b) / TWO32;
    assert h + ((h * 32) % TWO32 + b) % TWO32 == h * 33 + b - TWO32 * (q + r);
    WrapMultiple(h * 33 + b, -(q + r));
  }

  lemma HashOneMore(m: seq<byte>, s: int, e: int, seed: uint32)
    requires 0 <= s <= e < |m|
    ensures Djb2(m[s..e + 1], seed) == Step(Djb2(m[s..e], seed), m[e])
  {
    assert m[s..e + 1][..e - s] == m[s..e];
  }

  lemma HashOn(m: seq<byte>, s: int, p: int, e: int, seed: uint32)
    requires 0 <= s <= p <= e <= |m|
    ensures Djb2(m[s..e], seed) == Djb2(m[p..e], Djb2(m[s..p], seed))
  {
    HashConcat(m[s..p], m[p..e], seed);
    assert m[s..p] + m[p..e] == m[s..e];
  }

  method HashDjb2C(src: array<byte>, s: int, count: int, seed: uint32) returns (hash: uint32)
    requires 0 <= count && 0 <= s && s + count <= src.Length
    ensures hash == Djb2(src[..][s..s + count], seed)
  {
    hash := seed;
    var i := 0;
    while i < count
      invariant 0 <= i <= count && hash == Djb2(src[..][s..s + i], seed)
    {
      HashOneMore(src[..], s, s + i, seed);
      ShiftAddStep(hash, src[s + i]);
      hash := (hash + ((hash * 32) % TWO32 + src[s + i]) % TWO32) % TWO32;
      i := i + 1;
    }
  }

  // ----- HashDjb2_SSE41, register by register

  type Bytes16 = r: seq<byte> | |r| == 16 witness seq(16, _ => 0)
  type Words8 = r: seq<int> | |r| == 8 witness seq(8, _ => 0)
  type Lanes4 = r: seq<uint32> | |r| == 4 witness seq(4, _ => 0)

  function Word(low: int, high: int): int {
    low + 256 * high
  }

  function Dword(low: int, high: int): uint32 {
    (low + 65536 * high) % TWO32
  }

  function Punpcklbw(a: Bytes16, b: Bytes16): Words8 {
    [Word(a[0], b[0]), Word(a[1], b[1]), Word(a[2], b[2]), Word(a[3], b[3]),
     Word(a[4], b[4]), Word(a[5], b[5]), Word(a[6], b[6]), Word(a[7], b[7])]
  }

  function Punpckhbw(a: Bytes16, b: Bytes16): Words8 {
    [Word(a[8], b[8]), Word(a[9], b[9]), Word(a[10], b[10]), Word(a[11], b[11]),
     Word(a[12], b[12]), Word(a[13], b[13]), Word(a[14], b[14]), Word(a[15], b[15])]
  }

  function Punpcklwd(a: Words8, b: Words8): Lanes4 {
    [Dword(a[0], b[0]), Dword(a[1], b[1]), Dword(a[2], b[2]), Dword(a[3], b[3])]
  }

  function Punpckhwd(a: Words8, b: Words8): Lanes4 {
    [Dword(a[4], b[4]), Dword(a[5], b[5]), Dword(a[6], b[6]), Dword(a[7], b[7])]
  }

  function Times(a: int, b: int): int {
    a * b
  }

  function MulLane(a: uint32, b: uint32): uint32 {
    Times(b, a) % TWO32
  }

  function AddLane(a: uint32, b: uint32): uint32 {
    (a + b) % TWO32
  }

  function Pmulld(a: Lanes4, b: Lanes4): Lanes4 {
    [MulLane(a[0], b[0]), MulLane(a[1], b[1]), MulLane(a[2], b[2]), MulLane(a[3], b[3])]
  }

  function Paddd(a: Lanes4, b: Lanes4): Lanes4 {
    [AddLane(a[0], b[0]), AddLane(a[1], b[1]), AddLane(a[2], b[2]), AddLane(a[3], b[3])]
  }

  /** pshufd $0xe and $0x1. */
  function PshufdE(a: Lanes4): Lanes4 {
    [a[2], a[3], a[0], a[0]]
  }

  function Pshufd1(a: Lanes4): Lanes4 {
    [a[1], a[0], a[0], a[0]]
  }

  const KHash16x33: Lanes4 := [0x92d9e201, 0, 0, 0]
  const KHashMul0: Lanes4 := [0x0c3525e1, 0xa3476dc1, 0x3b4039a1, 0x4f5f0981]
  const KHashMul1: Lanes4 := [0x30f35d61, 0x855cb541, 0x040a9121, 0x747c7101]
  const KHashMul2: Lanes4 := [0xec41d4e1, 0x4cfa3cc1, 0x025528a1, 0x00121881]
  const KHashMul3: Lanes4 := [0x00008c61, 0x00000441, 0x00000021, 0x00000001]

  /** Bytes i .. i + 4, one to a lane. */
  function Widened(x: Bytes16, i: int): Lanes4
    requires 0 <= i <= 12
  {
    [x[i], x[i + 1], x[i + 2], x[i + 3]]
  }

  const ZeroBytes: Bytes16 := [0, 0, 0, 0, 0, 0, 0, 0, 0, 0, 0, 0, 0, 0, 0, 0]
  const ZeroWords: Words8 := [0, 0, 0, 0, 0, 0, 0, 0]

  lemma Widen(b: byte)
    ensures Dword(Word(b, 0), 0) == b
  {
  }

  lemma UnpackLow(x: Bytes16)
    ensures Punpcklwd(Punpcklbw(x, ZeroBytes), ZeroWords) == Widened(x, 0)
    ensures Punpckhwd(Punpcklbw(x, ZeroBytes), ZeroWords) == Widened(x, 4)
  {
    Widen(x[0]); Widen(x[1]); Widen(x[2]); Widen(x[3]);
    Widen(x[4]); Widen(x[5]); Widen(x[6]); Widen(x[7]);
    hide Word, Dword;
  }

  lemma UnpackHigh(x: Bytes16)
    ensures Punpcklwd(Punpckhbw(x, ZeroBytes), ZeroWords) == Widened(x, 8)
    ensures Punpckhwd(Punpckhbw(x, ZeroBytes), ZeroWords) == Widened(x, 12)
  {
    Widen(x[8]); Widen(x[9]); Widen(x[10]); Widen(x[11]);
    Widen(x[12]); Widen(x[13]); Widen(x[14]); Widen(x[15]);
    hide Word, Dword;
  }

  /** One lane of the four products, added in the order of the three additions. */
  lemma LaneSum(p0: int, p1: int, p2: int, p3: int)
    ensures ((p3 % TWO32 + p2 % TWO32) % TWO32 + (p0 % TWO32 + p1 % TWO32) % TWO32) % TWO32
      == (p0 + p1 + p2 + p3) % TWO32
  {
    WrapAdd(p3, p2);
    WrapAdd(p0, p1);
    WrapAdd(p3 + p2, p0 + p1);
  }

  /** The two shuffles bring all four lanes together in lane 0. */
  lemma FoldLanes(a: int, b: int, c: int, d: int)
    ensures ((a % TWO32 + c % TWO32) % TWO32 + (b % TWO32 + d % TWO32) % TWO32) % TWO32 == (a + b + c + d) % TWO32
  {
    LaneSum(b, d, c, a);
    WrapAdd(a, c);
    WrapAdd(c, a);
  }

  /** What the table entries contribute, lane by lane. */
  function Lane(x: Bytes16, j: int): int
    requires 0 <= j < 4
  {
    Times(KHashMul0[j], x[j]) + Times(KHashMul1[j], x[4 + j]) + Times(KHashMul2[j], x[8 + j])
      + Times(KHashMul3[j], x[12 + j])
  }

  /** The hash without reduction. */
  function Poly(s: seq<byte>, seed: int): int {
    if s == [] then seed else Poly(s[..|s| - 1], seed) * 33 + s[|s| - 1]
  }

  lemma {:induction false} PolyMod(s: seq<byte>, seed: uint32)
    ensures Poly(s, seed) % TWO32 == Djb2(s, seed)
    decreases |s|
  {
    if s != [] {
      var p := Poly(s[..|s| - 1], seed);
      PolyMod(s[..|s| - 1], seed);
      WrapMultiple(p % TWO32 * 33 + s[|s| - 1], 33 * (p / TWO32));
    }
  }

  lemma {:induction false} PolyConcat(a: seq<byte>, b: seq<byte>, seed: int)
    ensures Poly(a + b, seed) == Poly(b, Poly(a, seed))
    decreases |b|
  {
    if b == [] {
      assert a + b == a;
    } else {
      assert (a + b)[..|a + b| - 1] == a + b[..|b| - 1];
      PolyConcat(a, b[..|b| - 1], seed);
    }
  }

  lemma PolyFour(a: byte, b: byte, c: byte, d: byte, seed: int)
    ensures Poly([a, b, c, d], seed) == 1185921 * seed + 35937 * a + 1089 * b + 33 * c + d
  {
    assert [a, b, c, d][..3] == [a, b, c] && [a, b, c][..2] == [a, b] && [a, b][..1] == [a] && [a][..0] == [];
    assert Poly([], seed) == seed;
    assert Poly([a], seed) == seed * 33 + a;
    assert Poly([a, b], seed) == (seed * 33 + a) * 33 + b;
    assert Poly([a, b, c], seed) == ((seed * 33 + a) * 33 + b) * 33 + c;
  }

  lemma PolySixteen(x: Bytes16, seed: int)
    ensures Poly(x, seed) == Times(1977985201462558877934081, seed)
      + Times(59938945498865420543457, x[0]) + Times(1816331681783800622529, x[1]) + Times(55040353993448503713, x[2])
        + Times(1667889514952984961, x[3])
      + Times(50542106513726817, x[4]) + Times(1531578985264449, x[5]) + Times(46411484401953, x[6])
        + Times(1406408618241, x[7])
      + Times(42618442977, x[8]) + Times(1291467969, x[9]) + Times(39135393, x[10]) + Times(1185921, x[11])
      + Times(35937, x[12]) + Times(1089, x[13]) + Times(33, x[14]) + x[15]
  {
    var a, b, c, d :=
      [x[0], x[1], x[2], x[3]], [x[4], x[5], x[6], x[7]], [x[8], x[9], x[10], x[11]], [x[12], x[13], x[14], x[15]];
    assert x == ((a + b) + c) + d;
    hide Poly;
    PolyConcat((a + b) + c, d, seed);
    PolyConcat(a + b, c, seed);
    PolyConcat(a, b, seed);
    PolyFour(x[0], x[1], x[2], x[3], seed);
    PolyFour(x[4], x[5], x[6], x[7], Poly(a, seed));
    PolyFour(x[8], x[9], x[10], x[11], Poly(a + b, seed));
    PolyFour(x[12], x[13], x[14], x[15], Poly((a + b) + c, seed));
  }

  /** The tables hold the powers of 33 modulo 2^32: what they leave out is a multiple of 2^32. */
  lemma TablesArePowers(x: Bytes16, seed: uint32)
    ensures (Times(seed, KHash16x33[0]) + (Lane(x, 0) + Lane(x, 1) + Lane(x, 2) + Lane(x, 3))) % TWO32 == Djb2(x, seed)
  {
    var total := Times(seed, KHash16x33[0]) + (Lane(x, 0) + Lane(x, 1) + Lane(x, 2) + Lane(x, 3));
    var q := Times(460535567594356, seed) + Times(13955623260435, x[0]) + Times(422897674558, x[1])
      + Times(12815081047, x[2]) + Times(388335789, x[3])
      + Times(11767751, x[4]) + Times(356598, x[5]) + Times(10806, x[6]) + Times(327, x[7]) + Times(9, x[8]);
    PolySixteen(x, seed);
    PolyMod(x, seed);
    hide Poly, Djb2;
    assert Poly(x, seed) == total + TWO32 * q;
    WrapMultiple(total, q);
  }

  lemma LanesHold(x: Bytes16, xmm1: Lanes4)
    requires xmm1 == Paddd(Paddd(Pmulld(Widened(x, 12), KHashMul3), Pmulld(Widened(x, 8), KHashMul2)),
                           Paddd(Pmulld(Widened(x, 0), KHashMul0), Pmulld(Widened(x, 4), KHashMul1)))
    ensures xmm1[0] == Lane(x, 0) % TWO32 && xmm1[1] == Lane(x, 1) % TWO32 && xmm1[2] == Lane(x, 2) % TWO32
    ensures xmm1[3] == Lane(x, 3) % TWO32
  {
    hide Paddd, Pmulld, Times;
    OneLane(Widened(x, 0), Widened(x, 4), Widened(x, 8), Widened(x, 12), KHashMul0, KHashMul1, KHashMul2, KHashMul3, 0);
    OneLane(Widened(x, 0), Widened(x, 4), Widened(x, 8), Widened(x, 12), KHashMul0, KHashMul1, KHashMul2, KHashMul3, 1);
    OneLane(Widened(x, 0), Widened(x, 4), Widened(x, 8), Widened(x, 12), KHashMul0, KHashMul1, KHashMul2, KHashMul3, 2);
    OneLane(Widened(x, 0), Widened(x, 4), Widened(x, 8), Widened(x, 12), KHashMul0, KHashMul1, KHashMul2, KHashMul3, 3);
  }

  lemma OneLane(a: Lanes4, b: Lanes4, c: Lanes4, d: Lanes4, ka: Lanes4, kb: Lanes4, kc: Lanes4, kd: Lanes4, j: int)
    requires 0 <= j < 4
    ensures Paddd(Paddd(Pmulld(d, kd), Pmulld(c, kc)), Paddd(Pmulld(a, ka), Pmulld(b, kb)))[j]
         == (Times(ka[j], a[j]) + Times(kb[j], b[j]) + Times(kc[j], c[j]) + Times(kd[j], d[j])) % TWO32
  {
    hide Paddd, Pmulld, Times;
    MulAt(a, ka, j);
    MulAt(b, kb, j);
    MulAt(c, kc, j);
    MulAt(d, kd, j);
    AddAt(Pmulld(d, kd), Pmulld(c, kc), j);
    AddAt(Pmulld(a, ka), Pmulld(b, kb), j);
    AddAt(Paddd(Pmulld(d, kd), Pmulld(c, kc)), Paddd(Pmulld(a, ka), Pmulld(b, kb)), j);
    LaneSum(Times(ka[j], a[j]), Times(kb[j], b[j]), Times(kc[j], c[j]), Times(kd[j], d[j]));
  }

  lemma MulAt(a: Lanes4, b: Lanes4, j: int)
    requires 0 <= j < 4
    ensures Pmulld(a, b)[j] == Times(b[j], a[j]) % TWO32
  {
    hide Times;
    if j == 0 {} else if j == 1 {} else if j == 2 {} else {}
  }

  lemma AddAt(a: Lanes4, b: Lanes4, j: int)
    requires 0 <= j < 4
    ensures Paddd(a, b)[j] == (a[j] + b[j]) % TWO32
  {
    if j == 0 {} else if j == 1 {} else if j == 2 {} else {}
  }

  /** The horizontal sum: both shuffles and both additions. */
  lemma Folded(x: Lanes4, a: int, b: int, c: int, d: int)
    requires x[0] == a % TWO32 && x[1] == b % TWO32 && x[2] == c % TWO32 && x[3] == d % TWO32
    ensures Paddd(Paddd(x, PshufdE(x)), Pshufd1(Paddd(x, PshufdE(x))))[0] == (a + b + c + d) % TWO32
  {
    AddAt(x, PshufdE(x), 0);
    AddAt(x, PshufdE(x), 1);
    AddAt(Paddd(x, PshufdE(x)), Pshufd1(Paddd(x, PshufdE(x))), 0);
    FoldLanes(a, b, c, d);
    hide Paddd;
  }

  lemma Accumulated(acc: Lanes4, sum: Lanes4, total: int)
    requires sum[0] == total % TWO32
    ensures Paddd(Pmulld(acc, KHash16x33), sum)[0] == (Times(acc[0], KHash16x33[0]) + total) % TWO32
  {
    MulAt(acc, KHash16x33, 0);
    AddAt(Pmulld(acc, KHash16x33), sum, 0);
    WrapAdd(Times(acc[0], KHash16x33[0]), total);
    hide Paddd, Pmulld;
  }

  /** One pass of the vector loop.  Only lane 0 of the accumulator is meaningful; whatever the
      other lanes hold does not reach it. */
  method HashBlock(x: Bytes16, acc: Lanes4) returns (xmm0: Lanes4)
    ensures xmm0[0] == Djb2(x, acc[0])
  {
    UnpackLow(x);
    UnpackHigh(x);
    hide Punpcklbw, Punpckhbw, Punpcklwd, Punpckhwd, Widened, Lane, Times, Pmulld, Paddd, PshufdE, Pshufd1, Djb2;
    xmm0 := Pmulld(acc, KHash16x33);
    var low := Punpcklbw(x, ZeroBytes);
    var xmm3 := Punpcklwd(low, ZeroWords);
    xmm3 := Pmulld(xmm3, KHashMul0);
    var xmm4 := Punpckhwd(low, ZeroWords);
    xmm4 := Pmulld(xmm4, KHashMul1);
    var high := Punpckhbw(x, ZeroBytes);
    var xmm2 := Punpcklwd(high, ZeroWords);
    xmm2 := Pmulld(xmm2, KHashMul2);
    var xmm1 := Punpckhwd(high, ZeroWords);
    xmm1 := Pmulld(xmm1, KHashMul3);
    xmm3 := Paddd(xmm3, xmm4);
    xmm1 := Paddd(xmm1, xmm2);
    xmm1 := Paddd(xmm1, xmm3);
    LanesHold(x, xmm1);
    Folded(xmm1, Lane(x, 0), Lane(x, 1), Lane(x, 2), Lane(x, 3));
    xmm2 := PshufdE(xmm1);
    xmm1 := Paddd(xmm1, xmm2);
    xmm2 := Pshufd1(xmm1);
    xmm1 := Paddd(xmm1, xmm2);
    Accumulated(acc, xmm1, Lane(x, 0) + Lane(x, 1) + Lane(x, 2) + Lane(x, 3));
    xmm0 := Paddd(xmm0, xmm1);
    TablesArePowers(x, acc[0]);
  }

  method HashDjb2Sse41(src: array<byte>, s: int, count: int, seed: uint32) returns (hash: uint32)
    requires 0 < count && count % 16 == 0 && 0 <= s && s + count <= src.Length
    ensures hash == Djb2(src[..][s..s + count], seed)
  {
    hide Djb2;
    assert src[..][s..s] == [];
    NothingHashed(seed);
    var xmm0: Lanes4 := [seed, 0, 0, 0];
    var p, n := s, count;
    while n > 0
      invariant 0 <= n <= count && n % 16 == 0 && p == s + (count - n)
      invariant xmm0[0] == Djb2(src[..][s..p], seed)
    {
      var xmm1: Bytes16 := src[..][p..p + 16];
      HashOn(src[..], s, p, p + 16, seed);
      xmm0 := HashBlock(xmm1, xmm0);
      p := p + 16;
      n := n - 16;
    }
    hash := xmm0[0];
  }

  // ----- HashDjb2

  /** Blocks of 32768 bytes, then whole vectors, then the last few bytes. */
  method HashDjb2(src: array<byte>, s: int, count: int, seed: uint32, hasSse41: bool) returns (hash: uint32)
    requires 0 <= count && 0 <= s && s + count <= src.Length
    ensures hash == Djb2(src[..][s..s + count], seed)
  {
    hide Djb2;
    assert src[..][s..s] == [];
    NothingHashed(seed);
    hash := seed;
    var p, n := s, count;
    while n >= 32768
      invariant 0 <= n <= count && p == s + (count - n) && hash == Djb2(src[..][s..p], seed)
    {
      hash := HashPart(src, s, p, 32768, seed, hash, hasSse41);
      p := p + 32768;
      n := n - 32768;
    }
    var remainder := n - n % 16;
    if remainder != 0 {
      hash := HashPart(src, s, p, remainder, seed, hash, hasSse41);
      p := p + remainder;
      n := n - remainder;
    }
    remainder := n % 16;
    if remainder != 0 {
      HashOn(src[..], s, p, p + remainder, seed);
      hash := HashDjb2C(src, p, remainder, hash);
    }
  }

  lemma NothingHashed(seed: uint32)
    ensures Djb2([], seed) == seed
  {
  }

  /** One call through the kernel pointer. */
  method HashPart(src: array<byte>, ghost s: int, p: int, count: int, ghost seed: uint32, soFar: uint32, hasSse41: bool)
    returns (hash: uint32)
    requires 0 < count && count % 16 == 0 && 0 <= s <= p && p + count <= src.Length
    requires soFar == Djb2(src[..][s..p], seed)
    ensures hash == Djb2(src[..][s..p + count], seed)
  {
    HashOn(src[..], s, p, p + count, seed);
    if hasSse41 {
      hash := HashDjb2Sse41(src, p, count, soFar);
    } else {
      hash := HashDjb2C(src, p, count, soFar);
    }
  }
}
