/** The ways the comparison kernels count bits: masked adds on a 32-bit word or a byte, a table of
    sixteen nibbles. */
module PopCounts {

  // ----- what is counted

  /** 1 when b has the bit m, 0 when not. */
  function Bit(b: bv8, m: bv8): nat {
    if b & m != 0 then 1 else 0
  }

  function PopCount(b: bv8): nat {
    Bit(b, 1) + Bit(b, 2) + Bit(b, 4) + Bit(b, 8) + Bit(b, 16) + Bit(b, 32) + Bit(b, 64) + Bit(b, 128)
  }

  function Xor(x: bv8, y: bv8): bv8 {
    x ^ y
  }

  /** The number of bits in which two bytes differ. */
  function BitDiff(x: bv8, y: bv8): nat {
    PopCount(Xor(x, y))
  }

  // ----- a metric on bytes

  lemma BitsBound(x: bv8)
    ensures PopCount(x) <= 8
    ensures PopCount(x) == 0 <==> x == 0
  {
  }

  lemma XorZero(x: bv8, y: bv8)
    ensures x ^ y == 0 <==> x == y
    ensures x ^ y == y ^ x
  {
  }

  lemma BitDiffBound(x: bv8, y: bv8)
    ensures BitDiff(x, y) <= 8
    ensures BitDiff(x, y) == 0 <==> x == y
    ensures BitDiff(x, y) == BitDiff(y, x)
  {
    BitsBound(x ^ y);
    XorZero(x, y);
    hide PopCount;
  }

  lemma BitTriangle(x: bv8, y: bv8, z: bv8, m: bv8)
    ensures Bit(x ^ z, m) <= Bit(x ^ y, m) + Bit(y ^ z, m)
  {
  }

  lemma BitDiffTriangle(x: bv8, y: bv8, z: bv8)
    ensures BitDiff(x, z) <= BitDiff(x, y) + BitDiff(y, z)
  {
    BitTriangle(x, y, z, 1); BitTriangle(x, y, z, 2); BitTriangle(x, y, z, 4); BitTriangle(x, y, z, 8);
    BitTriangle(x, y, z, 16); BitTriangle(x, y, z, 32); BitTriangle(x, y, z, 64); BitTriangle(x, y, z, 128);
    hide Bit;
  }

  // ----- the masked adds on one byte

  function Pairs(x: bv8): bv8 {
    x - ((x >> 1) & 0x55)
  }

  function Nibbles(u: bv8): bv8 {
    ((u >> 2) & 0x33) + (u & 0x33)
  }

  function Whole(u: bv8): bv8 {
    (u + (u >> 4)) & 0x0f
  }

  predicate Small(u: bv8) {
    u <= 8
  }

  predicate SmallHalves(u: bv8) {
    u & 0x0f <= 4 && u >> 4 <= 4
  }

  lemma ByteCounted(b: bv8)
    ensures Whole(Nibbles(Pairs(b))) as int == PopCount(b)
    ensures Small(Whole(Nibbles(Pairs(b)))) && SmallHalves(Nibbles(Pairs(b)))
  {
  }

  // ----- the masked adds on a word

  function Less32(x: bv32, y: bv32): bv32 {
    x - y
  }

  function Odds32(x: bv32): bv32 {
    (x >> 1) & 0x55555555
  }

  function Pairs32(x: bv32): bv32 {
    Less32(x, Odds32(x))
  }

  function Nibbles32(u: bv32): bv32 {
    ((u >> 2) & 0x33333333) + (u & 0x33333333)
  }

  function Bytes32(u: bv32): bv32 {
    (u + (u >> 4)) & 0x0f0f0f0f
  }

  function Sum32(u: bv32): bv32 {
    (u * 0x01010101) >> 24
  }

  /** A little-endian 32-bit load. */
  function Load32(a: bv8, b: bv8, c: bv8, d: bv8): bv32 {
    (a as bv32) | ((b as bv32) << 8) | ((c as bv32) << 16) | ((d as bv32) << 24)
  }

  function Xor32(x: bv32, y: bv32): bv32 {
    x ^ y
  }

  lemma XorByBytes(a: bv8, b: bv8, c: bv8, d: bv8, e: bv8, f: bv8, g: bv8, h: bv8)
    ensures Xor32(Load32(a, b, c, d), Load32(e, f, g, h)) == Load32(Xor(a, e), Xor(b, f), Xor(c, g), Xor(d, h))
  {
  }

  function Evens32(x: bv32): bv32 {
    x & 0x55555555
  }

  lemma EvensAndOdds(x: bv32)
    ensures Evens32(x) + (Odds32(x) + Odds32(x)) == x
  {
  }

  lemma MinusHalf(e: bv32, o: bv32)
    ensures Less32(e + (o + o), o) == e + o
  {
  }

  /** Taking the odd bits away once leaves them counted once: no borrow crosses a pair. */
  lemma PairsAdd(x: bv32)
    ensures Pairs32(x) == Evens32(x) + Odds32(x)
  {
    hide Less32, Odds32, Evens32;
    MinusHalf(Evens32(x), Odds32(x));
    EvensAndOdds(x);
  }

  /** The same word with its pairs added instead of subtracted. */
  function Added(x: bv8): bv8 {
    (x & 0x55) + ((x >> 1) & 0x55)
  }

  lemma AddedByBytes(a: bv8, b: bv8, c: bv8, d: bv8)
    ensures Evens32(Load32(a, b, c, d)) + Odds32(Load32(a, b, c, d)) == Load32(Added(a), Added(b), Added(c), Added(d))
  {
  }

  lemma AddedIsPairs(x: bv8)
    ensures Added(x) == Pairs(x)
  {
  }

  lemma PairsByBytes(a: bv8, b: bv8, c: bv8, d: bv8)
    ensures Pairs32(Load32(a, b, c, d)) == Load32(Pairs(a), Pairs(b), Pairs(c), Pairs(d))
  {
    AddedIsPairs(a);
    AddedIsPairs(b);
    AddedIsPairs(c);
    AddedIsPairs(d);
    PairsAdd(Load32(a, b, c, d));
    AddedByBytes(a, b, c, d);
    hide *;
  }

  lemma NibblesByBytes(a: bv8, b: bv8, c: bv8, d: bv8)
    ensures Nibbles32(Load32(a, b, c, d)) == Load32(Nibbles(a), Nibbles(b), Nibbles(c), Nibbles(d))
  {
  }

  lemma BytesByBytes(a: bv8, b: bv8, c: bv8, d: bv8)
    requires SmallHalves(a) && SmallHalves(b) && SmallHalves(c) && SmallHalves(d)
    ensures Bytes32(Load32(a, b, c, d)) == Load32(Whole(a), Whole(b), Whole(c), Whole(d))
  {
  }

  function Plus(a: bv8, b: bv8): bv8 {
    a + b
  }

  /** The multiplication adds the bytes in the top one. */
  lemma SumByBytes(a: bv8, b: bv8, c: bv8, d: bv8)
    requires Small(a) && Small(b) && Small(c) && Small(d)
    ensures Sum32(Load32(a, b, c, d)) == Plus(Plus(Plus(a, b), c), d) as bv32
  {
  }

  predicate Room(a: bv8) {
    a <= 24
  }

  lemma SumsHaveRoom(a: bv8, b: bv8, c: bv8)
    requires Small(a) && Small(b) && Small(c)
    ensures Room(a) && Room(Plus(a, b)) && Room(Plus(Plus(a, b), c))
  {
  }

  lemma PlusIsSum(a: bv8, b: bv8)
    requires Room(a) && Small(b)
    ensures Plus(a, b) as int == (a as int) + (b as int)
  {
    assert a as int <= 24 && b as int <= 8;
    assert (a + b) as int <= 32;
  }

  lemma Extended(a: bv8)
    ensures (a as bv32) as int == a as int
  {
  }

  lemma SmallSum(a: bv8, b: bv8, c: bv8, d: bv8)
    requires Small(a) && Small(b) && Small(c) && Small(d)
    ensures Plus(Plus(Plus(a, b), c), d) as bv32 as int == (a as int) + (b as int) + (c as int) + (d as int)
  {
    hide *;
    SumsHaveRoom(a, b, c);
    PlusIsSum(a, b);
    PlusIsSum(Plus(a, b), c);
    PlusIsSum(Plus(Plus(a, b), c), d);
    Extended(Plus(Plus(Plus(a, b), c), d));
  }

  /** The multiply and shift bring the four byte counts of a word together. */
  lemma WordCounted(a: bv8, b: bv8, c: bv8, d: bv8)
    ensures Sum32(Bytes32(Nibbles32(Pairs32(Load32(a, b, c, d))))) as int
      == PopCount(a) + PopCount(b) + PopCount(c) + PopCount(d)
  {
    ByteCounted(a);
    ByteCounted(b);
    ByteCounted(c);
    ByteCounted(d);
    hide *;
    PairsByBytes(a, b, c, d);
    NibblesByBytes(Pairs(a), Pairs(b), Pairs(c), Pairs(d));
    BytesByBytes(Nibbles(Pairs(a)), Nibbles(Pairs(b)), Nibbles(Pairs(c)), Nibbles(Pairs(d)));
    SumByBytes(Whole(Nibbles(Pairs(a))), Whole(Nibbles(Pairs(b))), Whole(Nibbles(Pairs(c))), Whole(Nibbles(Pairs(d))));
    SmallSum(Whole(Nibbles(Pairs(a))), Whole(Nibbles(Pairs(b))), Whole(Nibbles(Pairs(c))), Whole(Nibbles(Pairs(d))));
  }

  // ----- one byte in a word

  /** The byte masks, applied in 32 bits. */
  function TailCount(x: bv32): bv32 {
    var u := x - ((x >> 1) & 0x55);
    var v := ((u >> 2) & 0x33) + (u & 0x33);
    (v + (v >> 4)) & 0x0f
  }

  lemma TailIsByte(b: bv8)
    ensures TailCount(b as bv32) == Whole(Nibbles(Pairs(b))) as bv32
  {
  }

  lemma TailCounted(b: bv8)
    ensures TailCount(b as bv32) as int == PopCount(b)
  {
    hide *;
    TailIsByte(b);
    ByteCounted(b);
    Extended(Whole(Nibbles(Pairs(b))));
  }

  // ----- the table of nibbles

  const KBitCount: seq<bv8> := [0, 1, 1, 2, 1, 2, 2, 3, 1, 2, 2, 3, 2, 3, 3, 4]

  /** One byte of pshufb: an index with its top bit set gives zero. */
  function Shuffled(table: seq<bv8>, i: bv8): bv8
    requires |table| == 16
  {
    if i & 0x80 != 0 then 0 else table[Index(i)]
  }

  function Index(i: bv8): (k: int)
    ensures 0 <= k < 16
  {
    var k := i & 0x0f;
    assert k <= 15;
    k as int
  }

  function NibbleCount(n: bv8): bv8 {
    (n & 1) + ((n >> 1) & 1) + ((n >> 2) & 1) + ((n >> 3) & 1)
  }

  lemma Entry(n: bv8)
    requires n <= 15
    ensures Shuffled(KBitCount, n) == NibbleCount(n)
  {
    if n <= 7 {
      if n == 0 {} else if n == 1 {} else if n == 2 {} else if n == 3 {} else if n == 4 {} else if n == 5 {}
        else if n == 6 {} else {}
    } else {
      if n == 8 {} else if n == 9 {} else if n == 10 {} else if n == 11 {} else if n == 12 {} else if n == 13 {}
        else if n == 14 {} else {}
    }
  }
}
