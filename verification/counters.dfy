/** The 32-bit counters of the comparison kernels and of the blur, and how a count is cut into parts. */
module Counters {

  const TWO32: int := 0x1_0000_0000

  /** What an unsigned 32-bit counter keeps. */
  function Wrap(n: int): nat {
    n % TWO32
  }

  lemma WrapMultiple(n: int, k: int)
    ensures Wrap(n + TWO32 * k) == Wrap(n)
  {
  }

  /** Wrapping early changes nothing. */
  lemma WrapAdd(m: int, n: int)
    ensures Wrap(Wrap(m) + n) == Wrap(m + n)
    ensures Wrap(m + Wrap(n)) == Wrap(m + n)
    ensures Wrap(Wrap(m) + Wrap(n)) == Wrap(m + n)
  {
    WrapMultiple(Wrap(m) + n, m / TWO32);
    WrapMultiple(m + Wrap(n), n / TWO32);
    WrapMultiple(Wrap(m) + Wrap(n), m / TWO32 + n / TWO32);
  }

  lemma WrapSubtract(m: int, n: int)
    ensures Wrap(m - Wrap(n)) == Wrap(m - n)
  {
    WrapMultiple(m - n, n / TWO32);
  }

  lemma WrapSmall(n: nat)
    requires n < TWO32
    ensures Wrap(n) == n
  {
  }

  // ----- signed

  const TWO31: int := 0x8000_0000

  /** The value an int32_t holds after two's complement wrap-around. */
  function Wrap32(x: int): int {
    Wrap(x + TWO31) - TWO31
  }

  lemma WrapExact(x: int)
    requires -TWO31 <= x < TWO31
    ensures Wrap32(x) == x
  {
  }

  lemma WrapInside(x: int)
    ensures -TWO31 <= Wrap32(x) < TWO31
  {
  }

  // ----- blocks, vectors and the rest

  lemma DivisionIs(n: nat, d: nat, q: nat, r: nat)
    requires r < d && n == q * d + r
    ensures n / d == q && n % d == r
  {
    var p := n / d;
    assert n == p * d + n % d;
    if p < q {
      Step(p + 1, q, d);
    } else if q < p {
      Step(q + 1, p, d);
    }
  }

  lemma Step(a: int, b: int, d: int)
    requires a <= b && 0 <= d
    ensures (a - 1) * d + d <= b * d
  {
  }

  lemma Divided(n: nat, d: nat)
    requires 0 < d
    ensures n == n / d * d + n % d && n / d * d <= n
  {
  }

  /** After k blocks of m vectors of v bytes: whole vectors, and then the rest. */
  lemma Parts(count: nat, block: nat, m: nat, v: nat, k: nat, r: nat)
    requires 0 < v && block == m * v && count == k * block + r && r < block
    ensures count % block == r && count % v == r % v
    ensures r / v * v <= block && r / v * v + r % v == r
  {
    DivisionIs(count, block, k, r);
    Divided(r, v);
    SameRest(m, v, k, r);
  }

  lemma SameRest(m: nat, v: nat, k: nat, r: nat)
    requires 0 < v
    ensures (k * (m * v) + r) % v == r % v
  {
    Divided(r, v);
    Vectors(m, v, k, r / v);
    DivisionIs(k * (m * v) + r, v, k * m + r / v, r % v);
  }

  lemma Vectors(m: nat, v: nat, k: nat, q: nat)
    ensures (k * m + q) * v == k * (m * v) + q * v
  {
  }

  lemma WholeHalves(q: nat, half: nat)
    requires 0 < half
    ensures q * (2 * half) % half == 0
  {
    assert q * (2 * half) == 2 * q * half;
    DivisionIs(q * (2 * half), half, 2 * q, 0);
  }
}
