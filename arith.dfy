/** Exact powers of two, which replace JavaScript's `**`, `Math.log2` and bit shifts. */
module Arith {

  function Pow2(n: nat): (r: nat)
    ensures r >= 1
  {
    if n == 0 then 1 else 2 * Pow2(n - 1)
  }

  lemma {:induction false} Pow2Add(a: nat, b: nat)
    ensures Pow2(a + b) == Pow2(a) * Pow2(b)
  {
    if a > 0 {
      calc {
        Pow2(a + b);
        2 * Pow2(a - 1 + b);
        { Pow2Add(a - 1, b); }
        2 * (Pow2(a - 1) * Pow2(b));
        (2 * Pow2(a - 1)) * Pow2(b);
        Pow2(a) * Pow2(b);
      }
    }
  }

  lemma {:induction false} Pow2StrictlyIncreasing(a: nat, b: nat)
    requires a < b
    ensures Pow2(a) < Pow2(b)
  {
    if a + 1 < b {
      Pow2StrictlyIncreasing(a, b - 1);
    }
  }

  /** Pow2 is injective, so the exponent of a power of two is unique. */
  lemma Pow2Injective(a: nat, b: nat)
    requires Pow2(a) == Pow2(b)
    ensures a == b
  {
    if a < b { Pow2StrictlyIncreasing(a, b); }
    if b < a { Pow2StrictlyIncreasing(b, a); }
  }

  /** Euclidean division is determined by any quotient/remainder pair. */
  lemma DivModUnique(a: int, d: int, q: int, r: int)
    requires d > 0 && 0 <= r < d && a == q * d + r
    ensures a / d == q && a % d == r
  {
    var q', r' := a / d, a % d;
    assert a == q' * d + r';
    if q' < q {
      assert (q - q') * d >= d by { MulAtLeast(q - q', d); }
      assert false;
    } else if q < q' {
      assert (q' - q) * d >= d by { MulAtLeast(q' - q, d); }
      assert false;
    }
  }

  lemma MulAtLeast(k: int, d: int)
    requires k >= 1 && d > 0
    ensures k * d >= d
  {}

  /** The quotient and remainder of a number below p * p are both below p. */
  lemma QuotientBelow(key: int, p: int)
    requires p > 0 && 0 <= key < p * p
    ensures 0 <= key / p < p && 0 <= key % p < p
    ensures key == (key / p) * p + key % p
  {
  }

  /** The powers of two that the source's ranges and JavaScript's 32-bit operators need. */
  lemma Pow2Constants()
    ensures Pow2(10) == 1024 && Pow2(15) == 32768 && Pow2(16) == 65536
    ensures Pow2(17) == 131072 && Pow2(32) == 0x1_0000_0000
  {
    assert Pow2(5) == 32 && Pow2(10) == 1024;
    Pow2Add(10, 5);
    Pow2Add(10, 6);
    Pow2Add(10, 7);
    Pow2Add(16, 16);
  }

  /** x * p + y stays below p * p when both digits are below p. */
  lemma TwoDigitBound(x: int, y: int, p: int)
    requires 0 <= x < p && 0 <= y < p
    ensures 0 <= x * p + y < p * p
  {
    assert x * p <= (p - 1) * p;
  }
}
