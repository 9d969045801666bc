/**
 * Powers of two, floor logarithms and the shifts the slab arithmetic uses.
 * Block numbers and counts are unbounded naturals; a right shift by `s` is
 * division by 2^s and a left shift is multiplication by 2^s.
 *
 * The C code never divides by the slab size: it takes the slab size's base-2
 * logarithm once (logBaseTwo, here Log2) when the depot is configured and
 * shifts by it from then on, both to count the slabs between two block
 * numbers and to find the slab a block lies in. The slab summary does the
 * same with its hint shift, shifting a free-block count right to make a
 * one-byte hint and the hint left to read an approximate count back. The
 * lemmas below connect those shifts to ordinary division, so that the
 * contracts elsewhere can speak of quotients and remainders, and collect
 * the few facts about products and quotients (uniqueness of the Euclidean
 * quotient, monotonicity, bounds) those proofs need. The truncations to the
 * C types (a 32-bit SlabCount, 64-bit block numbers) are written out where
 * they occur, not here.
 */
module Arith {

  function Pow2(n: nat): (r: nat)
    ensures r >= 1
  {
    if n == 0 then 1 else 2 * Pow2(n - 1)
  }

  /** ⌊log2 n⌋ for a positive n, as logBaseTwo computes it. */
  function Log2(n: nat): (r: nat)
    requires n >= 1
    ensures Pow2(r) <= n < Pow2(r + 1)
  {
    if n == 1 then 0 else 1 + Log2(n / 2)
  }

  /** isPowerOfTwo: a positive number with a single bit set. */
  predicate IsPowerOfTwo(n: nat) {
    n == 1 || (n >= 2 && n % 2 == 0 && IsPowerOfTwo(n / 2))
  }

  /** x halved s times: the bit-by-bit reading of x >> s. */
  function Halve(x: nat, s: nat): nat {
    if s == 0 then x else Halve(x / 2, s - 1)
  }

  /** x >> s, which is division by 2^s. */
  function ShiftRight(x: nat, s: nat): (r: nat)
    ensures r == x / Pow2(s)
  {
    HalvingIsDivision(x, s);
    Halve(x, s)
  }

  function ShiftLeft(x: nat, s: nat): nat {
    x * Pow2(s)
  }

  lemma {:induction false} Pow2Add(a: nat, b: nat)
    ensures Pow2(a + b) == Pow2(a) * Pow2(b)
  {
    if a > 0 {
      Pow2Add(a - 1, b);
    }
  }

  lemma {:induction false} Pow2Monotone(a: nat, b: nat)
    requires a <= b
    ensures Pow2(a) <= Pow2(b)
  {
    if a < b {
      Pow2Monotone(a, b - 1);
    }
  }

  /** The logarithm is the unique exponent bracketing n. */
  lemma Log2Unique(n: nat, k: nat)
    requires n >= 1
    requires Pow2(k) <= n < Pow2(k + 1)
    ensures Log2(n) == k
  {
    var l := Log2(n);
    if l < k {
      Pow2Monotone(l + 1, k);
    } else if l > k {
      Pow2Monotone(k + 1, l);
    }
  }

  lemma Log2OfPow2(k: nat)
    ensures Log2(Pow2(k)) == k
  {
    Log2Unique(Pow2(k), k);
  }

  lemma Log2Monotone(a: nat, b: nat)
    requires 1 <= a <= b
    ensures Log2(a) <= Log2(b)
  {
    if Log2(a) > Log2(b) {
      Pow2Monotone(Log2(b) + 1, Log2(a));
    }
  }

  /** isPowerOfTwo and logBaseTwo agree: a power of two is 2^(log2 n). */
  lemma {:induction false} PowerOfTwoLog(n: nat)
    requires IsPowerOfTwo(n)
    ensures n >= 1 && Pow2(Log2(n)) == n
  {
    if n != 1 {
      PowerOfTwoLog(n / 2);
    }
  }

  /** Every 2^k passes the power-of-two test. */
  lemma {:induction false} Pow2IsPowerOfTwo(k: nat)
    ensures IsPowerOfTwo(Pow2(k))
  {
    if k > 0 {
      Pow2IsPowerOfTwo(k - 1);
      assert Pow2(k) / 2 == Pow2(k - 1);
    }
  }

  /** Quotient and remainder are determined by the Euclidean equation. */
  lemma DivUnique(x: nat, d: nat, q: nat, r: nat)
    requires d >= 1 && r < d && x == d * q + r
    ensures x / d == q && x % d == r
  {
    var q0 := x / d;
    if q0 < q {
      MulStep(d, q0, q);
      assert false;
    } else if q < q0 {
      MulStep(d, q, q0);
      assert false;
    }
  }

  lemma {:induction false} MulStep(d: nat, a: nat, b: nat)
    requires a < b
    ensures d * a + d <= d * b
  {
    if a + 1 < b {
      MulStep(d, a, b - 1);
      assert d * b == d * (b - 1) + d;
    } else {
      assert d * b == d * a + d;
    }
  }

  lemma MulAdd(d: nat, a: nat, b: nat)
    ensures d * (a + b) == d * a + d * b
  {
  }

  lemma MulLe(d: nat, a: nat, b: nat)
    requires a <= b
    ensures d * a <= d * b
  {
    if a < b {
      MulStep(d, a, b);
    }
  }

  /** (k·d) / d == k and (k·d + r) / d == k for r < d. */
  lemma DivOfMultiple(k: nat, d: nat, r: nat)
    requires d >= 1 && r < d
    ensures (k * d + r) / d == k
  {
    DivUnique(k * d + r, d, k, r);
  }

  /** x < d·k bounds the quotient by k. */
  lemma DivBelow(x: nat, d: nat, k: nat)
    requires d >= 1 && x < d * k
    ensures x / d < k
  {
    if x / d >= k {
      MulLe(d, k, x / d);
    }
  }

  /** Division by a positive number is monotone. */
  lemma DivMonotone(a: nat, b: nat, d: nat)
    requires a <= b && d >= 1
    ensures a / d <= b / d
  {
    if a / d > b / d {
      MulStep(d, b / d, a / d);
    }
  }

  /** Halving s times is division by 2^s. */
  lemma {:induction false} HalvingIsDivision(x: nat, s: nat)
    ensures Halve(x, s) == x / Pow2(s)
  {
    if s > 0 {
      HalvingIsDivision(x / 2, s - 1);
      HalveThenDivide(x, Pow2(s - 1));
    }
  }

  /** Halving and then dividing by p is dividing by 2p. */
  lemma HalveThenDivide(x: nat, p: nat)
    requires p >= 1
    ensures (x / 2) / p == x / (2 * p)
  {
    var q1 := x / 2;
    var q2 := q1 / p;
    var r := 2 * (q1 % p) + x % 2;
    var m := p * q2;
    assert q1 == m + q1 % p;
    assert x == 2 * m + r;
    assert (2 * p) * q2 == 2 * m;
    DivUnique(x, 2 * p, q2, r);
  }
}
