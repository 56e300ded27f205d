/**
 * Integer helpers the texturing code takes from its headers: MAX, ROUND_UP,
 * powers of two, right shifts and the bitwise AND used by the power-of-two
 * test.  All arithmetic is on unbounded integers.
 */
module Arith {

  datatype Option<+T> = None | Some(value: T)

  function Max(a: int, b: int): (m: int)
    ensures m >= a && m >= b
    ensures m == a || m == b
  {
    if a >= b then a else b
  }

  /** The alignments ROUND_UP is used with: unpack alignments and TMEM's 8 bytes. */
  predicate IsAlignment(d: nat) {
    d == 1 || d == 2 || d == 4 || d == 8
  }

  /** ROUND_UP(n, d) = (n + d - 1) / d * d: the least multiple of d not below n. */
  function RoundUp(n: nat, d: nat): (r: nat)
    requires IsAlignment(d)
    ensures r % d == 0
    ensures n <= r < n + d
  {
    if d == 1 then n
    else if d == 2 then (n + 1) / 2 * 2
    else if d == 4 then (n + 3) / 4 * 4
    else (n + 7) / 8 * 8
  }

  /** Rounding up keeps the order of its arguments. */
  lemma RoundUpMonotone(m: nat, n: nat, d: nat)
    requires IsAlignment(d) && m <= n
    ensures RoundUp(m, d) <= RoundUp(n, d)
  {
    if d == 1 {
    } else if d == 2 {
    } else if d == 4 {
    } else {
    }
  }

  function Pow2(k: nat): (p: nat)
    ensures p >= 1
  {
    if k == 0 then 1 else 2 * Pow2(k - 1)
  }

  lemma {:induction false} Pow2Monotone(j: nat, k: nat)
    requires j < k
    ensures Pow2(j) < Pow2(k)
  {
    if k != j + 1 {
      Pow2Monotone(j, k - 1);
    }
  }

  lemma {:induction false} Pow2Add(a: nat, b: nat)
    ensures Pow2(a + b) == Pow2(a) * Pow2(b)
  {
    if b > 0 {
      Pow2Add(a, b - 1);
    }
  }

  /** The sign bit of a 32-bit word. */
  lemma Pow2Of31()
    ensures Pow2(31) == 0x8000_0000
  {
    assert Pow2(8) == 256;
    assert Pow2(7) == 128;
    Pow2Add(8, 8);
    Pow2Add(16, 8);
    Pow2Add(24, 7);
  }

  /** Powers of two, defined by repeated halving. */
  predicate IsPowerOfTwo(n: nat)
    decreases n
  {
    n == 1 || (n >= 2 && n % 2 == 0 && IsPowerOfTwo(n / 2))
  }

  lemma {:induction false} Pow2IsPowerOfTwo(k: nat)
    ensures IsPowerOfTwo(Pow2(k))
  {
    if k > 0 {
      Pow2IsPowerOfTwo(k - 1);
      assert Pow2(k) / 2 == Pow2(k - 1);
    }
  }

  /** The floor of the base-2 logarithm; 0 for 0 and 1. */
  function FloorLog2(s: nat): (r: nat)
    ensures s >= 1 ==> Pow2(r) <= s < Pow2(r + 1)
    ensures s <= 1 ==> r == 0
  {
    if s < 2 then 0 else 1 + FloorLog2(s / 2)
  }

  lemma {:induction false} FloorLog2OfPow2(k: nat)
    ensures FloorLog2(Pow2(k)) == k
  {
    var r := FloorLog2(Pow2(k));
    if r < k {
      Pow2Monotone(r + 1, k);
      assert false;
    } else if r > k {
      Pow2Monotone(k, r);
      assert false;
    }
  }

  lemma {:induction false} PowerOfTwoIsPow2(n: nat)
    requires IsPowerOfTwo(n)
    ensures n == Pow2(FloorLog2(n))
    decreases n
  {
    if n != 1 {
      PowerOfTwoIsPow2(n / 2);
    }
  }

  /** Bitwise AND of the binary representations of two naturals. */
  function BitAnd(a: nat, b: nat): nat
    decreases a
  {
    if a == 0 || b == 0 then 0
    else 2 * BitAnd(a / 2, b / 2) + (if a % 2 == 1 && b % 2 == 1 then 1 else 0)
  }

  lemma {:induction false} BitAndSelf(a: nat)
    ensures BitAnd(a, a) == a
    decreases a
  {
    if a > 0 {
      BitAndSelf(a / 2);
    }
  }

  /** The classic test `n & (n - 1) == 0` holds of a positive n exactly when n is a power of two. */
  lemma {:induction false} BitTestCharacterizesPowerOfTwo(n: nat)
    requires n >= 1
    ensures BitAnd(n, n - 1) == 0 <==> IsPowerOfTwo(n)
    decreases n
  {
    if n == 1 {
    } else if n % 2 == 1 {
      // n - 1 is even and shares every higher bit with n
      assert (n - 1) / 2 == n / 2;
      BitAndSelf(n / 2);
      assert BitAnd(n, n - 1) == 2 * (n / 2);
    } else {
      var m := n / 2;
      assert (n - 1) / 2 == m - 1;
      assert BitAnd(n, n - 1) == 2 * BitAnd(m, m - 1);
      BitTestCharacterizesPowerOfTwo(m);
    }
  }

  /**
   * A product of naturals is a natural.  Stated once and called, so that the
   * product stays an uninterpreted term in the proofs that use it.
   */
  lemma MulNonNegative(a: nat, b: nat)
    ensures 0 <= a * b
  {
  }

  /** Multiplying both sides by the same natural keeps the order; called for the same reason. */
  lemma MulLeMul(a: nat, b: nat, c: nat)
    requires a <= b
    ensures a * c <= b * c
  {
  }
}
