/**
 * Integer idioms the admission code relies on: left and right shifts, masking
 * with `n - 1` for a power-of-two `n`, and rounding up to a power of two.
 * Everything is on unbounded naturals: the C widths of the operands are not
 * modelled (the README's "Integer widths" list under "Left out" names the
 * fields and shifts where that matters).
 */
module Bits {

  /** 2^k, the value of `1 << k`. */
  function Pow2(k: nat): (r: nat)
    ensures r >= 1
  {
    if k == 0 then 1 else 2 * Pow2(k - 1)
  }

  lemma {:induction false} Pow2Increasing(j: nat, k: nat)
    requires j < k
    ensures Pow2(j) < Pow2(k)
  {
    if j + 1 < k {
      Pow2Increasing(j, k - 1);
    }
  }

  /** `x << k`. */
  function Shl(x: nat, k: nat): nat
  {
    if k == 0 then x else 2 * Shl(x, k - 1)
  }

  /** `x >> k`. */
  function Shr(x: nat, k: nat): nat
  {
    if k == 0 then x else Shr(x / 2, k - 1)
  }

  /** A right shift is zero exactly when the value lies below 2^k. */
  lemma {:induction false} ShrZero(x: nat, k: nat)
    ensures Shr(x, k) == 0 <==> x < Pow2(k)
  {
    if k > 0 {
      ShrZero(x / 2, k - 1);
    }
  }

  /** A left shift never makes a value smaller. */
  lemma {:induction false} ShlGrows(x: nat, k: nat)
    ensures Shl(x, k) >= x
  {
    if k > 0 {
      ShlGrows(x, k - 1);
    }
  }

  /** `a & b` on unsigned values, bit by bit from the least significant end. */
  function BitAnd(a: nat, b: nat): nat
    decreases a
  {
    if a == 0 || b == 0 then 0
    else 2 * BitAnd(a / 2, b / 2) + (if a % 2 == 1 && b % 2 == 1 then 1 else 0)
  }

  /** Masking with 2^k - 1 always lands in [0, 2^k). */
  lemma {:induction false} AndMaskBound(x: nat, k: nat)
    ensures BitAnd(x, Pow2(k) - 1) < Pow2(k)
  {
    if k > 0 && x > 0 {
      assert (Pow2(k) - 1) / 2 == Pow2(k - 1) - 1;
      AndMaskBound(x / 2, k - 1);
    }
  }

  /** Masking with 2^k - 1 leaves a value below 2^k unchanged. */
  lemma {:induction false} AndMaskBelow(y: nat, k: nat)
    requires y < Pow2(k)
    ensures BitAnd(y, Pow2(k) - 1) == y
  {
    if k > 0 && y > 0 {
      assert (Pow2(k) - 1) / 2 == Pow2(k - 1) - 1;
      assert (Pow2(k) - 1) % 2 == 1;
      AndMaskBelow(y / 2, k - 1);
    }
  }

  /** Masking 2^k itself with 2^k - 1 gives zero. */
  lemma {:induction false} AndMaskFull(k: nat)
    ensures BitAnd(Pow2(k), Pow2(k) - 1) == 0
  {
    if k > 0 {
      assert Pow2(k) / 2 == Pow2(k - 1);
      assert (Pow2(k) - 1) / 2 == Pow2(k - 1) - 1;
      AndMaskFull(k - 1);
    }
  }

  /**
   * Advancing an index of a 2^k-entry table with `(i + 1) & (2^k - 1)` steps
   * to the next slot and wraps from the last slot to slot 0.
   */
  lemma MaskedSuccessor(i: nat, k: nat)
    requires i < Pow2(k)
    ensures BitAnd(i + 1, Pow2(k) - 1) == if i + 1 == Pow2(k) then 0 else i + 1
  {
    if i + 1 == Pow2(k) {
      AndMaskFull(k);
    } else {
      AndMaskBelow(i + 1, k);
    }
  }

  /** The exponent of the smallest power of two that is at least x. */
  function CeilLog2(x: nat): (k: nat)
    ensures x <= Pow2(k)
    ensures k > 0 ==> Pow2(k - 1) < x
  {
    if x <= 1 then 0 else 1 + CeilLog2((x + 1) / 2)
  }

  /**
   * `roundup_pow_of_two(x)`: the smallest power of two that is at least x,
   * so at most one doubling above x.
   */
  function RoundupPowOfTwo(x: nat): (r: nat)
    ensures x <= r
    ensures x >= 1 ==> r < 2 * x
  {
    Pow2(CeilLog2(x))
  }

  /** n is a power of two: it equals the power of two its ceiling logarithm names. */
  predicate IsPow2(n: nat)
  {
    n == Pow2(CeilLog2(n))
  }

  lemma {:induction false} CeilLog2OfPow2(k: nat)
    ensures CeilLog2(Pow2(k)) == k
  {
    var c := CeilLog2(Pow2(k));
    if c < k {
      Pow2Increasing(c, k);
    } else if c > k + 1 {
      Pow2Increasing(k, c - 1);
    }
  }

  /** A power of two above 8 is at least 16. */
  lemma Pow2AboveEight(k: nat)
    requires Pow2(k) > 8
    ensures Pow2(k) >= 16
  {
    if k < 3 {
      Pow2Increasing(k, 3);
    } else if k > 4 {
      Pow2Increasing(4, k);
    }
  }

  function Min(a: int, b: int): int
  {
    if a <= b then a else b
  }

  function Max(a: int, b: int): int
  {
    if a >= b then a else b
  }
}
