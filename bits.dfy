/**
 * Subsets of {0, ..., n-1} as integer bit masks, the representation the
 * dynamic program indexes its tables with: `1 << k` is Pow2(k),
 * `(mask & (1 << k)) != 0` is Bit(mask, k), and `mask | (1 << k)` for a
 * clear bit k is mask + Pow2(k).
 */
module Bits {

  function Pow2(k: nat): (p: nat)
    ensures p >= 1
  {
    if k == 0 then 1 else 2 * Pow2(k - 1)
  }

  /** Bit k of m is set. */
  predicate Bit(m: nat, k: nat) {
    if k == 0 then m % 2 == 1 else Bit(m / 2, k - 1)
  }

  /** Setting a clear bit j adds exactly j to the subset. */
  lemma {:induction false} SetBit(m: nat, j: nat, k: nat)
    requires !Bit(m, j)
    ensures Bit(m + Pow2(j), k) <==> Bit(m, k) || k == j
    decreases j
  {
    if j == 0 {
      assert (m + 1) / 2 == m / 2;
      if k > 0 {
        assert Bit(m + 1, k) == Bit((m + 1) / 2, k - 1);
      }
    } else {
      assert (m + Pow2(j)) % 2 == m % 2;
      assert (m + Pow2(j)) / 2 == m / 2 + Pow2(j - 1);
      if k > 0 {
        SetBit(m / 2, j - 1, k - 1);
      }
    }
  }

  /** A mask below 2^n has no bit at or above n. */
  lemma {:induction false} HighBitsClear(m: nat, n: nat, k: nat)
    requires m < Pow2(n) && k >= n
    ensures !Bit(m, k)
    decreases k
  {
    if k > 0 {
      if n == 0 {
        assert m == 0;
        ZeroHasNoBits(k);
      } else {
        HighBitsClear(m / 2, n - 1, k - 1);
      }
    }
  }

  lemma {:induction false} ZeroHasNoBits(k: nat)
    ensures !Bit(0, k)
  {
    if k > 0 {
      ZeroHasNoBits(k - 1);
    }
  }

  /** Setting a clear bit below n keeps a mask below 2^n. */
  lemma {:induction false} SetBitBound(m: nat, n: nat, j: nat)
    requires m < Pow2(n) && j < n && !Bit(m, j)
    ensures m + Pow2(j) < Pow2(n)
    decreases j
  {
    if j == 0 {
      assert m % 2 == 0;
    } else {
      assert (m / 2) < Pow2(n - 1);
      SetBitBound(m / 2, n - 1, j - 1);
    }
  }

  /** The mask 1 is the subset {0}. */
  lemma OneIsFirst(k: nat)
    ensures Bit(1, k) <==> k == 0
  {
    if k > 0 {
      ZeroHasNoBits(k - 1);
    }
  }

  /** The full mask 2^n - 1 is the subset {0, ..., n-1}. */
  lemma {:induction false} FullMask(n: nat, k: nat)
    ensures Bit(Pow2(n) - 1, k) <==> k < n
    decreases n
  {
    if n == 0 {
      ZeroHasNoBits(k);
    } else if k > 0 {
      assert (Pow2(n) - 1) / 2 == Pow2(n - 1) - 1;
      FullMask(n - 1, k - 1);
    }
  }
}
