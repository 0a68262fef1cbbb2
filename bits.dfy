/** Powers of two and `std::bit_width`, as the shifts `1 << i` of the
    sparse table and the LCA use them. */
module Bits {
  /** 2 to the power k: `1 << k`. */
  function Pow2(k: nat): (p: nat)
    ensures p >= 1
  {
    if k == 0 then 1 else 2 * Pow2(k - 1)
  }

  /** std::bit_width(n): the number of binary digits of n, 0 for 0. */
  function BitWidth(n: nat): (w: nat)
    ensures n == 0 <==> w == 0
  {
    if n == 0 then 0 else 1 + BitWidth(n / 2)
  }

  /** n has exactly bit_width(n) binary digits:
      2^(bit_width(n) - 1) <= n < 2^bit_width(n). */
  lemma {:induction false} BitWidthBounds(n: nat)
    ensures n < Pow2(BitWidth(n))
    ensures n > 0 ==> Pow2(BitWidth(n) - 1) <= n
  {
    if n > 0 {
      BitWidthBounds(n / 2);
    }
  }

  /** Powers of two grow with the exponent. */
  lemma {:induction false} Pow2Monotone(a: nat, b: nat)
    requires a <= b
    ensures Pow2(a) <= Pow2(b)
    decreases b
  {
    if a < b {
      Pow2Monotone(a, b - 1);
    }
  }

  /** `n & (1 << i)` is non-zero: bit i of n is set. */
  predicate Bit(n: nat, i: nat) {
    if i == 0 then n % 2 == 1 else Bit(n / 2, i - 1)
  }

  /** `n & ((1 << k) - 1)`: the value of the low k bits of n. */
  function Low(n: nat, k: nat): nat {
    if k == 0 then 0 else Low(n, k - 1) + (if Bit(n, k - 1) then Pow2(k - 1) else 0)
  }

  /** The low k + 1 bits of n are its lowest bit below the low k bits of
      n / 2, shifted up by one. */
  lemma {:induction false} LowHalf(n: nat, k: nat)
    ensures Low(n, k + 1) == n % 2 + 2 * Low(n / 2, k)
    decreases k
  {
    if k > 0 {
      LowHalf(n, k - 1);
    }
  }

  /** Below 2^k the low k bits are the whole number. */
  lemma {:induction false} LowAll(n: nat, k: nat)
    requires n < Pow2(k)
    ensures Low(n, k) == n
    decreases k
  {
    if k > 0 {
      LowHalf(n, k - 1);
      LowAll(n / 2, k - 1);
    }
  }
}
