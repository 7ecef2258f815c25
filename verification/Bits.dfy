/** Bits of two's complement integers. */
module Bits {

  /** Bit `k` of `n`, as `(n >> k) & 1` reads it. */
  predicate Bit(n: int, k: nat)
    decreases k
  {
    if k == 0 then n % 2 == 1 else Bit(n / 2, k - 1)
  }

  /** `n | (1 << k)` or `n & ~(1 << k)`. */
  function SetBit(n: int, k: nat, b: bool): int
    decreases k
  {
    if k == 0 then 2 * (n / 2) + (if b then 1 else 0) else 2 * SetBit(n / 2, k - 1, b) + n % 2
  }

  function Pow2(k: nat): (p: int)
    ensures p > 0
  {
    if k == 0 then 1 else 2 * Pow2(k - 1)
  }

  /** Writing a bit changes that bit and no other. */
  lemma {:induction false} BitOfSetBit(n: int, k: nat, b: bool, j: nat)
    ensures Bit(SetBit(n, k, b), j) == if j == k then b else Bit(n, j)
    decreases k
  {
    var m := SetBit(n, k, b);
    if k == 0 {
      assert m / 2 == n / 2;
    } else {
      var h := SetBit(n / 2, k - 1, b);
      assert m == 2 * h + n % 2;
      assert m / 2 == h && m % 2 == n % 2;
      if j > 0 { BitOfSetBit(n / 2, k - 1, b, j - 1); }
    }
  }

  lemma {:induction false} SetBitRange(n: int, k: nat, b: bool, w: nat)
    requires 0 <= n < Pow2(w) && k < w
    ensures 0 <= SetBit(n, k, b) < Pow2(w)
  {
    if k > 0 { SetBitRange(n / 2, k - 1, b, w - 1); }
  }

  lemma {:induction false} ZeroBits(k: nat)
    ensures !Bit(0, k)
  {
    if k > 0 { ZeroBits(k - 1); }
  }

  lemma PowersOfTwo()
    ensures Pow2(8) == 256 && Pow2(16) == 0x1_0000 && Pow2(31) == 0x8000_0000 && Pow2(32) == 0x1_0000_0000
  {
    assert Pow2(4) == 16;
    assert Pow2(12) == 16 * Pow2(8);
    assert Pow2(24) == 256 * Pow2(16);
  }
}
