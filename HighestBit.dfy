/**
 * The position of the highest set bit of a machine word (floor of log2),
 * with -1 for zero, and the powers of two that pin it down.
 */
module Bits {

  /** One more than the largest `size_t` (a 64-bit word). */
  const WordLimit: nat := 0x1_0000_0000_0000_0000

  function Pow2(k: nat): (r: nat)
    ensures r >= 1
  {
    if k == 0 then 1 else 2 * Pow2(k - 1)
  }

  lemma {:induction false} Pow2Monotone(i: nat, j: nat)
    requires i <= j
    ensures Pow2(i) <= Pow2(j)
  {
    if i < j {
      Pow2Monotone(i, j - 1);
    }
  }

  lemma Pow2At8()
    ensures Pow2(8) == 0x100
  {
  }

  lemma Pow2At16()
    ensures Pow2(16) == 0x1_0000
  {
    Pow2Add(8, 8);
    Pow2At8();
  }

  lemma Pow2At32()
    ensures Pow2(32) == 0x1_0000_0000
  {
    Pow2Add(16, 16);
    Pow2At16();
  }

  lemma Pow2At64()
    ensures Pow2(64) == WordLimit
  {
    Pow2Add(32, 32);
    Pow2At32();
  }

  lemma {:induction false} Pow2Add(i: nat, j: nat)
    ensures Pow2(i + j) == Pow2(i) * Pow2(j)
  {
    if j > 0 {
      Pow2Add(i, j - 1);
      assert Pow2(i + j) == 2 * Pow2(i + j - 1);
    }
  }

  /**
   * The specification of the highest-bit search: -1 for zero, otherwise the
   * exponent r of the largest power of two not above v.
   */
  function HighestBitOf(v: nat): (r: int)
    ensures v == 0 ==> r == -1
    ensures v > 0 ==> 0 <= r && Pow2(r) <= v < Pow2(r + 1)
  {
    if v == 0 then -1 else 1 + HighestBitOf(v / 2)
  }

  /** The bracket `2^k <= v < 2^(k+1)` determines the highest bit uniquely. */
  lemma HighestBitIsUnique(v: nat, k: nat)
    requires Pow2(k) <= v < Pow2(k + 1)
    ensures HighestBitOf(v) == k
  {
    var r := HighestBitOf(v);
    if r < k {
      Pow2Monotone(r + 1, k);
    } else if r > k {
      Pow2Monotone(k + 1, r);
    }
  }

  lemma HighestBitOfPow2(k: nat)
    ensures HighestBitOf(Pow2(k)) == k
  {
    HighestBitIsUnique(Pow2(k), k);
  }

  lemma HighestBitOfAllOnes(k: nat)
    ensures HighestBitOf(Pow2(k + 1) - 1) == k
  {
    HighestBitIsUnique(Pow2(k + 1) - 1, k);
  }

  /** The highest bit of a machine word is at most 63, so it fits a signed byte. */
  lemma HighestBitOfWord(v: nat)
    requires v < WordLimit
    ensures -1 <= HighestBitOf(v) <= 63
  {
    if v > 0 {
      var r := HighestBitOf(v);
      if r > 63 {
        Pow2Monotone(64, r);
        Pow2At64();
      }
    }
  }

  /**
   * getHighestBit: starting from -1, count the right shifts that take the
   * value to zero. The shift `value >>= 1` of an unsigned word is `/ 2`.
   * The loop runs once per binary digit of `value`, that is r + 1 times.
   */
  method HighestBit(value: nat) returns (r: int)
    requires value < WordLimit
    ensures r == HighestBitOf(value)
    ensures value == 0 ==> r == -1
    ensures value > 0 ==> Pow2(r) <= value < Pow2(r + 1)
    ensures -1 <= r <= 63
  {
    var v: nat := value;
    r := -1;
    while v != 0
      invariant v <= value
      invariant r + 1 + HighestBitOf(v) == HighestBitOf(value)
      decreases v
    {
      r := r + 1;
      v := v / 2;
    }
    HighestBitOfWord(value);
  }
}
