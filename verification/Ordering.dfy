/** Bit reversal and the CFFT index permutation. */
module Ordering {

  import opened PowersOfTwo

  /** The low n bits of i in reverse order. */
  function RevBits(i: nat, n: nat): nat {
    if n == 0 then 0
    else (if i % 2 == 0 then 0 else Pow2(n - 1)) + RevBits(i / 2, n - 1)
  }

  lemma RevBound(i: nat, n: nat)
    ensures RevBits(i, n) < Pow2(n)
  {
  }

  /** A new top bit of i becomes the low bit of the reversal. */
  lemma {:induction false} RevTopBit(i: nat, n: nat)
    requires i < Pow2(n)
    ensures RevBits(i, n + 1) == 2 * RevBits(i, n)
    ensures RevBits(i + Pow2(n), n + 1) == 2 * RevBits(i, n) + 1
  {
    if n == 0 {
      assert RevBits(0, 1) == 0 && RevBits(1, 1) == 1;
    } else {
      RevTopBit(i / 2, n - 1);
      assert (i + Pow2(n)) / 2 == i / 2 + Pow2(n - 1);
      assert (i + Pow2(n)) % 2 == i % 2;
    }
  }

  lemma RevNothing(i: nat)
    ensures RevBits(i, 0) == 0
  {
  }

  lemma RevLowBit(i: nat, n: nat)
    requires n > 0
    ensures RevBits(i, n) == (if i % 2 == 0 then 0 else Pow2(n - 1)) + RevBits(i / 2, n - 1)
  {
  }

  lemma {:induction false} RevInvolution(i: nat, n: nat)
    requires i < Pow2(n)
    ensures RevBits(RevBits(i, n), n) == i
  {
    hide RevBits;
    if n > 0 {
      var r := RevBits(i / 2, n - 1);
      RevInvolution(i / 2, n - 1);
      RevBound(i / 2, n - 1);
      RevTopBit(r, n - 1);
      RevLowBit(i, n);
    } else {
      RevNothing(0);
    }
  }

  lemma {:induction false} RevComplement(i: nat, n: nat)
    requires i < Pow2(n)
    ensures RevBits(Pow2(n) - 1 - i, n) == Pow2(n) - 1 - RevBits(i, n)
  {
    if n > 0 {
      RevComplement(i / 2, n - 1);
      assert (Pow2(n) - 1 - i) / 2 == Pow2(n - 1) - 1 - i / 2;
    }
  }

  function CfftPermuteIndex(index0: nat, logN: nat): nat
    requires index0 < Pow2(logN)
  {
    var index, lsb := index0 / 2, index0 % 2;
    RevBits(if lsb == 0 then index else Pow2(logN) - index - 1, logN)
  }

  /** The slot that CfftPermuteIndex sends to k. */
  function CfftSlot(k: nat, logN: nat): int {
    var r := RevBits(k, logN);
    if 2 * r < Pow2(logN) then 2 * r else 2 * (Pow2(logN) - 1 - r) + 1
  }

  /** CfftPermuteIndex is a bijection on [0, 2^logN), with inverse CfftSlot. */
  lemma CfftBijection(k: nat, logN: nat)
    requires k < Pow2(logN)
    ensures CfftPermuteIndex(k, logN) < Pow2(logN)
    ensures CfftSlot(CfftPermuteIndex(k, logN), logN) == k
    ensures 0 <= CfftSlot(k, logN) < Pow2(logN)
    ensures CfftPermuteIndex(CfftSlot(k, logN), logN) == k
  {
    CfftSlotOfPermuted(k, logN);
    CfftPermutedOfSlot(k, logN);
  }

  lemma CfftSlotOfPermuted(k: nat, logN: nat)
    requires k < Pow2(logN)
    ensures CfftPermuteIndex(k, logN) < Pow2(logN)
    ensures CfftSlot(CfftPermuteIndex(k, logN), logN) == k
  {
    hide Pow2, RevBits;
    var i := if k % 2 == 0 then k / 2 else Pow2(logN) - k / 2 - 1;
    RevBound(i, logN);
    RevInvolution(i, logN);
  }

  lemma CfftPermutedOfSlot(k: nat, logN: nat)
    requires k < Pow2(logN)
    ensures 0 <= CfftSlot(k, logN) < Pow2(logN)
    ensures CfftPermuteIndex(CfftSlot(k, logN), logN) == k
  {
    hide Pow2, RevBits;
    RevBound(k, logN);
    RevInvolution(k, logN);
  }

  /** Where the two slots of a pair go. */
  lemma CfftPairSlots(i: nat, m: nat)
    requires i < Pow2(m)
    ensures CfftPermuteIndex(2 * i, m + 1) == 2 * RevBits(i, m)
    ensures RevBits(i, m) < Pow2(m)
    ensures CfftPermuteIndex(2 * i + 1, m + 1) == 2 * (Pow2(m) - 1 - RevBits(i, m)) + 1
  {
    hide RevBits;
    RevTopBit(i, m);
    RevBound(i, m);
    RevComplement(i, m + 1);
  }
}
