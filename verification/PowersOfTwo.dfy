/** Powers of two. */
module PowersOfTwo {

  function Pow2(n: nat): (r: nat)
    ensures r >= 1
  {
    if n == 0 then 1 else 2 * Pow2(n - 1)
  }

  lemma Pow2Add(m: nat, n: nat)
    ensures Pow2(m + n) == Pow2(m) * Pow2(n)
  {
    if m > 0 {
      Pow2Add(m - 1, n);
    }
  }

  lemma Pow2Monotone(m: nat, n: nat)
    requires m <= n
    ensures Pow2(m) <= Pow2(n)
  {
    if m < n {
      Pow2Monotone(m, n - 1);
    }
  }

  lemma HalfPower(n: nat)
    requires n > 0
    ensures Pow2(n) / 2 == Pow2(n - 1)
  {
  }

  /** x >> k. */
  function Shr(x: nat, k: nat): (r: nat)
    ensures r <= x
  {
    if k == 0 then x else Shr(x / 2, k - 1)
  }

  lemma ShrAdd(x: nat, j: nat, k: nat)
    ensures Shr(x, j + k) == Shr(Shr(x, j), k)
  {
    if j > 0 {
      ShrAdd(x / 2, j - 1, k);
    }
  }

  lemma ShrNone(x: nat)
    ensures Shr(x, 0) == x
  {
  }

  lemma ShrStep(x: nat, k: nat)
    ensures Shr(x, k + 1) == Shr(x, k) / 2
  {
    ShrAdd(x, k, 1);
    assert Shr(Shr(x, k), 1) == Shr(Shr(x, k) / 2, 0);
  }

  lemma ShrBound(x: nat, k: nat, n: nat)
    requires x < Pow2(k + n)
    ensures Shr(x, k) < Pow2(n)
  {
    if k > 0 {
      ShrBound(x / 2, k - 1, n);
    }
  }

  function Log2(n: nat): nat { if n <= 1 then 0 else 1 + Log2(n / 2) }

  predicate IsPowerOfTwo(n: nat) { n == Pow2(Log2(n)) }

  lemma {:induction false} Log2OfPower(e: nat)
    ensures Log2(Pow2(e)) == e && IsPowerOfTwo(Pow2(e))
  {
    if e > 0 {
      Log2OfPower(e - 1);
      assert Pow2(e) / 2 == Pow2(e - 1);
    }
  }

  /** i with its lowest bit flipped: the other slot of its pair. */
  function Neighbour(i: nat): nat { if i % 2 == 0 then i + 1 else i - 1 }

  /** Doubles p until it reaches n. */
  function DoubleUpTo(p: nat, n: nat): (r: nat)
    requires p > 0
    ensures r >= n && r >= p
    decreases n - p
  {
    if p >= n then p else DoubleUpTo(2 * p, n)
  }

  function NextPowerOfTwo(n: nat): (r: nat)
    ensures r >= n && r >= 1
  {
    DoubleUpTo(1, n)
  }

  /** The next power of two is the least one that reaches n. */
  lemma NextPowerIsLeast(n: nat) returns (e: nat)
    ensures NextPowerOfTwo(n) == Pow2(e)
    ensures e > 0 ==> Pow2(e - 1) < n
  {
    e := DoublingIsPower(0, n);
  }

  lemma {:induction false} DoublingIsPower(d: nat, n: nat) returns (e: nat)
    ensures e >= d && DoubleUpTo(Pow2(d), n) == Pow2(e)
    ensures e > d ==> Pow2(e - 1) < n
    decreases n - Pow2(d)
  {
    if Pow2(d) >= n {
      e := d;
    } else {
      e := DoublingIsPower(d + 1, n);
    }
  }
}
