/** Multilinear polynomials in the monomials prod_b z_b^{bit_b(j)}. */
module Multilinears {

  import opened M31
  import opened Ef3
  import opened PowersOfTwo

  function Monomial(j: nat, zs: seq<Ef>): Ef {
    if zs == [] then ONE
    else EMul(if j % 2 == 1 then zs[0] else ONE, Monomial(j / 2, zs[1..]))
  }

  /** The sum of c[j] * Monomial(j, zs) over j < n. */
  function MSum(c: seq<Ef>, zs: seq<Ef>, n: nat): Ef
    requires n <= |c|
  {
    if n == 0 then ZERO else EAdd(MSum(c, zs, n - 1), EMul(c[n - 1], Monomial(n - 1, zs)))
  }

  /** The sum over all j < 2^|zs| of c[j] * prod_b zs[b]^{bit_b(j)}. */
  function Multilinear(c: seq<Ef>, zs: seq<Ef>): Ef
    requires |c| == Pow2(|zs|)
  {
    MSum(c, zs, |c|)
  }

  function Evens(c: seq<Ef>): seq<Ef> {
    seq(|c| / 2, i requires 0 <= i < |c| / 2 => c[2 * i])
  }

  function Odds(c: seq<Ef>): seq<Ef> {
    seq(|c| / 2, i requires 0 <= i < |c| / 2 => c[2 * i + 1])
  }

  function FoldCoeffs(c: seq<Ef>, beta: Ef): seq<Ef> {
    seq(|c| / 2, i requires 0 <= i < |c| / 2 => EAdd(c[2 * i], EMul(beta, c[2 * i + 1])))
  }

  function AddLayers(a: seq<Ef>, b: seq<Ef>): seq<Ef>
    requires |a| == |b|
  {
    seq(|a|, i requires 0 <= i < |a| => EAdd(a[i], b[i]))
  }

  /** (a + b) + (c + d) == (a + c) + (b + d). */
  lemma EAddSwap(a: Ef, b: Ef, c: Ef, d: Ef)
    ensures EAdd(EAdd(a, b), EAdd(c, d)) == EAdd(EAdd(a, c), EAdd(b, d))
  {
    hide EAdd;
    EAddAssoc(a, b, EAdd(c, d)); EAddAssoc(b, c, d); EAddComm(b, c);
    EAddAssoc(c, b, d); EAddAssoc(a, c, EAdd(b, d));
  }

  lemma {:induction false} MSumSplit(c: seq<Ef>, zs: seq<Ef>, n: nat)
    requires zs != [] && 2 * n <= |c|
    ensures MSum(c, zs, 2 * n) == EAdd(MSum(Evens(c), zs[1..], n), EMul(zs[0], MSum(Odds(c), zs[1..], n)))
  {
    hide EAdd, EMul;
    var z, t := zs[0], zs[1..];
    if n == 0 {
      EMulZero(z); EAddZero(ZERO);
    } else {
      var e, o := MSum(Evens(c), t, n - 1), MSum(Odds(c), t, n - 1);
      var mono := Monomial(n - 1, t);
      MSumSplit(c, zs, n - 1);
      MonomialEven(n - 1, zs);
      var x, y := EMul(c[2 * n - 2], mono), EMul(c[2 * n - 1], EMul(z, mono));
      assert MSum(c, zs, 2 * n - 1) == EAdd(MSum(c, zs, 2 * (n - 1)), x);
      assert MSum(c, zs, 2 * n) == EAdd(EAdd(EAdd(e, EMul(z, o)), x), y);
      assert y == EMul(z, EMul(c[2 * n - 1], mono)) by {
        EMulAssoc(c[2 * n - 1], z, mono); EMulComm(c[2 * n - 1], z); EMulAssoc(z, c[2 * n - 1], mono);
      }
      EMulAdd(z, o, EMul(c[2 * n - 1], mono));
      EAddAssoc(EAdd(e, EMul(z, o)), x, y);
      EAddSwap(e, EMul(z, o), x, y);
    }
  }

  lemma MonomialEven(k: nat, zs: seq<Ef>)
    requires zs != []
    ensures Monomial(2 * k, zs) == Monomial(k, zs[1..])
  {
    hide EMul;
    EMulOne(Monomial(k, zs[1..]));
    assert (2 * k) / 2 == k && (2 * k) % 2 == 0;
  }

  lemma {:induction false} MSumLinear(c: seq<Ef>, beta: Ef, zs: seq<Ef>, n: nat)
    requires n <= |c| / 2
    ensures MSum(FoldCoeffs(c, beta), zs, n) == EAdd(MSum(Evens(c), zs, n), EMul(beta, MSum(Odds(c), zs, n)))
  {
    hide EAdd, EMul;
    if n == 0 {
      EMulZero(beta); EAddZero(ZERO);
    } else {
      MSumLinear(c, beta, zs, n - 1);
      var e, o, mono := c[2 * n - 2], c[2 * n - 1], Monomial(n - 1, zs);
      EMulAddLeft(e, EMul(beta, o), mono);
      EMulAssoc(beta, o, mono);
      EMulAdd(beta, MSum(Odds(c), zs, n - 1), EMul(o, mono));
      EAddSwap(MSum(Evens(c), zs, n - 1), EMul(beta, MSum(Odds(c), zs, n - 1)), EMul(e, mono), EMul(beta, EMul(o, mono)));
    }
  }

  lemma {:induction false} MSumAdd(a: seq<Ef>, b: seq<Ef>, zs: seq<Ef>, n: nat)
    requires |a| == |b| && n <= |a|
    ensures MSum(AddLayers(a, b), zs, n) == EAdd(MSum(a, zs, n), MSum(b, zs, n))
  {
    hide EAdd, EMul;
    if n == 0 {
      EAddZero(ZERO);
    } else {
      MSumAdd(a, b, zs, n - 1);
      var mono := Monomial(n - 1, zs);
      EMulAddLeft(a[n - 1], b[n - 1], mono);
      EAddSwap(MSum(a, zs, n - 1), MSum(b, zs, n - 1), EMul(a[n - 1], mono), EMul(b[n - 1], mono));
    }
  }

  /** Fixing the lowest variable folds the coefficients. */
  lemma MultilinearFold(c: seq<Ef>, zs: seq<Ef>)
    requires zs != [] && |c| == Pow2(|zs|)
    ensures Multilinear(c, zs) == Multilinear(FoldCoeffs(c, zs[0]), zs[1..])
  {
    hide EAdd, EMul, MSum;
    MSumSplit(c, zs, |c| / 2);
    MSumLinear(c, zs[0], zs[1..], |c| / 2);
  }
}
