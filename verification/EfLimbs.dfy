/** Limb arithmetic of the extension as the circuits spell it out. */
module EfLimbs {

  import opened M31
  import opened Ef3

  /** Product of the sums minus both products: the two cross products. */
  lemma CrossTerms(x: Fp, y: Fp, u: Fp, v: Fp)
    ensures Sub(Sub(Mul(Add(x, y), Add(u, v)), Mul(x, u)), Mul(y, v)) == Add(Mul(x, v), Mul(y, u))
  {
    hide Mul, Add, Sub, Red;
    RedCanonical(x); RedCanonical(y); RedCanonical(u); RedCanonical(v);
    RedAdd(x, y); RedAdd(u, v);
    RedMul(x + y, u + v); RedMul(x, u); RedMul(y, v); RedMul(x, v); RedMul(y, u);
    RedSub((x + y) * (u + v), x * u); RedSub((x + y) * (u + v) - x * u, y * v);
    RedAdd(x * v, y * u);
    assert (x + y) * (u + v) - x * u - y * v == x * v + y * u;
  }

  /** Three products and sums instead of six cross products. */
  function EfMulLimbs(a: Ef, b: Ef): Ef {
    var a0b0, a1b1, a2b2 := Mul(a.c0, b.c0), Mul(a.c1, b.c1), Mul(a.c2, b.c2);
    Ef(Add(a0b0, Mul(Sub(Sub(Mul(Add(a.c1, a.c2), Add(b.c1, b.c2)), a1b1), a2b2), 5)),
       Add(Sub(Sub(Mul(Add(a.c0, a.c1), Add(b.c0, b.c1)), a0b0), a1b1), Mul(a2b2, 5)),
       Add(Sub(Sub(Mul(Add(a.c0, a.c2), Add(b.c0, b.c2)), a0b0), a2b2), a1b1))
  }

  /** The limb product is the product modulo X^3 - 5. */
  lemma LimbsAreProduct(a: Ef, b: Ef)
    ensures EfMulLimbs(a, b) == EMul(a, b)
  {
    hide Mul, Add, Sub;
    CrossTerms(a.c1, a.c2, b.c1, b.c2);
    CrossTerms(a.c0, a.c1, b.c0, b.c1);
    CrossTerms(a.c0, a.c2, b.c0, b.c2);
    MulComm(Add(Mul(a.c1, b.c2), Mul(a.c2, b.c1)), 5);
    MulComm(Mul(a.c2, b.c2), 5);
    SwapLast(Mul(a.c0, b.c2), Mul(a.c2, b.c0), Mul(a.c1, b.c1));
  }

  lemma SwapLast(x: Fp, y: Fp, z: Fp)
    ensures Add(Add(x, y), z) == Add(Add(x, z), y)
  {
    hide Add;
    AddAssoc(x, y, z); AddComm(y, z); AddAssoc(x, z, y);
  }

  function Limbs(a: Ef): (r: seq<Fp>)
    ensures |r| == 3
  { [a.c0, a.c1, a.c2] }

  function EfAt(pv: seq<Fp>, off: nat): Ef
    requires off + 3 <= |pv|
  { Ef(pv[off], pv[off + 1], pv[off + 2]) }

  /** Three equal limbs. */
  predicate AssertEq(a: Ef, b: Ef) {
    Sub(a.c0, b.c0) == 0 && Sub(a.c1, b.c1) == 0 && Sub(a.c2, b.c2) == 0
  }

  lemma AssertEqIff(a: Ef, b: Ef)
    ensures AssertEq(a, b) <==> a == b
  {
  }
}
