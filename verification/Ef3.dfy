/** The degree-3 extension Fp[X] / (X^3 - 5), elements as three limbs. */
module Ef3 {

  import opened Options
  import opened M31

  datatype Ef = Ef(c0: Fp, c1: Fp, c2: Fp)

  const ZERO := Ef(0, 0, 0)
  const ONE := Ef(1, 0, 0)

  function Embed(s: Fp): Ef { Ef(s, 0, 0) }

  function EAdd(a: Ef, b: Ef): Ef {
    Ef(Add(a.c0, b.c0), Add(a.c1, b.c1), Add(a.c2, b.c2))
  }

  function ESub(a: Ef, b: Ef): Ef {
    Ef(Sub(a.c0, b.c0), Sub(a.c1, b.c1), Sub(a.c2, b.c2))
  }

  function ENeg(a: Ef): Ef { Ef(Neg(a.c0), Neg(a.c1), Neg(a.c2)) }

  function EMul(a: Ef, b: Ef): Ef {
    Ef(Add(Mul(a.c0, b.c0), Mul(5, Add(Mul(a.c1, b.c2), Mul(a.c2, b.c1)))),
       Add(Add(Mul(a.c0, b.c1), Mul(a.c1, b.c0)), Mul(5, Mul(a.c2, b.c2))),
       Add(Add(Mul(a.c0, b.c2), Mul(a.c1, b.c1)), Mul(a.c2, b.c0)))
  }

  function ESquare(a: Ef): Ef { EMul(a, a) }

  function EDouble(a: Ef): Ef { EAdd(a, a) }

  /** Limb-wise product with 2^-1. */
  function EHalve(a: Ef): Ef {
    Ef(Mul(a.c0, HALF), Mul(a.c1, HALF), Mul(a.c2, HALF))
  }

  function EScale(a: Ef, s: Fp): Ef {
    Ef(Mul(a.c0, s), Mul(a.c1, s), Mul(a.c2, s))
  }

  function EPow(a: Ef, n: nat): Ef {
    if n == 0 then ONE else EMul(a, EPow(a, n - 1))
  }

  // ---- The integer shadow of the extension ----

  datatype ZEf = ZEf(c0: int, c1: int, c2: int)

  function ZMul(a: ZEf, b: ZEf): ZEf {
    ZEf(M(a.c0, b.c0) + 5 * (M(a.c1, b.c2) + M(a.c2, b.c1)),
        M(a.c0, b.c1) + M(a.c1, b.c0) + 5 * M(a.c2, b.c2),
        M(a.c0, b.c2) + M(a.c1, b.c1) + M(a.c2, b.c0))
  }

  function ZAdd(a: ZEf, b: ZEf): ZEf { ZEf(a.c0 + b.c0, a.c1 + b.c1, a.c2 + b.c2) }

  function ERed(a: ZEf): Ef { Ef(Red(a.c0), Red(a.c1), Red(a.c2)) }

  function Lift(a: Ef): ZEf { ZEf(a.c0, a.c1, a.c2) }

  lemma ERedLift(a: Ef)
    ensures ERed(Lift(a)) == a
  {
  }

  lemma RedFive(z: int)
    ensures Mul(5, Red(z)) == Red(5 * z)
  {
    RedMul(5, z);
  }

  lemma ERedMul(a: ZEf, b: ZEf)
    ensures EMul(ERed(a), ERed(b)) == ERed(ZMul(a, b))
  {
    hide Red, Add, Mul, M;
    RedM(a.c0, b.c0); RedM(a.c1, b.c2); RedM(a.c2, b.c1);
    RedAdd(M(a.c1, b.c2), M(a.c2, b.c1));
    RedFive(M(a.c1, b.c2) + M(a.c2, b.c1));
    RedAdd(M(a.c0, b.c0), 5 * (M(a.c1, b.c2) + M(a.c2, b.c1)));
    RedM(a.c0, b.c1); RedM(a.c1, b.c0); RedM(a.c2, b.c2);
    RedAdd(M(a.c0, b.c1), M(a.c1, b.c0));
    RedFive(M(a.c2, b.c2));
    RedAdd(M(a.c0, b.c1) + M(a.c1, b.c0), 5 * M(a.c2, b.c2));
    RedM(a.c0, b.c2); RedM(a.c1, b.c1); RedM(a.c2, b.c0);
    RedAdd(M(a.c0, b.c2), M(a.c1, b.c1));
    RedAdd(M(a.c0, b.c2) + M(a.c1, b.c1), M(a.c2, b.c0));
  }

  lemma ERedAdd(a: ZEf, b: ZEf)
    ensures EAdd(ERed(a), ERed(b)) == ERed(ZAdd(a, b))
  {
    hide Red, Add;
    RedAdd(a.c0, b.c0); RedAdd(a.c1, b.c1); RedAdd(a.c2, b.c2);
  }

  function T(a: int, b: int, c: int): int { a * b * c }

  /** (ab + k(cd + ef)) z for k = 1 and k = 5, in either order of factors. */
  lemma Trilinear(k: int, a: int, b: int, c: int, d: int, e: int, f: int, z: int)
    requires k == 1 || k == 5
    ensures M(M(a, b) + k * (M(c, d) + M(e, f)), z) == T(a, b, z) + k * (T(c, d, z) + T(e, f, z))
    ensures M(z, M(a, b) + k * (M(c, d) + M(e, f))) == T(z, a, b) + k * (T(z, c, d) + T(z, e, f))
  {
    assert z * (a * b) == T(z, a, b) && z * (c * d) == T(z, c, d) && z * (e * f) == T(z, e, f);
  }

  lemma TrilinearMiddle(a: int, b: int, c: int, d: int, e: int, f: int, z: int)
    ensures M(M(a, b) + M(c, d) + 5 * M(e, f), z) == T(a, b, z) + T(c, d, z) + 5 * T(e, f, z)
    ensures M(z, M(a, b) + M(c, d) + 5 * M(e, f)) == T(z, a, b) + T(z, c, d) + 5 * T(z, e, f)
  {
    var p, q, r := a * b, c * d, e * f;
    assert (p + q + 5 * r) * z == p * z + q * z + 5 * (r * z);
    assert z * p == T(z, a, b) && z * q == T(z, c, d) && z * r == T(z, e, f);
  }

  lemma ZMulExpandLeft(a: ZEf, b: ZEf, z: int)
    ensures M(ZMul(a, b).c0, z) == T(a.c0, b.c0, z) + 5 * (T(a.c1, b.c2, z) + T(a.c2, b.c1, z))
    ensures M(ZMul(a, b).c1, z) == T(a.c0, b.c1, z) + T(a.c1, b.c0, z) + 5 * T(a.c2, b.c2, z)
    ensures M(ZMul(a, b).c2, z) == T(a.c0, b.c2, z) + T(a.c1, b.c1, z) + T(a.c2, b.c0, z)
  {
    hide M, T;
    Trilinear(5, a.c0, b.c0, a.c1, b.c2, a.c2, b.c1, z);
    TrilinearMiddle(a.c0, b.c1, a.c1, b.c0, a.c2, b.c2, z);
    Trilinear(1, a.c0, b.c2, a.c1, b.c1, a.c2, b.c0, z);
  }

  lemma ZMulExpandRight(a: ZEf, b: ZEf, z: int)
    ensures M(z, ZMul(a, b).c0) == T(z, a.c0, b.c0) + 5 * (T(z, a.c1, b.c2) + T(z, a.c2, b.c1))
    ensures M(z, ZMul(a, b).c1) == T(z, a.c0, b.c1) + T(z, a.c1, b.c0) + 5 * T(z, a.c2, b.c2)
    ensures M(z, ZMul(a, b).c2) == T(z, a.c0, b.c2) + T(z, a.c1, b.c1) + T(z, a.c2, b.c0)
  {
    hide M, T;
    Trilinear(5, a.c0, b.c0, a.c1, b.c2, a.c2, b.c1, z);
    TrilinearMiddle(a.c0, b.c1, a.c1, b.c0, a.c2, b.c2, z);
    Trilinear(1, a.c0, b.c2, a.c1, b.c1, a.c2, b.c0, z);
  }

  lemma ZMulAssoc(a: ZEf, b: ZEf, c: ZEf)
    ensures ZMul(ZMul(a, b), c) == ZMul(a, ZMul(b, c))
  {
    hide M, T;
    ZMulExpandLeft(a, b, c.c0); ZMulExpandLeft(a, b, c.c1); ZMulExpandLeft(a, b, c.c2);
    ZMulExpandRight(b, c, a.c0); ZMulExpandRight(b, c, a.c1); ZMulExpandRight(b, c, a.c2);
  }

  // ---- Ring laws of the extension ----

  lemma EMulAssoc(a: Ef, b: Ef, c: Ef)
    ensures EMul(EMul(a, b), c) == EMul(a, EMul(b, c))
  {
    hide EMul, ERed, ZMul;
    var x, y, z := Lift(a), Lift(b), Lift(c);
    ERedLift(a); ERedLift(b); ERedLift(c);
    ERedMul(x, y); ERedMul(ZMul(x, y), z);
    ERedMul(y, z); ERedMul(x, ZMul(y, z));
    ZMulAssoc(x, y, z);
  }

  lemma EMulComm(a: Ef, b: Ef)
    ensures EMul(a, b) == EMul(b, a)
  {
    hide Mul, Add;
    MulComm(a.c0, b.c0); MulComm(a.c1, b.c2); MulComm(a.c2, b.c1);
    MulComm(a.c0, b.c1); MulComm(a.c1, b.c0); MulComm(a.c2, b.c2);
    MulComm(a.c0, b.c2); MulComm(a.c1, b.c1); MulComm(a.c2, b.c0);
    AddComm(Mul(a.c1, b.c2), Mul(a.c2, b.c1));
    AddComm(Mul(a.c0, b.c1), Mul(a.c1, b.c0));
    AddSwap3(Mul(a.c0, b.c2), Mul(a.c1, b.c1), Mul(a.c2, b.c0));
  }

  lemma AddSwap3(x: Fp, y: Fp, z: Fp)
    ensures Add(Add(x, y), z) == Add(Add(z, y), x)
  {
    hide Add;
    AddComm(x, y); AddComm(Add(y, x), z); AddAssoc(z, y, x);
  }

  lemma EMulAdd(a: Ef, b: Ef, c: Ef)
    ensures EMul(a, EAdd(b, c)) == EAdd(EMul(a, b), EMul(a, c))
  {
    hide EMul, ERed, ZMul, EAdd, ZAdd;
    var x, y, z := Lift(a), Lift(b), Lift(c);
    ERedLift(a); ERedLift(b); ERedLift(c);
    ERedAdd(y, z); ERedMul(x, ZAdd(y, z));
    ERedMul(x, y); ERedMul(x, z); ERedAdd(ZMul(x, y), ZMul(x, z));
    ZMulAdd(x, y, z);
  }

  lemma ZMulAdd(a: ZEf, b: ZEf, c: ZEf)
    ensures ZMul(a, ZAdd(b, c)) == ZAdd(ZMul(a, b), ZMul(a, c))
  {
    hide M;
    MDistr(a.c0, b.c0, c.c0); MDistr(a.c0, b.c1, c.c1); MDistr(a.c0, b.c2, c.c2);
    MDistr(a.c1, b.c0, c.c0); MDistr(a.c1, b.c1, c.c1); MDistr(a.c1, b.c2, c.c2);
    MDistr(a.c2, b.c0, c.c0); MDistr(a.c2, b.c1, c.c1); MDistr(a.c2, b.c2, c.c2);
  }

  lemma EMulAddLeft(a: Ef, b: Ef, c: Ef)
    ensures EMul(EAdd(a, b), c) == EAdd(EMul(a, c), EMul(b, c))
  {
    hide EMul, EAdd;
    EMulComm(EAdd(a, b), c); EMulComm(a, c); EMulComm(b, c);
    EMulAdd(c, a, b);
  }

  lemma EMulOne(a: Ef)
    ensures EMul(a, ONE) == a == EMul(ONE, a)
  {
    hide Mul;
    MulZero(a.c0); MulZero(a.c1); MulZero(a.c2); MulZero(5);
    MulOne(a.c0); MulOne(a.c1); MulOne(a.c2);
  }

  lemma EMulZero(a: Ef)
    ensures EMul(a, ZERO) == ZERO == EMul(ZERO, a)
  {
    hide Mul;
    MulZero(a.c0); MulZero(a.c1); MulZero(a.c2); MulZero(5);
  }

  /** Multiplying by an embedded base element scales the limbs. */
  lemma EScaleIsMul(a: Ef, s: Fp)
    ensures EScale(a, s) == EMul(a, Embed(s))
  {
    hide Mul;
    MulZero(a.c0); MulZero(a.c1); MulZero(a.c2);
    assert Mul(5, 0) == 0 by { MulZero(5); }
  }

  lemma EAddComm(a: Ef, b: Ef)
    ensures EAdd(a, b) == EAdd(b, a)
  {
  }

  lemma EAddAssoc(a: Ef, b: Ef, c: Ef)
    ensures EAdd(EAdd(a, b), c) == EAdd(a, EAdd(b, c))
  {
    hide Add;
    AddAssoc(a.c0, b.c0, c.c0); AddAssoc(a.c1, b.c1, c.c1); AddAssoc(a.c2, b.c2, c.c2);
  }

  lemma EAddZero(a: Ef)
    ensures EAdd(a, ZERO) == a == EAdd(ZERO, a)
  {
  }

  lemma ESubAdd(a: Ef, b: Ef, c: Ef)
    ensures ESub(a, b) == c <==> a == EAdd(b, c)
  {
  }

  lemma EMulSub(a: Ef, b: Ef, c: Ef)
    ensures EMul(a, ESub(b, c)) == ESub(EMul(a, b), EMul(a, c))
  {
    hide EMul, EAdd, ESub;
    ESubAdd(b, c, ESub(b, c));
    EMulAdd(a, c, ESub(b, c));
    ESubAdd(EMul(a, b), EMul(a, c), EMul(a, ESub(b, c)));
  }

  lemma EHalveDouble(a: Ef)
    ensures EHalve(EAdd(a, a)) == a
  {
    hide Mul, Add;
    HalveDouble(a.c0); HalveDouble(a.c1); HalveDouble(a.c2);
  }

  lemma EInverseUnique(a: Ef, b: Ef, c: Ef)
    requires EMul(a, b) == ONE && EMul(a, c) == ONE
    ensures b == c
  {
    hide EMul;
    EMulOne(b); EMulOne(c);
    EMulAssoc(b, a, c);
    EMulComm(b, a);
  }

  lemma EInverseUniqueAll(a: Ef)
    ensures forall b: Ef, c: Ef | EMul(a, b) == ONE && EMul(a, c) == ONE :: b == c
  {
    hide EMul;
    forall b: Ef, c: Ef | EMul(a, b) == ONE && EMul(a, c) == ONE ensures b == c {
      EInverseUnique(a, b, c);
    }
  }

  predicate EInvertible(a: Ef) {
    exists x: int, y: int, z: int :: 0 <= x < P && 0 <= y < P && 0 <= z < P && EMul(a, Ef(x, y, z)) == ONE
  }

  /** The inverse when there is one. */
  function TryInverse(a: Ef): (r: Option<Ef>)
    ensures r.Some? <==> EInvertible(a)
    ensures r.Some? ==> EMul(a, r.value) == ONE
  {
    hide EMul;
    if EInvertible(a) then
      EInverseUniqueAll(a);
      var x: int, y: int, z: int :| 0 <= x < P && 0 <= y < P && 0 <= z < P && EMul(a, Ef(x, y, z)) == ONE;
      Some(Ef(x, y, z))
    else None
  }

  lemma EPowAdd(a: Ef, m: nat, n: nat)
    ensures EPow(a, m + n) == EMul(EPow(a, m), EPow(a, n))
  {
    hide EMul;
    if m == 0 {
      EMulOne(EPow(a, n));
    } else {
      EPowAdd(a, m - 1, n);
      EMulAssoc(a, EPow(a, m - 1), EPow(a, n));
    }
  }
}
