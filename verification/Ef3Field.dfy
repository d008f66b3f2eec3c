/** Fp[X] / (X^3 - 5) is a field, since 5 is no cube; and -1 is no square in it. */
module Ef3Field {

  import opened M31
  import opened Ef3
  import opened Primality
  import opened Fermat

  lemma InvertibleBy(a: Ef, b: Ef)
    requires EMul(a, b) == ONE
    ensures EInvertible(a)
  {
    hide EMul;
    assert EMul(a, Ef(b.c0, b.c1, b.c2)) == ONE;
  }

  /** A factor of an invertible element is invertible. */
  lemma FactorInvertible(a: Ef, b: Ef)
    requires EInvertible(EMul(a, b))
    ensures EInvertible(a)
  {
    hide EMul, EInvertible;
    var c := TryInverse(EMul(a, b)).value;
    EMulAssoc(a, b, c);
    InvertibleBy(a, EMul(b, c));
  }

  lemma ScalarInvertible(s: Fp)
    requires s != 0
    ensures EInvertible(Ef(s, 0, 0))
  {
    hide Mul, Add;
    var b := NonzeroInvertible(s);
    MulZero(s); MulZero(b); MulZero(0); MulZero(5);
    assert Add(0, 0) == 0 && Add(1, 0) == 1 by { AddZero(0); AddZero(1); }
    InvertibleBy(Ef(s, 0, 0), Ef(b, 0, 0));
  }

  /** (X + s)(X^2 - s X + s^2) == s^3 + 5. */
  lemma MonicLinear(s: Fp)
    ensures EMul(Ef(s, 1, 0), Ef(Mul(s, s), Neg(s), 1)) == Ef(Add(Mul(s, Mul(s, s)), 5), 0, 0)
  {
    hide Mul, Add, Neg;
    var q, n := Mul(s, s), Neg(s);
    MulOne(1); MulOne(n); MulOne(q); MulOne(s); MulOne(5);
    MulZero(n); MulZero(q); MulZero(1); MulZero(5);
    MulNeg(s, s);
    AddZero(1); AddZero(0); AddZero(Add(s, n));
    Cancels(q); Cancels(s);
    AddZero(Add(Neg(q), q));
  }

  lemma Cancels(a: Fp)
    ensures Add(Neg(a), a) == 0 == Add(a, Neg(a))
  {
  }

  lemma NegOfCube(s: Fp)
    ensures Mul(Neg(s), Mul(Neg(s), Neg(s))) == Neg(Mul(s, Mul(s, s)))
  {
    hide Mul, Neg;
    MulNeg(Neg(s), s);
    MulComm(Neg(s), s);
    MulNeg(s, s);
    NegTwice(Mul(s, s));
    MulComm(Neg(s), Mul(s, s));
    MulNeg(Mul(s, s), s);
    MulComm(Mul(s, s), s);
  }

  lemma NegTwice(a: Fp)
    ensures Neg(Neg(a)) == a
  {
  }

  lemma AddFiveZero(a: Fp)
    ensures Add(a, 5) == 0 ==> Neg(a) == 5
  {
  }

  lemma MonicLinearInvertible(s: Fp)
    ensures EInvertible(Ef(s, 1, 0))
  {
    hide Mul, Add, Neg, EMul, EInvertible;
    var cube := Mul(s, Mul(s, s));
    MonicLinear(s);
    FiveNotCube(Neg(s));
    NegOfCube(s);
    AddFiveZero(cube);
    ScalarInvertible(Add(cube, 5));
    FactorInvertible(Ef(s, 1, 0), Ef(Mul(s, s), Neg(s), 1));
  }

  lemma Scaled(a: Ef, c: Fp)
    ensures EMul(a, Ef(c, 0, 0)) == Ef(Mul(a.c0, c), Mul(a.c1, c), Mul(a.c2, c))
  {
    hide Mul, EMul;
    EScaleIsMul(a, c);
  }

  lemma LinearInvertible(a0: Fp, a1: Fp)
    requires a0 != 0 || a1 != 0
    ensures EInvertible(Ef(a0, a1, 0))
  {
    hide Mul, EMul, EInvertible;
    if a1 == 0 {
      ScalarInvertible(a0);
    } else {
      var c := NonzeroInvertible(a1);
      MulZero(c);
      Scaled(Ef(a0, a1, 0), c);
      MonicLinearInvertible(Mul(a0, c));
      FactorInvertible(Ef(a0, a1, 0), Ef(c, 0, 0));
    }
  }

  /** (X^2 + v X + u)(X - v) == (u - v^2) X + 5 - u v. */
  lemma MonicQuadratic(u: Fp, v: Fp)
    ensures EMul(Ef(u, v, 1), Ef(Neg(v), 1, 0)) == Ef(Add(Neg(Mul(u, v)), 5), Add(u, Neg(Mul(v, v))), 0)
  {
    hide Mul, Add, Neg;
    var n := Neg(v);
    MulNeg(u, v); MulNeg(v, v);
    MulOne(1); MulOne(u); MulOne(v); MulOne(n); MulOne(5);
    MulZero(v); MulZero(u); MulZero(1); MulZero(5);
    AddZero(1); AddZero(Add(u, Mul(v, n))); AddZero(v);
    Cancels(v);
  }

  lemma AddNegZero(a: Fp, b: Fp)
    ensures Add(a, Neg(b)) == 0 ==> a == b
  {
  }

  lemma MonicQuadraticInvertible(u: Fp, v: Fp)
    ensures EInvertible(Ef(u, v, 1))
  {
    hide Mul, Add, Neg, EMul, EInvertible;
    var w0, w1 := Add(Neg(Mul(u, v)), 5), Add(u, Neg(Mul(v, v)));
    MonicQuadratic(u, v);
    if w0 == 0 && w1 == 0 {
      AddFiveZero(Neg(Mul(u, v)));
      NegTwice(Mul(u, v));
      AddNegZero(u, Mul(v, v));
      MulComm(u, v);
      FiveNotCube(v);
    } else {
      LinearInvertible(w0, w1);
      FactorInvertible(Ef(u, v, 1), Ef(Neg(v), 1, 0));
    }
  }

  /** Every nonzero element is invertible. */
  lemma NonzeroInvertibleEf(a: Ef)
    requires a != ZERO
    ensures EInvertible(a)
  {
    hide Mul, EMul, EInvertible;
    if a.c2 == 0 {
      LinearInvertible(a.c0, a.c1);
    } else {
      var c := NonzeroInvertible(a.c2);
      Scaled(a, c);
      MonicQuadraticInvertible(Mul(a.c0, c), Mul(a.c1, c));
      FactorInvertible(a, Ef(c, 0, 0));
    }
  }

  lemma InvertibleIff(a: Ef)
    ensures EInvertible(a) <==> a != ZERO
  {
    hide EMul, EInvertible;
    if a != ZERO {
      NonzeroInvertibleEf(a);
    } else if EInvertible(a) {
      EMulZero(TryInverse(a).value);
    }
  }

  lemma NoZeroDivisorsEf(a: Ef, b: Ef)
    ensures EMul(a, b) == ZERO <==> a == ZERO || b == ZERO
  {
    hide EMul, EInvertible;
    EMulZero(a); EMulZero(b);
    if EMul(a, b) == ZERO && a != ZERO {
      NonzeroInvertibleEf(a);
      var c := TryInverse(a).value;
      EMulComm(a, c);
      EMulAssoc(c, a, b);
      EMulOne(b);
      EMulZero(c);
    }
  }

  lemma SubIsZero(a: Ef, b: Ef)
    ensures ESub(a, b) == ZERO <==> a == b
  {
    hide Sub;
    SubZero(a.c0, b.c0); SubZero(a.c1, b.c1); SubZero(a.c2, b.c2);
  }

  // ---- Squares ----

  lemma Multiple(k: int, x: int)
    requires Red(x) == 0
    ensures Red(k * x) == 0
  {
    hide Mul;
    RedMul(k, x);
    MulZero(Red(k));
  }

  lemma SumOfMultiples(x: int, y: int, z: int)
    requires Red(x) == 0 && Red(y) == 0 && Red(z) == 0
    ensures Red(x + y + z) == 0
  {
    RedAdd(x, y);
    RedAdd(x + y, z);
  }

  /** If x + y X + z X^2 squares to -1 then z (9 x^2 + 1) vanishes: a combination of the
      three limbs of the square. */
  lemma Combination(x: int, y: int, z: int)
    ensures z * (9 * x * x + 1)
            == z * (x * x + 10 * (y * z) + 1) + 4 * x * (2 * (x * z) + y * y) + (-2 * y) * (2 * (x * y) + 5 * (z * z))
  {
    OverSums(x, y, z, x * x, y * z, x * z, y * y, x * y, z * z);
    Regroup(x, z);
    Regroup(y, x);
    Regroup(z, y);
    assert y * (x * y) == x * (y * y) && y * (z * z) == z * (y * z);
    assert z * (9 * x * x + 1) == 9 * (z * (x * x)) + z;
  }

  lemma Regroup(x: int, z: int)
    ensures x * (x * z) == z * (x * x) && x * (z * x) == z * (x * x)
  {
  }

  lemma OverSums(x: int, y: int, z: int, xx: int, yz: int, xz: int, yy: int, xy: int, zz: int)
    ensures z * (xx + 10 * yz + 1) == z * xx + 10 * (z * yz) + z
    ensures 4 * x * (2 * xz + yy) == 8 * (x * xz) + 4 * (x * yy)
    ensures (-2 * y) * (2 * xy + 5 * zz) == -4 * (y * xy) - 10 * (y * zz)
  {
  }

  /** The limbs of a square, as residues of integers. */
  lemma SquareLimbs(a: Ef)
    ensures var x: int, y: int, z: int := a.c0, a.c1, a.c2;
      ESquare(a) == Ef(Red(x * x + 10 * (y * z)), Red(2 * (x * y) + 5 * (z * z)), Red(2 * (x * z) + y * y))
  {
    hide EMul, ZMul;
    ERedLift(a);
    ERedMul(Lift(a), Lift(a));
    ZSquare(Lift(a));
  }

  lemma ZSquare(a: ZEf)
    ensures ZMul(a, a) == ZEf(a.c0 * a.c0 + 10 * (a.c1 * a.c2), 2 * (a.c0 * a.c1) + 5 * (a.c2 * a.c2), 2 * (a.c0 * a.c2) + a.c1 * a.c1)
  {
    assert a.c2 * a.c1 == a.c1 * a.c2 && a.c1 * a.c0 == a.c0 * a.c1 && a.c2 * a.c0 == a.c0 * a.c2;
  }

  lemma RedPlusOne(x: int)
    ensures Red(x) == P - 1 <==> Red(x + 1) == 0
  {
  }

  /** -1 is no square in the extension either. */
  lemma MinusOneNotSquareEf(a: Ef)
    ensures EAdd(ONE, ESquare(a)) != ZERO
  {
    hide EMul, Mul, Red, Add;
    SquareLimbs(a);
    var x: int, y: int, z: int := a.c0, a.c1, a.c2;
    if EAdd(ONE, ESquare(a)) == ZERO {
      ZeroLimbs(ESquare(a));
      RedPlusOne(x * x + 10 * (y * z));
      Multiple(z, x * x + 10 * (y * z) + 1);
      Multiple(4 * x, 2 * (x * z) + y * y);
      Multiple(-2 * y, 2 * (x * y) + 5 * (z * z));
      Combination(x, y, z);
      SumOfMultiples(z * (x * x + 10 * (y * z) + 1), 4 * x * (2 * (x * z) + y * y), (-2 * y) * (2 * (x * y) + 5 * (z * z)));
      NoRoot(a, x, y, z);
    }
  }

  lemma ZeroLimbs(s: Ef)
    requires EAdd(ONE, s) == ZERO
    ensures s.c0 == P - 1 && s.c1 == 0 && s.c2 == 0
  {
  }

  lemma NoRoot(a: Ef, x: int, y: int, z: int)
    requires x == a.c0 && y == a.c1 && z == a.c2
    requires Red(z * (9 * x * x + 1)) == 0
    ensures Red(x * x + 10 * (y * z)) != P - 1
  {
    hide Mul, Red;
    RedCanonical(a.c0); RedCanonical(a.c2);
    if z == 0 {
      RedMul(x, x);
      MinusOneNotSquare(a.c0);
    } else {
      RedMul(z, 9 * x * x + 1);
      NoZeroDivisors(a.c2, Red(9 * x * x + 1));
      RedPlusOne(9 * x * x);
      RedMul(3 * x, 3 * x);
      assert (3 * x) * (3 * x) == 9 * x * x;
      MinusOneNotSquare(Red(3 * x));
    }
  }
}
