/** The Mersenne-31 base field, as canonical residues modulo P = 2^31 - 1.

    Ring laws are obtained from the integers: Red is a ring homomorphism from
    int onto Fp (RedAdd, RedSub, RedMul), so an identity between polynomials
    over int carries over to Fp. */
module M31 {

  const P: int := 0x7fff_ffff

  type Fp = x: int | 0 <= x < P witness 0

  /** 2^30, the inverse of 2. */
  const HALF: Fp := 0x4000_0000

  function Red(z: int): Fp { z % P }

  function Add(a: Fp, b: Fp): Fp { (a + b) % P }

  function Sub(a: Fp, b: Fp): Fp { (a - b) % P }

  function Neg(a: Fp): Fp { Sub(0, a) }

  function Mul(a: Fp, b: Fp): Fp { (a * b) % P }

  function Square(a: Fp): Fp { Mul(a, a) }

  function Double(a: Fp): Fp { Add(a, a) }

  lemma DivModUnique(z: int, q: int, r: int)
    requires 0 <= r < P && z == q * P + r
    ensures z / P == q && z % P == r
  {
    var q', r' := z / P, z % P;
    assert (q - q') * P == r' - r;
  }

  lemma RedShift(z: int, k: int)
    ensures Red(z + k * P) == Red(z)
  {
    var q, r := z / P, z % P;
    assert z + k * P == (q + k) * P + r;
    DivModUnique(z + k * P, q + k, r);
  }

  lemma RedAdd(a: int, b: int)
    ensures Add(Red(a), Red(b)) == Red(a + b)
  {
    assert a + b == Red(a) + Red(b) + (a / P + b / P) * P;
    RedShift(Red(a) + Red(b), a / P + b / P);
  }

  lemma RedSub(a: int, b: int)
    ensures Sub(Red(a), Red(b)) == Red(a - b)
  {
    assert a - b == Red(a) - Red(b) + (a / P - b / P) * P;
    RedShift(Red(a) - Red(b), a / P - b / P);
  }

  lemma RedMul(a: int, b: int)
    ensures Mul(Red(a), Red(b)) == Red(a * b)
  {
    var k, l := a / P, b / P;
    var m := Red(a) * l + k * Red(b) + k * l * P;
    calc {
      a * b;
      (Red(a) + k * P) * (Red(b) + l * P);
      Red(a) * Red(b) + Red(a) * (l * P) + (k * P) * Red(b) + (k * P) * (l * P);
      Red(a) * Red(b) + m * P;
    }
    RedShift(Red(a) * Red(b), m);
  }

  lemma RedCanonical(a: Fp)
    ensures Red(a) == a
  {
  }

  lemma AddComm(a: Fp, b: Fp)
    ensures Add(a, b) == Add(b, a)
  {
  }

  lemma AddAssoc(a: Fp, b: Fp, c: Fp)
    ensures Add(Add(a, b), c) == Add(a, Add(b, c))
  {
    hide Add, Red;
    RedCanonical(a); RedCanonical(b); RedCanonical(c);
    RedAdd(a, b); RedAdd(a + b, c);
    RedAdd(b, c); RedAdd(a, b + c);
  }

  lemma MulComm(a: Fp, b: Fp)
    ensures Mul(a, b) == Mul(b, a)
  {
    assert a * b == b * a;
  }

  lemma MulAssoc(a: Fp, b: Fp, c: Fp)
    ensures Mul(Mul(a, b), c) == Mul(a, Mul(b, c))
  {
    hide Mul, Red;
    RedCanonical(a); RedCanonical(b); RedCanonical(c);
    RedMul(a, b); RedMul(a * b, c);
    RedMul(b, c); RedMul(a, b * c);
    assert (a * b) * c == a * (b * c);
  }

  lemma MulAdd(a: Fp, b: Fp, c: Fp)
    ensures Mul(a, Add(b, c)) == Add(Mul(a, b), Mul(a, c))
  {
    hide Add, Mul, Red;
    RedCanonical(a); RedCanonical(b); RedCanonical(c);
    RedAdd(b, c);
    RedMul(a, b + c);
    RedMul(a, b); RedMul(a, c);
    RedAdd(a * b, a * c);
    assert a * (b + c) == a * b + a * c;
  }

  lemma MulSub(a: Fp, b: Fp, c: Fp)
    ensures Mul(a, Sub(b, c)) == Sub(Mul(a, b), Mul(a, c))
  {
    hide Sub, Mul, Red;
    RedCanonical(a); RedCanonical(b); RedCanonical(c);
    RedSub(b, c);
    RedMul(a, b - c);
    RedMul(a, b); RedMul(a, c);
    RedSub(a * b, a * c);
    assert a * (b - c) == a * b - a * c;
  }

  lemma MulNeg(a: Fp, b: Fp)
    ensures Mul(a, Neg(b)) == Neg(Mul(a, b))
  {
    MulSub(a, 0, b);
    MulZero(a);
  }

  lemma MulOne(a: Fp)
    ensures Mul(a, 1) == a == Mul(1, a)
  {
  }

  lemma MulZero(a: Fp)
    ensures Mul(a, 0) == 0 == Mul(0, a)
  {
  }

  lemma InverseUnique(a: Fp, b: Fp, c: Fp)
    requires Mul(a, b) == 1 && Mul(a, c) == 1
    ensures b == c
  {
    calc {
      b;
      { MulOne(b); }
      Mul(b, Mul(a, c));
      { MulAssoc(b, a, c); MulComm(b, a); }
      Mul(1, c);
      { MulOne(c); }
      c;
    }
  }

  lemma HalveDouble(a: Fp)
    ensures Mul(Add(a, a), HALF) == a
  {
    RedMul(a + a, HALF);
    assert (a + a) * HALF == a + a * P;
    RedShift(a, a);
    RedCanonical(a);
  }

  predicate Invertible(a: Fp) {
    exists b: int :: 0 <= b < P && Mul(a, b) == 1
  }

  /** The inverse of an invertible element; the source panics on the others. */
  function Inverse(a: Fp): (r: Fp)
    ensures Invertible(a) ==> Mul(a, r) == 1
  {
    if Invertible(a) then
      assert forall b, c | 0 <= b < P && 0 <= c < P && Mul(a, b) == 1 && Mul(a, c) == 1 :: b == c by {
        forall b: Fp, c: Fp | Mul(a, b) == 1 && Mul(a, c) == 1 ensures b == c {
          InverseUnique(a, b, c);
        }
      }
      var b: int :| 0 <= b < P && Mul(a, b) == 1;
      b
    else 0
  }

  lemma InverseIs(a: Fp, b: Fp)
    requires Mul(a, b) == 1
    ensures Invertible(a) && Inverse(a) == b
  {
    InverseUnique(a, b, Inverse(a));
  }

  function Pow(a: Fp, n: nat): Fp {
    if n == 0 then 1 else Mul(a, Pow(a, n - 1))
  }

  lemma SubZero(a: Fp, b: Fp)
    ensures Sub(a, b) == 0 <==> a == b
  {
  }

  lemma AddZero(a: Fp)
    ensures Add(a, 0) == a == Add(0, a)
  {
  }

  // ---- Products over the integers, by name ----

  function M(a: int, b: int): int { a * b }

  lemma RedM(a: int, b: int)
    ensures Mul(Red(a), Red(b)) == Red(M(a, b))
  {
    RedMul(a, b);
  }

  lemma MDistr(a: int, b: int, c: int)
    ensures M(a, b + c) == M(a, b) + M(a, c)
    ensures M(a, b - c) == M(a, b) - M(a, c)
  {
  }
}
