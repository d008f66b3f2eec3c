/** The modulus of M31 is prime, so the base field has no zero divisors.

    The generator of the circle subgroup of order 2^31 keeps that order modulo any odd
    divisor q of P; with q * q <= P there would be too few residue pairs for its
    multiples. */
module Primality {

  import opened M31
  import opened PowersOfTwo
  import opened Circle

  ghost predicate IsPrime(n: int) {
    n > 1 && forall d :: 1 < d < n ==> n % d != 0
  }

  // ---- Pigeonhole ----

  lemma {:induction false} Pigeonhole(f: nat -> nat, n: nat, m: nat)
    requires n > m && forall k: nat :: k < n ==> f(k) < m
    ensures exists i: nat, j: nat :: i < j < n && f(i) == f(j)
    decreases m
  {
    var last := f(n - 1);
    if k: nat :| k < n - 1 && f(k) == last {
    } else {
      var g: nat -> nat := (k: nat) => if f(k) == m - 1 then last else f(k);
      Pigeonhole(g, n - 1, m - 1);
      var i: nat, j: nat :| i < j < n - 1 && g(i) == g(j);
      assert f(i) == f(j);
    }
  }

  // ---- Congruence of points modulo a divisor of P ----

  ghost predicate Divides(q: int) { q > 0 && P % q == 0 }

  ghost predicate Cong(a: int, b: int, q: int) { exists k: int :: a - b == k * q }

  ghost predicate Same(p: Point, r: Point, q: int) { Cong(p.x, r.x, q) && Cong(p.y, r.y, q) }

  lemma CongBy(a: int, b: int, q: int, k: int)
    requires a - b == k * q
    ensures Cong(a, b, q)
  {
  }

  lemma CongTrans(a: int, b: int, c: int, q: int)
    requires Cong(a, b, q) && Cong(b, c, q)
    ensures Cong(a, c, q)
  {
    var k: int :| a - b == k * q;
    var l: int :| b - c == l * q;
    assert (k + l) * q == k * q + l * q;
    CongBy(a, c, q, k + l);
  }

  lemma CongSym(a: int, b: int, q: int)
    requires Cong(a, b, q)
    ensures Cong(b, a, q)
  {
    var k: int :| a - b == k * q;
    assert (-k) * q == -(k * q);
    CongBy(b, a, q, -k);
  }

  lemma CongMul(a: int, b: int, c: int, d: int, q: int)
    requires Cong(a, b, q) && Cong(c, d, q)
    ensures Cong(a * c, b * d, q)
  {
    var k: int :| a - b == k * q;
    var l: int :| c - d == l * q;
    calc {
      a * c - b * d;
      (a - b) * c + b * (c - d);
      (k * q) * c + b * (l * q);
      (k * c + b * l) * q;
    }
    CongBy(a * c, b * d, q, k * c + b * l);
  }

  lemma CongAddSub(a: int, b: int, c: int, d: int, q: int)
    requires Cong(a, b, q) && Cong(c, d, q)
    ensures Cong(a + c, b + d, q) && Cong(a - c, b - d, q)
  {
    var k: int :| a - b == k * q;
    var l: int :| c - d == l * q;
    assert (k + l) * q == k * q + l * q && (k - l) * q == k * q - l * q;
    CongBy(a + c, b + d, q, k + l);
    CongBy(a - c, b - d, q, k - l);
  }

  /** Reduction modulo P does not change the residue modulo a divisor of P. */
  lemma CongRed(z: int, q: int)
    requires Divides(q)
    ensures Cong(Red(z), z, q)
  {
    var k, m := z / P, P / q;
    assert P == m * q;
    assert Red(z) - z == (-k) * P;
    assert (-k) * (m * q) == ((-k) * m) * q;
    CongBy(Red(z), z, q, (-k) * m);
  }

  lemma SameAdd(p: Point, r: Point, s: Point, t: Point, q: int)
    requires Divides(q) && Same(p, r, q) && Same(s, t, q)
    ensures Same(PAdd(p, s), PAdd(r, t), q)
  {
    hide Cong;
    AddCoordinates(p, s, q);
    AddCoordinates(r, t, q);
    CongMul(p.x, r.x, s.x, t.x, q); CongMul(p.y, r.y, s.y, t.y, q);
    CongMul(p.x, r.x, s.y, t.y, q); CongMul(p.y, r.y, s.x, t.x, q);
    CongAddSub(p.x * s.x, r.x * t.x, p.y * s.y, r.y * t.y, q);
    CongAddSub(p.x * s.y, r.x * t.y, p.y * s.x, r.y * t.x, q);
    var x, y := r.x * t.x - r.y * t.y, r.x * t.y + r.y * t.x;
    CongTrans(PAdd(p, s).x, p.x * s.x - p.y * s.y, x, q);
    CongTrans(PAdd(p, s).y, p.x * s.y + p.y * s.x, y, q);
    CongSym(PAdd(r, t).x, x, q);
    CongSym(PAdd(r, t).y, y, q);
    CongTrans(PAdd(p, s).x, x, PAdd(r, t).x, q);
    CongTrans(PAdd(p, s).y, y, PAdd(r, t).y, q);
  }

  lemma AddCoordinates(p: Point, s: Point, q: int)
    requires Divides(q)
    ensures Cong(PAdd(p, s).x, p.x * s.x - p.y * s.y, q)
    ensures Cong(PAdd(p, s).y, p.x * s.y + p.y * s.x, q)
  {
    hide Cong, Red, Mul, Add, Sub;
    RedCanonical(p.x); RedCanonical(p.y); RedCanonical(s.x); RedCanonical(s.y);
    RedMul(p.x, s.x); RedMul(p.y, s.y); RedSub(p.x * s.x, p.y * s.y);
    RedMul(p.x, s.y); RedMul(p.y, s.x); RedAdd(p.x * s.y, p.y * s.x);
    CongRed(p.x * s.x - p.y * s.y, q);
    CongRed(p.x * s.y + p.y * s.x, q);
  }

  lemma SameRefl(p: Point, q: int)
    ensures Same(p, p, q)
  {
    CongBy(p.x, p.x, q, 0);
    CongBy(p.y, p.y, q, 0);
  }

  // ---- The order of a generator modulo q ----

  lemma {:induction false} TimesHalfTurn(n: nat)
    ensures Times(HALF_TURN, n) == if n % 2 == 0 then IDENTITY else HALF_TURN
  {
    hide PAdd;
    if n > 0 {
      TimesHalfTurn(n - 1);
      AddHalfTurn(HALF_TURN);
      PAddIdentity(HALF_TURN);
    }
  }

  lemma HalfTurnDiffers(q: int)
    requires Divides(q) && q > 1
    ensures !Same(HALF_TURN, IDENTITY, q)
  {
    if Same(HALF_TURN, IDENTITY, q) {
      var k: int :| P - 1 - 1 == k * q;
      var m := P / q;
      assert (m - k) * q == m * q - k * q == 2;
      FactorOfTwo(m - k, q);
    }
  }

  lemma FactorOfTwo(a: int, q: int)
    requires q > 1 && a * q == 2
    ensures a == 1 && q == 2
  {
    if a >= 2 {
      AtLeast(a, 2, q);
    } else if a <= 0 {
      AtLeast(0, a, q);
    }
  }

  lemma AtLeast(a: int, b: int, q: int)
    requires a >= b && q > 0
    ensures a * q >= b * q
  {
  }

  /** A multiple of the generator of order 2^k that is the identity modulo q is a
      multiple by a multiple of 2^k. */
  lemma {:induction false} OrderModulo(g: Tower, k: nat, d: nat, q: int) returns (m: nat)
    requires g.Valid() && k < |g.pts| && Divides(q) && q > 1
    requires Same(Times(g.pts[k], d), IDENTITY, q)
    ensures d == Pow2(k) * m
  {
    hide PAdd, OnCircle, Same, Divides, Times;
    if k == 0 {
      m := d;
    } else {
      TimesDouble(g.pts[k], d);
      TimesAdd(g.pts[k], d, d);
      SameAdd(Times(g.pts[k], d), IDENTITY, Times(g.pts[k], d), IDENTITY, q);
      PAddIdentity(IDENTITY);
      var n := OrderModulo(g, k - 1, d, q);
      TimesTimes(g.pts[k], Pow2(k - 1), n);
      GeneratorOrder(g, k);
      TimesHalfTurn(n);
      if n % 2 == 1 {
        HalfTurnDiffers(q);
        assert false;
      }
      m := n / 2;
      assert Pow2(k - 1) * n == Pow2(k) * m by { assert n == 2 * m; }
    }
  }

  /** Equal residues at i < j give a multiple j - i that is the identity. */
  lemma DifferenceIsIdentity(p: Point, i: nat, j: nat, q: int)
    requires OnCircle(p) && Divides(q) && i < j && Same(Times(p, i), Times(p, j), q)
    ensures Same(Times(p, j - i), IDENTITY, q)
  {
    hide PAdd, OnCircle, Times, Conj, Cong, Divides;
    var a, b := Times(p, i), Times(p, j);
    OnCircleTimes(p, i);
    CircleIffInverse(a);
    PAddComm(a, Conj(a));
    TimesAdd(p, i, j - i);
    PAddAssoc(Conj(a), a, Times(p, j - i));
    PAddIdentity(Times(p, j - i));
    SameRefl(Conj(a), q);
    CongSym(a.x, b.x, q); CongSym(a.y, b.y, q);
    SameAdd(Conj(a), Conj(a), b, a, q);
  }

  // ---- Primality ----

  function Slot(p: Point, q: int): (r: nat)
    requires q > 0
    ensures r < q * q
  {
    SlotBound(p.x % q, p.y % q, q);
    (p.x % q) * q + p.y % q
  }

  lemma SlotBound(a: nat, b: nat, q: nat)
    requires a < q && b < q
    ensures a * q + b < q * q
  {
    var d: nat := q - a - 1;
    Spread(a + 1, d, q);
    Spread(a, 1, q);
    AtLeast(d, 0, q);
  }

  lemma Spread(x: nat, y: nat, q: nat)
    ensures (x + y) * q == x * q + y * q
  {
  }

  lemma SlotDetermines(p: Point, r: Point, q: int)
    requires q > 0 && Slot(p, q) == Slot(r, q)
    ensures Same(p, r, q)
  {
    var a, b, c, d := p.x % q, p.y % q, r.x % q, r.y % q;
    assert (a - c) * q == d - b && (c - a) * q == b - d;
    if a > c { AtLeast(a - c, 1, q); }
    if a < c { AtLeast(c - a, 1, q); }
    SameResidue(p.x, r.x, q);
    SameResidue(p.y, r.y, q);
  }

  lemma SameResidue(x: int, y: int, q: int)
    requires q > 0 && x % q == y % q
    ensures Cong(x, y, q)
  {
    assert x - y == (x / q) * q - (y / q) * q;
    assert (x / q - y / q) * q == (x / q) * q - (y / q) * q;
    CongBy(x, y, q, x / q - y / q);
  }

  lemma NoSmallDivisor(q: int)
    requires q > 1 && q * q <= P
    ensures P % q != 0
  {
    hide PAdd, OnCircle, Times, Same, Slot, Pow2, StandardTower;
    if P % q == 0 {
      var g := StandardTower();
      StandardTowerValid();
      var p := g.pts[31];
      var f: nat -> nat := (k: nat) => Slot(Times(p, k), q);
      Pigeonhole(f, P + 1, q * q);
      var i: nat, j: nat :| i < j < P + 1 && f(i) == f(j);
      SlotDetermines(Times(p, i), Times(p, j), q);
      DifferenceIsIdentity(p, i, j, q);
      var m := OrderModulo(g, 31, j - i, q);
      OrderTooLarge(j - i, m);
    }
  }

  lemma OrderTooLarge(d: nat, m: nat)
    requires 0 < d == Pow2(31) * m
    ensures d > P
  {
    hide Pow2;
    PowerAboveP();
    AtLeast(m, 1, P + 1);
  }

  lemma PowerAboveP()
    ensures Pow2(31) == P + 1
  {
    assert Pow2(8) == 256;
    assert Pow2(16) == 65536;
    assert Pow2(24) == 16777216;
  }

  lemma Cofactor(d: int)
    requires 1 < d < P && P % d == 0
    ensures 1 < P / d < P && P % (P / d) == 0 && (d * d <= P || (P / d) * (P / d) <= P)
  {
    var e := P / d;
    assert P == e * d;
    if e <= 1 { AtLeast(1, e, d); }
    if e >= P { AtLeast(e, P, d); }
    assert P == d * e + 0;
    assert P % e == 0 by { ModOfMultiple(d, e); }
    if d <= e {
      assert d * d <= e * d;
    } else {
      assert e * e <= e * d;
    }
  }

  lemma ModOfMultiple(d: int, e: int)
    requires e > 0
    ensures (d * e) % e == 0
  {
    var z := d * e;
    var k, r := z / e, z % e;
    assert (d - k) * e == r && (k - d) * e == -r;
    if d > k { AtLeast(d - k, 1, e); }
    if d < k { AtLeast(k - d, 1, e); }
  }

  lemma PIsPrime()
    ensures IsPrime(P)
  {
    forall d | 1 < d < P
      ensures P % d != 0
    {
      if P % d == 0 {
        Cofactor(d);
        if d * d <= P {
          NoSmallDivisor(d);
        } else {
          NoSmallDivisor(P / d);
        }
        assert false;
      }
    }
  }

  // ---- The field ----

  /** Every nonzero element has an inverse, found by the remainders of P. */
  lemma {:induction false} NonzeroInvertible(a: Fp) returns (b: Fp)
    requires a != 0
    ensures Mul(a, b) == 1
    decreases a
  {
    if a == 1 {
      b := 1;
    } else {
      PIsPrime();
      var k, r := P / a, P % a;
      assert r != 0;
      var s := NonzeroInvertible(r);
      QuotientSmall(a);
      b := Neg(Mul(k, s));
      RemainderStep(a, k, r, s);
    }
  }

  lemma QuotientSmall(a: int)
    requires 1 < a < P
    ensures 0 <= P / a < P
  {
    var k := P / a;
    if k >= P { AtLeast(k, P, a); }
  }

  lemma RemainderStep(a: Fp, k: Fp, r: Fp, s: Fp)
    requires k * a + r == P && Mul(r, s) == 1
    ensures Mul(a, Neg(Mul(k, s))) == 1
  {
    hide Mul, Sub, Red;
    RedCanonical(a); RedCanonical(k); RedCanonical(r); RedCanonical(s); RedCanonical(0);
    RedMul(k, s); RedSub(0, k * s); RedMul(a, 0 - k * s); RedMul(r, s);
    assert a * (0 - k * s) == r * s - s * P by {
      assert a * (0 - k * s) == -((k * a) * s);
      assert (k * a) * s == (P - r) * s;
    }
    var t: int := s;
    RedShift(r * s, -t);
  }

  lemma NoZeroDivisors(a: Fp, b: Fp)
    requires Mul(a, b) == 0
    ensures a == 0 || b == 0
  {
    hide Mul;
    if a != 0 {
      var c := NonzeroInvertible(a);
      MulComm(c, a);
      MulAssoc(c, a, b);
      MulOne(b);
      MulZero(c);
    }
  }

  lemma ZeroProduct(a: Fp, b: Fp)
    ensures Mul(a, b) == 0 <==> a == 0 || b == 0
  {
    hide Mul;
    if Mul(a, b) == 0 {
      NoZeroDivisors(a, b);
    }
    MulZero(a); MulZero(b);
  }

  /** x (x - 1) == 0 holds exactly for 0 and 1. */
  lemma BooleanIff(x: Fp)
    ensures Mul(x, Sub(x, 1)) == 0 <==> x == 0 || x == 1
  {
    hide Mul;
    if Mul(x, Sub(x, 1)) == 0 {
      NoZeroDivisors(x, Sub(x, 1));
    }
    MulZero(x);
    MulZero(Sub(x, 1));
  }
}
