/** Twiddles of the circle FRI folds, and the geometry of the folded domains. */
module FoldGeometry {

  import opened M31
  import opened PowersOfTwo
  import opened Circle
  import opened Ordering

  /** nth_point of the standard coset of size 2^logN. */
  function StandardNthPoint(g: Tower, logN: nat, idx: nat): Point
    requires 1 <= logN && logN + 1 < |g.pts|
  {
    var shift, gen := g.Generator(logN + 1), g.Generator(logN - 1);
    var half, lsb := idx / 2, idx % 2;
    if lsb == 0 then PAdd(shift, Times(gen, half))
    else PAdd(Conj(shift), Times(gen, half + 1))
  }

  /** The point whose x-coordinate is the fold_x twiddle. */
  function FoldXTwiddlePoint(g: Tower, index: nat, logFolded: nat): Point
    requires logFolded + 3 < |g.pts|
  {
    var logN := logFolded + 2;
    PAdd(g.Generator(logN + 1), Times(g.Generator(logN - 1), RevBits(index, logFolded)))
  }

  function FoldXTwiddleInv(g: Tower, index: nat, logFolded: nat): Fp
    requires logFolded + 3 < |g.pts|
  {
    Inverse(FoldXTwiddlePoint(g, index, logFolded).x)
  }

  function FoldYTwiddlePoint(g: Tower, index: nat, logFolded: nat): Point
    requires logFolded + 2 < |g.pts| && index < Pow2(logFolded)
  {
    var logN := logFolded + 1;
    StandardNthPoint(g, logN, CfftPermuteIndex(2 * index, logN))
  }

  function FoldYTwiddleInv(g: Tower, index: nat, logFolded: nat): Fp
    requires logFolded + 2 < |g.pts| && index < Pow2(logFolded)
  {
    Inverse(FoldYTwiddlePoint(g, index, logFolded).y)
  }

  function IterDoubleX(x: Fp, n: nat): Fp
    decreases n
  {
    if n == 0 then x else IterDoubleX(DoubleX(x), n - 1)
  }

  /** Vanishing v_n of the standard coset, as the source computes it. */
  method PointVn(x0: Fp, logN: nat) returns (x: Fp)
    requires logN >= 1
    ensures x == IterDoubleX(x0, logN - 1)
  {
    x := x0;
    for i := 0 to logN - 1
      invariant IterDoubleX(x, logN - 1 - i) == IterDoubleX(x0, logN - 1)
    {
      x := DoubleX(x);
    }
  }

  /** v_n is the x-coordinate after logN - 1 doublings. */
  lemma {:induction false} PointVnIsMultiple(p: Point, n: nat)
    requires OnCircle(p)
    ensures IterDoubleX(p.x, n) == Times(p, Pow2(n)).x
    decreases n
  {
    hide PAdd, OnCircle, DoubleX;
    if n == 0 {
      TimesOne(p);
    } else {
      OnCircleAdd(p, p);
      DoubleIsDoubleX(p);
      PointVnIsMultiple(PAdd(p, p), n - 1);
      TimesDouble(p, Pow2(n - 1));
    }
  }

  // ---- The layer domains ----

  /** Point i of the x-domain of size 2^m, in folding order. */
  function LayerPoint(g: Tower, m: nat, i: nat): Point
    requires m + 2 < |g.pts|
  {
    PAdd(g.Generator(m + 2), Times(g.Generator(m), RevBits(i, m)))
  }

  lemma LayerPointOnCircle(g: Tower, m: nat, i: nat)
    requires g.Valid() && m + 2 < |g.pts|
    ensures OnCircle(LayerPoint(g, m, i))
  {
    hide PAdd, OnCircle;
    OnCircleTimes(g.pts[m], RevBits(i, m));
    OnCircleAdd(g.pts[m + 2], Times(g.pts[m], RevBits(i, m)));
  }

  /** Slots 2i and 2i+1 of the CFFT-permuted circle domain are conjugate: same x,
      opposite y. */
  lemma CfftSlotsConjugate(g: Tower, m: nat, i: nat)
    requires g.Valid() && m + 2 < |g.pts| && i < Pow2(m)
    ensures StandardNthPoint(g, m + 1, CfftPermuteIndex(2 * i, m + 1)) == LayerPoint(g, m, i)
    ensures StandardNthPoint(g, m + 1, CfftPermuteIndex(2 * i + 1, m + 1)) == Conj(LayerPoint(g, m, i))
  {
    hide PAdd, OnCircle, Conj, Times, CfftPermuteIndex, RevBits;
    var r := RevBits(i, m);
    CfftPairSlots(i, m);
    var shift, gen := g.pts[m + 2], g.pts[m];
    TimesComplement(g, m, r);
    ConjAdd(shift, Times(gen, r));
  }

  /** (2^m - r) g_m == -(r g_m). */
  lemma TimesComplement(g: Tower, m: nat, r: nat)
    requires g.Valid() && m < |g.pts| && r <= Pow2(m)
    ensures Times(g.pts[m], Pow2(m) - r) == Conj(Times(g.pts[m], r))
  {
    hide PAdd, OnCircle, Conj, Times;
    var a, b := Times(g.pts[m], Pow2(m) - r), Times(g.pts[m], r);
    TimesAdd(g.pts[m], Pow2(m) - r, r);
    GeneratorOrder(g, m);
    OnCircleTimes(g.pts[m], r);
    CircleIffInverse(b);
    PAddAssoc(a, b, Conj(b));
    PAddIdentity(a); PAddIdentity(Conj(b));
  }

  /** The two fold_x slots are p and -p, with p the twiddle point, and the folded
      index lands on 2p in the next layer's domain. */
  lemma FoldXGeometry(g: Tower, h: nat, i: nat)
    requires g.Valid() && h + 3 < |g.pts| && i < Pow2(h)
    ensures var p := FoldXTwiddlePoint(g, i, h);
      && LayerPoint(g, h + 1, 2 * i) == p
      && LayerPoint(g, h + 1, 2 * i + 1) == Point(Neg(p.x), Neg(p.y))
      && LayerPoint(g, h, i) == PAdd(p, p)
      && LayerPoint(g, h, i).x == DoubleX(p.x)
  {
    hide PAdd, OnCircle, Times, DoubleX;
    var r := RevBits(i, h);
    var p := FoldXTwiddlePoint(g, i, h);
    var shift, gen := g.pts[h + 3], g.pts[h + 1];
    assert RevBits(2 * i, h + 1) == r;
    assert RevBits(2 * i + 1, h + 1) == Pow2(h) + r;
    TimesAdd(gen, r, Pow2(h));
    GeneratorOrder(g, h + 1);
    PAddAssoc(shift, Times(gen, r), HALF_TURN);
    AddHalfTurn(p);
    PAddSwap(shift, Times(gen, r), shift, Times(gen, r));
    TimesOfSum(gen, gen, r);
    LayerPointOnCircle(g, h + 1, 2 * i);
    DoubleIsDoubleX(p);
  }

  /** The y twiddle is the y-coordinate of slot 0. */
  lemma FoldYGeometry(g: Tower, h: nat, i: nat)
    requires g.Valid() && h + 2 < |g.pts| && i < Pow2(h)
    ensures FoldYTwiddlePoint(g, i, h) == LayerPoint(g, h, i)
  {
    hide PAdd, OnCircle, Conj, Times, CfftPermuteIndex, StandardNthPoint, LayerPoint;
    CfftSlotsConjugate(g, h, i);
  }

  // ---- Every twiddle is invertible ----

  /** 2^{m+1} times a layer point is the half turn: its order is exactly 2^{m+2}. */
  lemma LayerPointOrder(g: Tower, m: nat, i: nat)
    requires g.Valid() && m + 2 < |g.pts|
    ensures Times(LayerPoint(g, m, i), Pow2(m + 1)) == HALF_TURN
  {
    hide PAdd, OnCircle, Times;
    var r, n := RevBits(i, m), Pow2(m + 1);
    var gen := g.pts[m];
    TimesOfSum(g.pts[m + 2], Times(gen, r), n);
    GeneratorOrder(g, m + 2);
    TimesTimes(gen, r, n);
    GeneratorOrder(g, m);
    TimesAdd(gen, Pow2(m), Pow2(m));
    PAddIdentity(IDENTITY);
    TimesIdentity(r);
    TimesTimes(gen, n, r);
    PAddIdentity(HALF_TURN);
  }

  lemma {:induction false} TimesIdentity(n: nat)
    ensures Times(IDENTITY, n) == IDENTITY
  {
    hide PAdd;
    if n > 0 {
      TimesIdentity(n - 1);
      PAddIdentity(IDENTITY);
    }
  }

  function ZIterDoubleX(x: int, n: nat): int {
    if n == 0 then x else 2 * ZIterDoubleX(x, n - 1) * ZIterDoubleX(x, n - 1) - 1
  }

  lemma {:induction false} IterDoubleXLast(x: Fp, n: nat)
    requires n > 0
    ensures IterDoubleX(x, n) == DoubleX(IterDoubleX(x, n - 1))
    decreases n
  {
    hide DoubleX;
    if n > 1 {
      IterDoubleXLast(DoubleX(x), n - 1);
    } else {
      assert IterDoubleX(x, 1) == IterDoubleX(DoubleX(x), 0);
    }
  }

  lemma DoubleXRed(z: int)
    ensures DoubleX(Red(z)) == Red(2 * z * z - 1)
  {
    hide Red, Add, Sub, Mul;
    RedMul(z, z); RedAdd(z * z, z * z); RedSub(z * z + z * z, 1); RedCanonical(1);
    assert 2 * z * z - 1 == z * z + z * z - 1;
  }

  lemma {:induction false} IterDoubleXRed(x: Fp, n: nat)
    ensures IterDoubleX(x, n) == Red(ZIterDoubleX(x, n))
  {
    hide DoubleX, Red;
    if n == 0 {
      RedCanonical(x);
    } else {
      IterDoubleXRed(x, n - 1);
      IterDoubleXLast(x, n);
      DoubleXRed(ZIterDoubleX(x, n - 1));
    }
  }

  /** From the second doubling on, the result is 1 plus a multiple of x. */
  lemma {:induction false} ZIterDoubleXForm(x: int, n: nat) returns (q: int)
    requires n >= 2
    ensures ZIterDoubleX(x, n) == 1 + x * q
  {
    if n == 2 {
      var s := 2 * x * x;
      assert ZIterDoubleX(x, 1) == 2 * ZIterDoubleX(x, 0) * ZIterDoubleX(x, 0) - 1 == s - 1;
      assert ZIterDoubleX(x, 2) == 2 * (s - 1) * (s - 1) - 1;
      q := 2 * x * (2 * s - 4);
    } else {
      var r := ZIterDoubleXForm(x, n - 1);
      q := 4 * r + 2 * (x * r) * r;
    }
  }

  lemma XInvertible(p: Point, k: nat)
    requires OnCircle(p) && k >= 2 && Times(p, Pow2(k)) == HALF_TURN
    ensures Invertible(p.x)
  {
    hide PAdd, OnCircle, Times, Red, Add, Sub, Mul;
    PointVnIsMultiple(p, k);
    IterDoubleXRed(p.x, k);
    var q := ZIterDoubleXForm(p.x, k);
    MinusTwo(p.x, q);
    InverseIs(p.x, Red(-(0x4000_0000 * q)));
  }

  lemma MinusTwo(x: Fp, q: int)
    requires Red(1 + x * q) == P - 1
    ensures Mul(x, Red(-(0x4000_0000 * q))) == 1
  {
    RedMul(x, -(0x4000_0000 * q));
    var k := (1 + x * q) / P;
    assert x * q == P - 2 + k * P;
    assert x * (-(0x4000_0000 * q)) == -0x4000_0000 * (x * q);
    assert -0x4000_0000 * (P - 2 + k * P) == 1 + (1 - 0x4000_0000 * (1 + k)) * P;
    RedShift(1, 1 - 0x4000_0000 * (1 + k));
  }

  /** y(2^j p) is a multiple of y(p). */
  lemma {:induction false} YDivides(p: Point, j: nat) returns (s: Fp)
    ensures Times(p, Pow2(j)).y == Mul(p.y, s)
  {
    hide PAdd, Mul;
    if j == 0 {
      TimesOne(p);
      MulOne(p.y);
      s := 1;
    } else {
      var r := YDivides(p, j - 1);
      var q := Times(p, Pow2(j - 1));
      TimesAdd(p, Pow2(j - 1), Pow2(j - 1));
      s := Add(Mul(q.x, r), Mul(q.x, r));
      YOfDouble(q);
      assert Mul(q.x, q.y) == Mul(p.y, Mul(q.x, r)) by {
        MulAssoc(q.x, p.y, r); MulComm(q.x, p.y); MulAssoc(p.y, q.x, r);
      }
      MulAdd(p.y, Mul(q.x, r), Mul(q.x, r));
    }
  }

  lemma YOfDouble(q: Point)
    ensures PAdd(q, q).y == Add(Mul(q.x, q.y), Mul(q.x, q.y))
  {
    hide Mul, Add;
    MulComm(q.x, q.y);
  }

  /** A point whose double is the half turn has y^2 == 1. */
  lemma QuarterTurn(q: Point)
    requires OnCircle(q) && PAdd(q, q) == HALF_TURN
    ensures Mul(q.y, q.y) == 1
  {
    hide Mul;
    DoubleIsDoubleX(q);
  }

  lemma YInvertible(p: Point, k: nat)
    requires OnCircle(p) && k >= 1 && Times(p, Pow2(k)) == HALF_TURN
    ensures Invertible(p.y)
  {
    hide PAdd, OnCircle, Times, Mul;
    var s := YDivides(p, k - 1);
    var q := Times(p, Pow2(k - 1));
    TimesAdd(p, Pow2(k - 1), Pow2(k - 1));
    OnCircleTimes(p, Pow2(k - 1));
    QuarterTurn(q);
    MulAssoc(p.y, s, q.y);
    InverseIs(p.y, Mul(s, q.y));
  }

  /** Each twiddle inverse of a fold is a true inverse; the source's inversion never
      meets a zero. */
  lemma FoldXTwiddleInverts(g: Tower, i: nat, h: nat)
    requires g.Valid() && h + 3 < |g.pts| && i < Pow2(h)
    ensures Mul(FoldXTwiddlePoint(g, i, h).x, FoldXTwiddleInv(g, i, h)) == 1
  {
    hide PAdd, OnCircle, Times, Mul, LayerPoint, FoldXTwiddlePoint;
    FoldXGeometry(g, h, i);
    LayerPointOnCircle(g, h + 1, 2 * i);
    LayerPointOrder(g, h + 1, 2 * i);
    XInvertible(LayerPoint(g, h + 1, 2 * i), h + 2);
  }

  lemma FoldYTwiddleInverts(g: Tower, i: nat, h: nat)
    requires g.Valid() && h + 2 < |g.pts| && i < Pow2(h)
    ensures Mul(FoldYTwiddlePoint(g, i, h).y, FoldYTwiddleInv(g, i, h)) == 1
  {
    hide PAdd, OnCircle, Times, Mul, LayerPoint, FoldYTwiddlePoint;
    FoldYGeometry(g, h, i);
    LayerPointOnCircle(g, h, i);
    LayerPointOrder(g, h, i);
    YInvertible(LayerPoint(g, h, i), h + 1);
  }
}
