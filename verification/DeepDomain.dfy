/** Where the DEEP quotient of a domain point exists. */
module DeepDomain {

  import opened Options
  import opened M31
  import opened Ef3
  import opened Ef3Field
  import opened Primality
  import opened PowersOfTwo
  import opened Circle
  import opened Ordering
  import opened FoldGeometry
  import opened FoldRows
  import opened DeepNative
  import opened DeepLeafAir
  import opened ReducedOpenings

  // ---- Squares in the extension ----

  /** The squares of a sum and of a difference. */
  lemma SquareOfSum(a: Ef, b: Ef)
    ensures ESquare(EAdd(a, b)) == EAdd(EAdd(ESquare(a), ESquare(b)), EDouble(EMul(a, b)))
  {
    hide EMul, EAdd;
    var s := EAdd(a, b);
    EMulAdd(s, a, b);
    EMulAddLeft(a, b, a);
    EMulAddLeft(a, b, b);
    EMulComm(b, a);
    SumOfSquares(ESquare(a), EMul(a, b), ESquare(b));
  }

  lemma SumOfSquares(p: Ef, q: Ef, r: Ef)
    ensures EAdd(EAdd(p, q), EAdd(q, r)) == EAdd(EAdd(p, r), EDouble(q))
  {
    hide EMul;
    FpSquares(p.c0, q.c0, r.c0);
    FpSquares(p.c1, q.c1, r.c1);
    FpSquares(p.c2, q.c2, r.c2);
  }

  lemma FpSquares(p: Fp, q: Fp, r: Fp)
    ensures Add(Add(p, q), Add(q, r)) == Add(Add(p, r), Add(q, q))
  {
    hide Add, Red;
    RedCanonical(p); RedCanonical(q); RedCanonical(r);
    RedAdd(p, q); RedAdd(q, r); RedAdd(p + q, q + r);
    RedAdd(p, r); RedAdd(q, q); RedAdd(p + r, q + q);
  }

  lemma SquareOfDifference(a: Ef, b: Ef)
    ensures ESquare(ESub(a, b)) == ESub(EAdd(ESquare(a), ESquare(b)), EDouble(EMul(a, b)))
  {
    hide EMul, EAdd, ESub;
    var d := ESub(a, b);
    EMulSub(d, a, b);
    EMulComm(d, a);
    EMulComm(d, b);
    EMulSub(a, a, b);
    EMulSub(b, a, b);
    EMulComm(b, a);
    DifferenceOfSquares(ESquare(a), EMul(a, b), ESquare(b));
  }

  lemma DifferenceOfSquares(p: Ef, q: Ef, r: Ef)
    ensures ESub(ESub(p, q), ESub(q, r)) == ESub(EAdd(p, r), EDouble(q))
  {
    hide EMul;
    FpDifference(p.c0, q.c0, r.c0);
    FpDifference(p.c1, q.c1, r.c1);
    FpDifference(p.c2, q.c2, r.c2);
  }

  lemma FpDifference(p: Fp, q: Fp, r: Fp)
    ensures Sub(Sub(p, q), Sub(q, r)) == Sub(Add(p, r), Add(q, q))
  {
    hide Add, Sub, Red;
    RedCanonical(p); RedCanonical(q); RedCanonical(r);
    RedSub(p, q); RedSub(q, r); RedSub(p - q, q - r);
    RedAdd(p, r); RedAdd(q, q); RedSub(p + r, q + q);
  }

  /** (a b)(c d) == (a c)(b d). */
  lemma ProductSwap(a: Ef, b: Ef, c: Ef, d: Ef)
    ensures EMul(EMul(a, b), EMul(c, d)) == EMul(EMul(a, c), EMul(b, d))
  {
    hide EMul;
    EMulAssoc(a, b, EMul(c, d));
    EMulAssoc(b, c, d);
    EMulComm(b, c);
    EMulAssoc(c, b, d);
    EMulAssoc(a, c, EMul(b, d));
  }

  predicate OnEfCircle(p: EfPoint) { EAdd(ESquare(p.x), ESquare(p.y)) == ONE }

  /** The parameter's point lies on the circle. */
  lemma ProjectiveOnCircle(t: Ef)
    ensures TryFromProjectiveLine(t).Some? ==> OnEfCircle(TryFromProjectiveLine(t).value)
  {
    hide EMul, EAdd, ESub, TryInverse;
    var w := ESquare(t);
    match TryInverse(EAdd(ONE, w)) {
      case None =>
      case Some(inv) =>
        var c, d := ESub(ONE, w), EDouble(t);
        ProductSwap(c, inv, c, inv);
        ProductSwap(d, inv, d, inv);
        EMulAddLeft(ESquare(c), ESquare(d), ESquare(inv));
        PythagoreanSum(t);
        ProductSwap(EAdd(ONE, w), inv, EAdd(ONE, w), inv);
        EMulOne(ONE);
    }
  }

  /** (1 - t^2)^2 + (2 t)^2 == (1 + t^2)^2. */
  lemma PythagoreanSum(t: Ef)
    ensures var w := ESquare(t); EAdd(ESquare(ESub(ONE, w)), ESquare(EDouble(t))) == ESquare(EAdd(ONE, w))
  {
    hide EMul, EAdd, ESub;
    var w := ESquare(t);
    SquareOfDifference(ONE, w);
    SquareOfSum(ONE, w);
    SquareOfSum(t, t);
    EMulOne(ONE);
    EMulOne(w);
    FourTimes(EAdd(ONE, ESquare(w)), w);
  }

  lemma FourTimes(p: Ef, w: Ef)
    ensures EAdd(ESub(p, EDouble(w)), EAdd(EAdd(w, w), EDouble(w))) == EAdd(p, EDouble(w))
  {
    hide EMul;
    FpFourTimes(p.c0, w.c0);
    FpFourTimes(p.c1, w.c1);
    FpFourTimes(p.c2, w.c2);
  }

  lemma FpFourTimes(p: Fp, w: Fp)
    ensures Add(Sub(p, Add(w, w)), Add(Add(w, w), Add(w, w))) == Add(p, Add(w, w))
  {
    hide Add, Sub, Red;
    RedCanonical(p); RedCanonical(w);
    RedAdd(w, w); RedSub(p, w + w); RedAdd(w + w, w + w);
    RedAdd(p - (w + w), w + w + (w + w)); RedAdd(p, w + w);
  }

  /** The product of two sums of two squares. */
  lemma TwoSquares(x: Ef, y: Ef, s: Ef, u: Ef)
    ensures EAdd(ESquare(EAdd(EMul(x, s), EMul(y, u))), ESquare(ESub(EMul(x, u), EMul(y, s))))
            == EMul(EAdd(ESquare(x), ESquare(y)), EAdd(ESquare(s), ESquare(u)))
  {
    hide EMul, EAdd, ESub;
    SquareOfSum(EMul(x, s), EMul(y, u));
    SquareOfDifference(EMul(x, u), EMul(y, s));
    ProductSwap(x, s, y, u);
    ProductSwap(x, u, y, s);
    EMulComm(s, u);
    ProductSwap(x, s, x, s);
    ProductSwap(y, u, y, u);
    ProductSwap(x, u, x, u);
    ProductSwap(y, s, y, s);
    var a, b, c, d := ESquare(x), ESquare(y), ESquare(s), ESquare(u);
    EMulAddLeft(a, b, EAdd(c, d));
    EMulAdd(a, c, d);
    EMulAdd(b, c, d);
    CrossCancels(EMul(a, c), EMul(b, d), EMul(a, d), EMul(b, c), EMul(EMul(x, y), EMul(s, u)));
  }

  lemma CrossCancels(p: Ef, q: Ef, r: Ef, t: Ef, m: Ef)
    ensures EAdd(EAdd(EAdd(p, q), EDouble(m)), ESub(EAdd(r, t), EDouble(m))) == EAdd(EAdd(p, r), EAdd(t, q))
  {
    hide EMul;
    FpCrossCancels(p.c0, q.c0, r.c0, t.c0, m.c0);
    FpCrossCancels(p.c1, q.c1, r.c1, t.c1, m.c1);
    FpCrossCancels(p.c2, q.c2, r.c2, t.c2, m.c2);
  }

  lemma FpCrossCancels(p: Fp, q: Fp, r: Fp, t: Fp, m: Fp)
    ensures Add(Add(Add(p, q), Add(m, m)), Sub(Add(r, t), Add(m, m))) == Add(Add(p, r), Add(t, q))
  {
    hide Add, Sub, Red;
    RedCanonical(p); RedCanonical(q); RedCanonical(r); RedCanonical(t); RedCanonical(m);
    RedAdd(p, q); RedAdd(m, m); RedAdd(r, t);
    RedAdd(p + q, m + m); RedSub(r + t, m + m); RedAdd(p + q + (m + m), r + t - (m + m));
    RedAdd(p, r); RedAdd(t, q); RedAdd(p + r, t + q);
  }

  /** For two points of the circle the denominator is twice the real part of v_p: only
      where that vanishes can it fail to have an inverse. */
  lemma DenominatorIsTwiceReal(p: Point, at: EfPoint)
    requires OnCircle(p) && OnEfCircle(at)
    ensures DeepDenom(Vp(p.x, p.y, at)) == EDouble(Vp(p.x, p.y, at).x)
  {
    hide EMul, EAdd, ESub, ENeg, Embed, OnCircle;
    var s, u := Embed(p.x), Embed(p.y);
    var a, b := EAdd(EMul(at.x, s), EMul(at.y, u)), ESub(EMul(at.x, u), EMul(at.y, s));
    VpParts(p, at);
    TwoSquares(at.x, at.y, s, u);
    BaseOnEfCircle(p);
    EMulOne(ONE);
    SquareOfDifference(ONE, a);
    SquareOfNegative(b);
    EMulOne(ONE);
    EMulOne(a);
    TwoMinusTwice(ESquare(a), ESquare(b), a);
  }

  lemma BaseOnEfCircle(p: Point)
    requires OnCircle(p)
    ensures EAdd(ESquare(Embed(p.x)), ESquare(Embed(p.y))) == ONE
  {
    hide EMul, Mul;
    EmbedMul(p.x, p.x);
    EmbedMul(p.y, p.y);
  }

  lemma VpParts(p: Point, at: EfPoint)
    ensures var s, u := Embed(p.x), Embed(p.y);
      Vp(p.x, p.y, at) == EfPoint(ESub(ONE, EAdd(EMul(at.x, s), EMul(at.y, u))),
                                  ENeg(ESub(EMul(at.x, u), EMul(at.y, s))))
  {
    hide EMul, EAdd, ESub, ENeg, Embed;
    NegTimes(at.y, Embed(p.x));
    NegTimes(at.y, Embed(p.y));
    SubNegated(EMul(at.x, Embed(p.x)), EMul(at.y, Embed(p.y)));
    SubNegated(EMul(at.x, Embed(p.y)), EMul(at.y, Embed(p.x)));
  }

  lemma NegTimes(a: Ef, b: Ef)
    ensures EMul(ENeg(a), b) == ENeg(EMul(a, b))
  {
    hide EMul;
    EMulComm(ENeg(a), b);
    EMulComm(a, b);
    assert ENeg(a) == ESub(ZERO, a);
    EMulSub(b, ZERO, a);
    EMulZero(b);
    assert ESub(ZERO, EMul(b, a)) == ENeg(EMul(b, a));
  }

  lemma SquareOfNegative(b: Ef)
    ensures ESquare(ENeg(b)) == ESquare(b)
  {
    hide EMul, ENeg;
    NegTimes(b, ENeg(b));
    EMulComm(b, ENeg(b));
    NegTimes(b, b);
    NegNegative(ESquare(b));
  }

  lemma NegNegative(b: Ef)
    ensures ENeg(ENeg(b)) == b
  {
    hide Neg;
    NegNeg(b.c0); NegNeg(b.c1); NegNeg(b.c2);
  }

  lemma TwoMinusTwice(p: Ef, q: Ef, a: Ef)
    requires EAdd(p, q) == ONE
    ensures EAdd(ESub(EAdd(ONE, p), EDouble(a)), q) == EDouble(ESub(ONE, a))
  {
    hide EMul;
    FpTwoMinusTwice(p.c0, q.c0, a.c0, 1);
    FpTwoMinusTwice(p.c1, q.c1, a.c1, 0);
    FpTwoMinusTwice(p.c2, q.c2, a.c2, 0);
  }

  lemma FpTwoMinusTwice(p: Fp, q: Fp, a: Fp, e: Fp)
    requires Add(p, q) == e
    ensures Add(Sub(Add(e, p), Add(a, a)), q) == Add(Sub(e, a), Sub(e, a))
  {
    hide Add, Sub, Red;
    RedCanonical(p); RedCanonical(q); RedCanonical(a); RedCanonical(e);
    RedAdd(e, p); RedAdd(a, a); RedSub(e + p, a + a); RedAdd(e + p - (a + a), q);
    RedAdd(p, q); RedAdd(e - (a + a), p + q); RedAdd(e - (a + a), e);
    RedSub(e, a); RedAdd(e - a, e - a);
  }

  /** Every parameter has a point: 1 + zeta^2 never vanishes. */
  lemma EveryZetaHasPoint(zeta: Ef)
    ensures TryFromProjectiveLine(zeta).Some?
  {
    hide EMul, EAdd, EInvertible;
    MinusOneNotSquareEf(zeta);
    InvertibleIff(EAdd(ONE, ESquare(zeta)));
  }

  function BasePoint(p: Point): EfPoint { EfPoint(Embed(p.x), Embed(p.y)) }

  /** Two coordinates recovered from their products with a point of the circle. */
  lemma Rotated(x: Ef, y: Ef, s: Ef, u: Ef)
    requires EAdd(ESquare(s), ESquare(u)) == ONE
    ensures var a, b := EAdd(EMul(x, s), EMul(y, u)), ESub(EMul(x, u), EMul(y, s));
      EAdd(EMul(a, s), EMul(b, u)) == x && ESub(EMul(a, u), EMul(b, s)) == y
  {
    hide EMul, EAdd, ESub;
    var a, b := EAdd(EMul(x, s), EMul(y, u)), ESub(EMul(x, u), EMul(y, s));
    var ss, uu, xsu, ysu := ESquare(s), ESquare(u), EMul(x, EMul(s, u)), EMul(y, EMul(s, u));
    EMulComm(s, u);
    EMulAssoc(x, s, s); EMulAssoc(x, u, u); EMulAssoc(y, u, s); EMulAssoc(y, s, u);
    EMulAssoc(y, u, u); EMulAssoc(y, s, s); EMulAssoc(x, s, u); EMulAssoc(x, u, s);
    EMulAddLeft(EMul(x, s), EMul(y, u), s);
    EMulAddLeft(EMul(x, s), EMul(y, u), u);
    EMulSubLeft(EMul(x, u), EMul(y, s), u);
    EMulSubLeft(EMul(x, u), EMul(y, s), s);
    EMulAdd(x, ss, uu); EMulAdd(y, ss, uu);
    EMulOne(x); EMulOne(y);
    Telescope(EMul(x, ss), ysu, EMul(x, uu));
    TelescopeSub(xsu, EMul(y, uu), EMul(y, ss));
  }

  lemma EMulSubLeft(a: Ef, b: Ef, c: Ef)
    ensures EMul(ESub(a, b), c) == ESub(EMul(a, c), EMul(b, c))
  {
    hide EMul, ESub;
    EMulComm(ESub(a, b), c); EMulComm(a, c); EMulComm(b, c);
    EMulSub(c, a, b);
  }

  lemma Telescope(p: Ef, q: Ef, r: Ef)
    ensures EAdd(EAdd(p, q), ESub(r, q)) == EAdd(p, r)
  {
    hide Add, Sub;
    FpTelescope(p.c0, q.c0, r.c0); FpTelescope(p.c1, q.c1, r.c1); FpTelescope(p.c2, q.c2, r.c2);
  }

  lemma FpTelescope(p: Fp, q: Fp, r: Fp)
    ensures Add(Add(p, q), Sub(r, q)) == Add(p, r)
  {
    hide Add, Sub, Red;
    RedCanonical(p); RedCanonical(q); RedCanonical(r);
    RedAdd(p, q); RedSub(r, q); RedAdd(p + q, r - q); RedAdd(p, r);
  }

  lemma TelescopeSub(p: Ef, q: Ef, r: Ef)
    ensures ESub(EAdd(p, q), ESub(p, r)) == EAdd(r, q)
  {
    hide Add, Sub;
    FpTelescopeSub(p.c0, q.c0, r.c0); FpTelescopeSub(p.c1, q.c1, r.c1); FpTelescopeSub(p.c2, q.c2, r.c2);
  }

  lemma FpTelescopeSub(p: Fp, q: Fp, r: Fp)
    ensures Sub(Add(p, q), Sub(p, r)) == Add(r, q)
  {
    hide Add, Sub, Red;
    RedCanonical(p); RedCanonical(q); RedCanonical(r);
    RedAdd(p, q); RedSub(p, r); RedSub(p + q, p - r); RedAdd(r, q);
  }

  lemma SumWithOne(b: Ef)
    ensures EAdd(ONE, b) == ONE ==> b == ZERO
  {
  }

  /** The real part of v_p vanishes only at the point itself. */
  lemma RealVanishesIff(p: Point, at: EfPoint)
    requires OnCircle(p) && OnEfCircle(at)
    ensures Vp(p.x, p.y, at).x == ZERO <==> at == BasePoint(p)
  {
    hide EMul, EAdd, ESub, ENeg, Embed, OnCircle;
    var s, u := Embed(p.x), Embed(p.y);
    var a, b := EAdd(EMul(at.x, s), EMul(at.y, u)), ESub(EMul(at.x, u), EMul(at.y, s));
    VpParts(p, at);
    BaseOnEfCircle(p);
    SubIsZero(ONE, a);
    if a == ONE {
      TwoSquares(at.x, at.y, s, u);
      EMulOne(ONE);
      SumWithOne(ESquare(b));
      NoZeroDivisorsEf(b, b);
      Rotated(at.x, at.y, s, u);
      EMulOne(s); EMulOne(u); EMulZero(s); EMulZero(u);
      SubOfZero(u); EAddZero(s);
    }
  }

  lemma SubOfZero(a: Ef)
    ensures ESub(a, ZERO) == a
  {
  }

  lemma DoubleVanishes(a: Ef)
    ensures EDouble(a) == ZERO <==> a == ZERO
  {
    hide EMul, EAdd, EHalve;
    EHalveDouble(a);
    EHalveDouble(ZERO);
    EAddZero(ZERO);
  }

  /** The quotient at a domain point exists exactly when zeta's point is another one. */
  lemma QuotientExistsIff(alpha: Ef, p: Point, zeta: Ef, psAtX: seq<Fp>, psAtZeta: seq<Ef>)
    requires OnCircle(p)
    ensures TryFromProjectiveLine(zeta).Some?
    ensures DeepQuotient(alpha, p.x, p.y, zeta, psAtX, psAtZeta).Some? <==> TryFromProjectiveLine(zeta).value != BasePoint(p)
  {
    hide EMul, EAdd, ESub, ENeg, Vp, LinearSum, EPow, OnCircle, DeepDenom, EInvertible, EDouble, OnEfCircle, TryFromProjectiveLine, BasePoint;
    EveryZetaHasPoint(zeta);
    var at := TryFromProjectiveLine(zeta).value;
    ProjectiveOnCircle(zeta);
    DenominatorIsTwiceReal(p, at);
    DoubleVanishes(Vp(p.x, p.y, at).x);
    InvertibleIff(DeepDenom(Vp(p.x, p.y, at)));
    RealVanishesIff(p, at);
  }

  /** zeta's point determines zeta: y == zeta (1 + x). */
  lemma ZetaFromPoint(zeta: Ef)
    requires TryFromProjectiveLine(zeta).Some?
    ensures var at := TryFromProjectiveLine(zeta).value; EMul(zeta, EAdd(ONE, at.x)) == at.y && EAdd(ONE, at.x) != ZERO
  {
    hide EMul, EAdd, ESub, TryInverse;
    var w := ESquare(zeta);
    var inv := TryInverse(EAdd(ONE, w)).value;
    EMulAddLeft(EAdd(ONE, w), ESub(ONE, w), inv);
    OneTwice(w);
    EMulAddLeft(ONE, ONE, inv);
    EMulOne(inv);
    EMulAdd(zeta, inv, inv);
    EMulAddLeft(zeta, zeta, inv);
    DoubleVanishes(inv);
    EMulZero(EAdd(ONE, w));
  }

  lemma OneTwice(w: Ef)
    ensures EAdd(EAdd(ONE, w), ESub(ONE, w)) == EAdd(ONE, ONE)
  {
    SumOfParts(ONE, w);
  }

  /** A zeta outside the base field is never degenerate, at any point. */
  lemma OutsideBaseFieldExists(alpha: Ef, p: Point, zeta: Ef, psAtX: seq<Fp>, psAtZeta: seq<Ef>)
    requires OnCircle(p) && (zeta.c1 != 0 || zeta.c2 != 0)
    ensures DeepQuotient(alpha, p.x, p.y, zeta, psAtX, psAtZeta).Some?
  {
    hide EMul, Mul, EAdd, OnCircle, DeepQuotient, TryFromProjectiveLine;
    QuotientExistsIff(alpha, p, zeta, psAtX, psAtZeta);
    ZetaFromPoint(zeta);
    if TryFromProjectiveLine(zeta).value == BasePoint(p) {
      var e := Add(1, p.x);
      OneMoreBase(p.x);
      Scaled(zeta, e);
      ZeroProduct(zeta.c1, e);
      ZeroProduct(zeta.c2, e);
    }
  }

  lemma OneMoreBase(x: Fp)
    ensures EAdd(ONE, Embed(x)) == Ef(Add(1, x), 0, 0)
  {
  }

  // ---- At the query's point ----

  /** The query's point at a height is the layer point over its index, or that point's
      conjugate in the odd slot. */
  lemma QueryPointIsDomainPoint(g: Tower, inp: RoInput, h: nat, i: nat)
    requires g.Valid() && 1 <= h <= inp.LogGlobalMax() && inp.LogGlobalMax() + 1 < |g.pts|
    requires inp.queryIndex < Pow2(inp.LogGlobalMax()) && i == Shr(inp.queryIndex, inp.LogGlobalMax() - h)
    ensures i < Pow2(h)
    ensures QueryPoint(g, inp, h) == if i % 2 == 0 then LayerPoint(g, h - 1, i / 2) else Conj(LayerPoint(g, h - 1, i / 2))
    ensures OnCircle(QueryPoint(g, inp, h))
  {
    hide OnCircle, Conj, StandardNthPoint, CfftPermuteIndex, LayerPoint;
    ShrBound(inp.queryIndex, inp.LogGlobalMax() - h, h);
    CfftSlotsConjugate(g, h - 1, i / 2);
    LayerPointOnCircle(g, h - 1, i / 2);
    OnCircleConj(LayerPoint(g, h - 1, i / 2));
  }

  /** So an opening is refused as degenerate exactly when zeta's point is the query's. */
  lemma OpeningExistsIff(g: Tower, inp: RoInput, h: nat, zeta: Ef, row: seq<Fp>, ood: seq<Ef>)
    requires g.Valid() && 1 <= h <= inp.LogGlobalMax() && inp.LogGlobalMax() + 1 < |g.pts|
    requires inp.queryIndex < Pow2(inp.LogGlobalMax())
    ensures TryFromProjectiveLine(zeta).Some?
    ensures ReduceAt(g, inp, h, zeta, row, ood).Some? <==> TryFromProjectiveLine(zeta).value != BasePoint(QueryPoint(g, inp, h))
  {
    hide OnCircle, DeepQuotient, QueryPoint, TryFromProjectiveLine, BasePoint, Pow2;
    QueryPointIsDomainPoint(g, inp, h, Shr(inp.queryIndex, inp.LogGlobalMax() - h));
    QuotientExistsIff(inp.alpha, QueryPoint(g, inp, h), zeta, row, ood);
  }
}
