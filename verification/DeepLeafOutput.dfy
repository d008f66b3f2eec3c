/** Which inputs of the DEEP circuit leave its output free. */
module DeepLeafOutput {

  import opened Options
  import opened M31
  import opened Ef3
  import opened Ef3Field
  import opened Circle
  import opened EfLimbs
  import opened DeepNative
  import opened DeepLeafAir
  import opened DeepDomain

  // ---- Where a denominator vanishes ----

  const NOWHERE := EfPoint(ZERO, ZERO)

  lemma SumIsZero(a: Ef, b: Ef)
    ensures EAdd(a, ZERO) == ZERO ==> a == ZERO
    ensures EAdd(ZERO, b) == ZERO ==> b == ZERO
  {
  }

  /** A sum of two squares vanishes only when both do, since -1 is no square. */
  lemma NormVanishesIff(v: EfPoint)
    ensures DeepDenom(v) == ZERO <==> v == NOWHERE
  {
    hide EMul, EAdd, EInvertible;
    EMulZero(ZERO);
    EAddZero(ZERO);
    if DeepDenom(v) == ZERO {
      if v.x == ZERO {
        SumIsZero(ZERO, ESquare(v.y));
        NoZeroDivisorsEf(v.y, v.y);
      } else {
        InvertibleIff(v.x);
        var inv := TryInverse(v.x).value;
        var t := EMul(v.y, inv);
        ProductSwap(v.x, inv, v.x, inv);
        ProductSwap(v.y, inv, v.y, inv);
        EMulAddLeft(ESquare(v.x), ESquare(v.y), ESquare(inv));
        EMulZero(ESquare(inv));
        EMulOne(ONE);
        MinusOneNotSquareEf(t);
        assert false;
      }
    }
  }

  /** For a base point of the circle, v_p vanishes exactly at that point. */
  lemma VpVanishesIff(p: Point, at: EfPoint)
    requires OnCircle(p)
    ensures Vp(p.x, p.y, at) == NOWHERE <==> at == BasePoint(p)
  {
    hide EMul, EAdd, ESub, ENeg, Embed, OnCircle;
    var s, u := Embed(p.x), Embed(p.y);
    var a, b := EAdd(EMul(at.x, s), EMul(at.y, u)), ESub(EMul(at.x, u), EMul(at.y, s));
    VpParts(p, at);
    BaseOnEfCircle(p);
    SubIsZero(ONE, a);
    NegIsZero(b);
    Rotated(at.x, at.y, s, u);
    EMulOne(s); EMulOne(u); EMulZero(s); EMulZero(u);
    SubOfZero(u); EAddZero(s);
    if at == BasePoint(p) {
      EMulComm(s, u);
      SubIsZero(EMul(s, u), EMul(u, s));
    }
  }

  lemma NegIsZero(b: Ef)
    ensures ENeg(b) == ZERO <==> b == ZERO
  {
    hide Neg;
    NegOfZero(b.c0); NegOfZero(b.c1); NegOfZero(b.c2);
  }

  lemma NegOfZero(a: Fp)
    ensures Neg(a) == 0 <==> a == 0
  {
  }

  lemma {:induction false} PowerVanishesIff(alpha: Ef, w: nat)
    requires w > 0
    ensures EPow(alpha, w) == ZERO <==> alpha == ZERO
  {
    hide EMul;
    NoZeroDivisorsEf(alpha, EPow(alpha, w - 1));
    if w > 1 {
      PowerVanishesIff(alpha, w - 1);
    } else {
      EMulOne(alpha);
    }
  }

  // ---- Vectors with the same inputs ----

  /** Everything the host's formula is computed from. */
  predicate SameInputs(l: Leaf, m: Leaf) {
    && l.sx == m.sx && l.sy == m.sy && l.at == m.at && l.atn == m.atn && l.alpha == m.alpha && l.width == m.width
    && l.active == m.active && l.px == m.px && l.pzLocal == m.pzLocal && l.pzNext == m.pzNext && l.lambda == m.lambda && l.vN == m.vN
  }

  /** The inputs determine the output. */
  ghost predicate OutputForced(l: Leaf) {
    forall m: Leaf :: Satisfies(m) && SameInputs(l, m) ==> m.out == l.out
  }

  /** Both divisions are defined, or the second does not count because alpha is zero. */
  predicate Defined(l: Leaf) {
    Vp(l.sx, l.sy, l.at) != NOWHERE && (Vp(l.sx, l.sy, l.atn) != NOWHERE || l.alpha == ZERO)
  }

  /** One quotient is determined where v_p does not vanish. */
  lemma SameQuotient(d: DeepPartialWitness, e: DeepPartialWitness, sx: Fp, sy: Fp, at: EfPoint, alphaW: Ef)
    requires QuotientOf(d, sx, sy, at, alphaW) && QuotientOf(e, sx, sy, at, alphaW) && d.linear == e.linear
    requires Vp(sx, sy, at) != NOWHERE
    ensures d.outPre == e.outPre
  {
    hide EMul, EAdd, ESub, Vp, EInvertible, DeepNumer, DeepDenom;
    NormVanishesIff(Vp(sx, sy, at));
    InvertibleIff(d.denom);
    var inv := TryInverse(d.denom).value;
    QuotientIs(d.outPre, d.numer, d.denom, d.linear, inv);
    QuotientIs(e.outPre, e.numer, e.denom, e.linear, inv);
  }

  lemma DefinedForces(l: Leaf, m: Leaf)
    requires Satisfies(l) && Satisfies(m) && SameInputs(l, m) && Defined(l)
    ensures l.out == m.out
  {
    hide Satisfies, EMul, EAdd, ESub, Vp, Embed, EPow, LinearSum, Reduction, QuotientOf;
    var w := Soundness(l);
    var v := Soundness(m);
    SameQuotient(l.deep0, m.deep0, l.sx, l.sy, l.at, EPow(l.alpha, w));
    if l.alpha == ZERO {
      PowerVanishesIff(l.alpha, w);
      EMulZero(ZERO);
      EMulZero(l.deep1.outPre);
      EMulZero(m.deep1.outPre);
    } else {
      SameQuotient(l.deep1, m.deep1, l.sx, l.sy, l.atn, EPow(l.alpha, w));
    }
  }

  // ---- A free output ----

  /** The same vector with other quotients, combined value and output. */
  function WithResults(l: Leaf, out0: Ef, out1: Ef, combined: Ef, out: Ef): Leaf {
    l.(deep0 := l.deep0.(outPre := out0), deep1 := l.deep1.(outPre := out1), combined := combined, out := out)
  }

  /** It satisfies the circuit when the two quotients and the output are right. */
  lemma ResultsSatisfy(l: Leaf, out0: Ef, out1: Ef, combined: Ef, out: Ef)
    requires Satisfies(l)
    requires EMul(out0, l.deep0.denom) == EMul(l.deep0.numer, l.deep0.linear)
    requires EMul(out1, l.deep1.denom) == EMul(l.deep1.numer, l.deep1.linear)
    requires combined == EAdd(out0, EMul(l.alphaW2, out1)) && out == ESub(combined, EMul(l.lambda, Embed(l.vN)))
    ensures Satisfies(WithResults(l, out0, out1, combined, out)) && SameInputs(l, WithResults(l, out0, out1, combined, out))
  {
    hide BlockHolds, AssertEq, EfMulLimbs, EScale, EMul, EAdd, ESub, Embed, SumActive, Sub, Add, Mul;
    var m := WithResults(l, out0, out1, combined, out);
    forall i: nat | i < MAX_W
      ensures FlagHolds(m, i) && PowerHolds(m, i)
    {
      assert FlagHolds(l, i) && PowerHolds(l, i);
    }
    LimbProducts();
    AssertEqAll();
    EScaleIsMul(l.lambda, l.vN);
  }

  /** Where v_p vanishes so do numerator and denominator, and any quotient will do. */
  lemma AnyQuotient(d: DeepPartialWitness, sx: Fp, sy: Fp, at: EfPoint, alphaW: Ef, outPre: Ef)
    requires QuotientOf(d, sx, sy, at, alphaW) && Vp(sx, sy, at) == NOWHERE
    ensures EMul(outPre, d.denom) == EMul(d.numer, d.linear)
  {
    hide EMul, Vp;
    EMulZero(alphaW);
    EMulZero(ZERO);
    EMulZero(outPre);
    EMulZero(d.linear);
    assert d.numer == ESub(ZERO, ZERO) == ZERO;
  }

  lemma AddBack(a: Ef, b: Ef)
    ensures EAdd(ESub(a, b), b) == a && EAdd(b, ESub(a, b)) == a && ESub(EAdd(a, b), b) == a
  {
    ESubAdd(EAdd(a, b), b, a);
    hide EAdd, ESub;
    ESubAdd(a, b, ESub(a, b));
    EAddComm(b, ESub(a, b));
    EAddComm(a, b);
  }

  /** Where a division that counts is undefined, every value of the output satisfies the
      circuit on the same inputs. */
  lemma FreeOutput(l: Leaf, out: Ef) returns (m: Leaf)
    requires Satisfies(l) && !Defined(l)
    ensures Satisfies(m) && SameInputs(l, m) && m.out == out
  {
    hide Satisfies, EMul, EAdd, ESub, Vp, Embed, EPow, LinearSum, Reduction, QuotientOf, EInvertible;
    var w := Soundness(l);
    var lift := EMul(l.lambda, Embed(l.vN));
    var combined := EAdd(out, lift);
    AddBack(out, lift);
    AlphaSquared(l, w);
    if Vp(l.sx, l.sy, l.at) == NOWHERE {
      var rest := EMul(l.alphaW2, l.deep1.outPre);
      AddBack(combined, rest);
      AnyQuotient(l.deep0, l.sx, l.sy, l.at, EPow(l.alpha, w), ESub(combined, rest));
      KeptQuotient(l.deep1, l.sx, l.sy, l.atn, EPow(l.alpha, w));
      m := WithResults(l, ESub(combined, rest), l.deep1.outPre, combined, out);
      ResultsSatisfy(l, ESub(combined, rest), l.deep1.outPre, combined, out);
    } else {
      PowerVanishesIff(l.alpha, w);
      NoZeroDivisorsEf(EPow(l.alpha, w), EPow(l.alpha, w));
      InvertibleIff(l.alphaW2);
      var rest := ESub(combined, l.deep0.outPre);
      var inv := TryInverse(l.alphaW2).value;
      var out1 := EMul(inv, rest);
      EMulAssoc(l.alphaW2, inv, rest);
      EMulOne(rest);
      AddBack(combined, l.deep0.outPre);
      AnyQuotient(l.deep1, l.sx, l.sy, l.atn, EPow(l.alpha, w), out1);
      KeptQuotient(l.deep0, l.sx, l.sy, l.at, EPow(l.alpha, w));
      m := WithResults(l, l.deep0.outPre, out1, combined, out);
      ResultsSatisfy(l, l.deep0.outPre, out1, combined, out);
    }
  }

  lemma KeptQuotient(d: DeepPartialWitness, sx: Fp, sy: Fp, at: EfPoint, alphaW: Ef)
    requires QuotientOf(d, sx, sy, at, alphaW)
    ensures EMul(d.outPre, d.denom) == EMul(d.numer, d.linear)
  {
    hide EMul, PartialOf;
  }

  lemma AlphaSquared(l: Leaf, w: nat)
    requires Satisfies(l) && w <= MAX_W && l.AlphaW() == EPow(l.alpha, w)
    ensures l.alphaW2 == ESquare(EPow(l.alpha, w))
  {
    hide FlagHolds, PowerHolds, BlockHolds, VpHolds, QuotientHolds, AssertEq, EfMulLimbs, EScale, EMul, EAdd, ESub, EPow, SumActive;
    LimbsAreProduct(l.AlphaW(), l.AlphaW());
    AssertEqIff(EfMulLimbs(l.AlphaW(), l.AlphaW()), l.alphaW2);
  }

  /** The inputs of a satisfying vector determine its output exactly when zeta's point is
      not the base point and neither is the next one's, unless alpha is zero. */
  lemma OutputForcedIff(l: Leaf)
    requires Satisfies(l)
    ensures OutputForced(l) <==> Defined(l)
  {
    hide Satisfies, SameInputs, Vp;
    if Defined(l) {
      forall m: Leaf | Satisfies(m) && SameInputs(l, m)
        ensures m.out == l.out
      {
        DefinedForces(l, m);
      }
    } else {
      var other := if l.out == ZERO then ONE else ZERO;
      var m := FreeOutput(l, other);
    }
  }

  /** On the circle: that is, in terms of the points alone. */
  lemma DefinedOnCircle(l: Leaf, p: Point)
    requires OnCircle(p) && l.sx == p.x && l.sy == p.y
    ensures Defined(l) <==> l.at != BasePoint(p) && (l.atn != BasePoint(p) || l.alpha == ZERO)
  {
    hide Vp, BasePoint, OnCircle;
    VpVanishesIff(p, l.at);
    VpVanishesIff(p, l.atn);
  }

  /** The failing input: with zeta's point at the base point, every row and every value of
      the output have public values that satisfy the circuit. */
  lemma EveryOutputPasses(alpha: Ef, p: Point, atn: EfPoint, px: seq<Fp>, pzLocal: seq<Ef>, pzNext: seq<Ef>, lambda: Ef, vN: Fp,
                          deep1: DeepPartialWitness, out: Ef) returns (l: Leaf)
    requires OnCircle(p) && 0 < |px| <= MAX_W && |pzLocal| == |pzNext| == |px|
    requires DeepPartial(alpha, p.x, p.y, atn, EPow(alpha, |px|), px, pzNext) == Some(deep1)
    ensures Satisfies(l) && l.out == out
    ensures l.sx == p.x && l.sy == p.y && l.at == BasePoint(p) && l.atn == atn && l.alpha == alpha && l.lambda == lambda && l.vN == vN
    ensures l.width == |px| && l.px[..|px|] == px && l.pzLocal[..|px|] == pzLocal && l.pzNext[..|px|] == pzNext
  {
    hide EMul, EAdd, ESub, EPow, Embed, Fits, Satisfies, DeepPartial, LinearSum, OnCircle, BasePoint, Flags, Powers, Sums, ActivePowers, PadFp,
      PadEf, QuotientOf;
    var alphaW := EPow(alpha, |px|);
    var lift, rest := EMul(lambda, Embed(vN)), EMul(EMul(alphaW, alphaW), deep1.outPre);
    var combined := EAdd(out, lift);
    AddBack(out, lift);
    AddBack(combined, rest);
    var d := DeepPartialWitness(ZERO, ZERO, ZERO, ZERO, LinearSum(alpha, px, pzLocal, |px|), ESub(combined, rest));
    VanishingFits(alpha, p, px, pzLocal, d);
    PartialComplete(alpha, p.x, p.y, atn, px, pzNext, deep1);
    var w := DeepRoLeafTraceWitness(BasePoint(p), atn, alphaW, EMul(alphaW, alphaW), d, deep1, combined, vN, out);
    PaddedPrefix(px, pzLocal);
    PaddedPrefix(px, pzNext);
    FittingSatisfies(alpha, p.x, p.y, px, pzLocal, pzNext, lambda, w);
    l := LeafOf(alpha, p.x, p.y, px, pzLocal, pzNext, lambda, w);
  }

  lemma VanishingFits(alpha: Ef, p: Point, px: seq<Fp>, pz: seq<Ef>, d: DeepPartialWitness)
    requires OnCircle(p) && |px| == |pz| <= MAX_W && d.linear == LinearSum(alpha, px, pz, |px|)
    requires d.re == ZERO && d.im == ZERO && d.numer == ZERO && d.denom == ZERO
    ensures Fits(alpha, p.x, p.y, BasePoint(p), px, pz, d)
  {
    hide EMul, Vp, LinearSum, OnCircle, Fits, EPow, BasePoint;
    VpVanishesIff(p, BasePoint(p));
    EMulZero(EPow(alpha, |px|));
    EMulZero(ZERO);
    EMulZero(d.outPre);
    EMulZero(d.linear);
    FitsOf(alpha, p.x, p.y, BasePoint(p), px, pz, d);
  }
}
