/** The arity-2 folds of circle FRI, row by row and on whole layers. */
module FoldRows {

  import opened M31
  import opened Ef3
  import opened PowersOfTwo
  import opened Circle
  import opened Ordering
  import opened FoldGeometry
  import opened Multilinears

  /** ((v0 + v1) + beta (v0 - v1) t) / 2. */
  function FoldFormula(t: Fp, beta: Ef, v0: Ef, v1: Ef): Ef {
    var sum := EAdd(v0, v1);
    var diff := EMul(ESub(v0, v1), Embed(t));
    EHalve(EAdd(sum, EMul(beta, diff)))
  }

  function FoldXRow(g: Tower, index: nat, logFolded: nat, beta: Ef, v0: Ef, v1: Ef): Ef
    requires logFolded + 3 < |g.pts|
  {
    FoldFormula(FoldXTwiddleInv(g, index, logFolded), beta, v0, v1)
  }

  function FoldYRow(g: Tower, index: nat, logFolded: nat, beta: Ef, v0: Ef, v1: Ef): Ef
    requires logFolded + 2 < |g.pts| && index < Pow2(logFolded)
  {
    FoldFormula(FoldYTwiddleInv(g, index, logFolded), beta, v0, v1)
  }

  /** Folding e + s o and e - s o at twiddle 1/s gives e + beta o. */
  lemma FoldSplitsParts(s: Fp, t: Fp, beta: Ef, e: Ef, o: Ef)
    requires Mul(s, t) == 1
    ensures FoldFormula(t, beta, EAdd(e, EMul(Embed(s), o)), ESub(e, EMul(Embed(s), o))) == EAdd(e, EMul(beta, o))
  {
    hide EAdd, EMul, ESub, EHalve;
    var w := EMul(Embed(s), o);
    SumOfParts(e, w);
    DifferenceOfParts(e, w);
    EMulAddLeft(w, w, Embed(t));
    assert EMul(w, Embed(t)) == o by {
      EMulComm(Embed(s), o);
      EMulAssoc(o, Embed(s), Embed(t));
      EmbedMul(s, t);
      EMulOne(o);
    }
    EMulAdd(beta, o, o);
    EAddSwap(e, e, EMul(beta, o), EMul(beta, o));
    EHalveDouble(EAdd(e, EMul(beta, o)));
  }

  lemma SumOfParts(e: Ef, w: Ef)
    ensures EAdd(EAdd(e, w), ESub(e, w)) == EAdd(e, e)
  {
    hide Add, Sub;
    FpSum(e.c0, w.c0); FpSum(e.c1, w.c1); FpSum(e.c2, w.c2);
  }

  lemma DifferenceOfParts(e: Ef, w: Ef)
    ensures ESub(EAdd(e, w), ESub(e, w)) == EAdd(w, w)
  {
    hide Add, Sub;
    FpSum(e.c0, w.c0); FpSum(e.c1, w.c1); FpSum(e.c2, w.c2);
  }

  lemma FpSum(e: Fp, w: Fp)
    ensures Add(Add(e, w), Sub(e, w)) == Add(e, e)
    ensures Sub(Add(e, w), Sub(e, w)) == Add(w, w)
  {
    hide Add, Sub, Red;
    RedCanonical(e); RedCanonical(w);
    RedAdd(e, w); RedSub(e, w); RedAdd(e, e); RedAdd(w, w);
    RedAdd(e + w, e - w); RedSub(e + w, e - w);
  }

  lemma EmbedMul(s: Fp, t: Fp)
    ensures EMul(Embed(s), Embed(t)) == Embed(Mul(s, t))
  {
    hide Mul;
    EScaleIsMul(Embed(s), t);
    MulZero(t);
  }

  lemma EmbedNeg(s: Fp, o: Ef)
    ensures EMul(Embed(Neg(s)), o) == ESub(ZERO, EMul(Embed(s), o))
  {
    hide Mul, Neg, Sub;
    EMulComm(Embed(Neg(s)), o); EScaleIsMul(o, Neg(s));
    EMulComm(Embed(s), o); EScaleIsMul(o, s);
    MulNeg(o.c0, s); MulNeg(o.c1, s); MulNeg(o.c2, s);
    NegIsSub(Mul(o.c0, s)); NegIsSub(Mul(o.c1, s)); NegIsSub(Mul(o.c2, s));
  }

  lemma NegIsSub(a: Fp)
    ensures Neg(a) == Sub(0, a)
  {
  }

  lemma AddOfNegative(e: Ef, w: Ef)
    ensures EAdd(e, ESub(ZERO, w)) == ESub(e, w)
  {
    hide Add, Sub;
    AddSubZero(e.c0, w.c0); AddSubZero(e.c1, w.c1); AddSubZero(e.c2, w.c2);
  }

  lemma AddSubZero(a: Fp, b: Fp)
    ensures Add(a, Sub(0, b)) == Sub(a, b)
  {
    hide Add, Sub, Red;
    RedCanonical(a); RedCanonical(b); RedCanonical(0);
    RedSub(0, b); RedAdd(a, 0 - b); RedSub(a, b);
  }

  // ---- Whole layers ----

  function FoldXLayer(g: Tower, beta: Ef, h: nat, layer: seq<Ef>): (r: seq<Ef>)
    requires h + 3 < |g.pts| && |layer| == Pow2(h + 1)
    ensures |r| == Pow2(h)
  {
    seq(Pow2(h), i requires 0 <= i < Pow2(h) => FoldXRow(g, i, h, beta, layer[2 * i], layer[2 * i + 1]))
  }

  function FoldYLayer(g: Tower, beta: Ef, h: nat, layer: seq<Ef>): (r: seq<Ef>)
    requires h + 2 < |g.pts| && |layer| == Pow2(h + 1)
    ensures |r| == Pow2(h)
  {
    seq(Pow2(h), i requires 0 <= i < Pow2(h) => FoldYRow(g, i, h, beta, layer[2 * i], layer[2 * i + 1]))
  }

  /** x, 2x^2 - 1, and so on: the n variables of the x-basis at x. */
  function Coordinates(x: Fp, n: nat): (r: seq<Ef>)
    ensures |r| == n
    decreases n
  {
    if n == 0 then [] else [Embed(x)] + Coordinates(DoubleX(x), n - 1)
  }

  /** Evaluations on the x-domain of size 2^m of the polynomial with coefficients c. */
  function Codeword(g: Tower, m: nat, n: nat, c: seq<Ef>): (r: seq<Ef>)
    requires m + 2 < |g.pts| && |c| == Pow2(n)
    ensures |r| == Pow2(m)
  {
    seq(Pow2(m), i requires 0 <= i < Pow2(m) => Multilinear(c, Coordinates(LayerPoint(g, m, i).x, n)))
  }

  /** Evaluations on the circle domain of size 2^{m+1}, in CFFT order. */
  function CircleCodeword(g: Tower, m: nat, n: nat, c: seq<Ef>): (r: seq<Ef>)
    requires m + 2 < |g.pts| && |c| == Pow2(n + 1)
    ensures |r| == Pow2(m + 1)
  {
    seq(Pow2(m + 1), k requires 0 <= k < Pow2(m + 1) =>
      var p := StandardNthPoint(g, m + 1, CfftPermuteIndex(k, m + 1));
      Multilinear(c, [Embed(p.y)] + Coordinates(p.x, n)))
  }

  /** One evaluation at z and at -z in the lowest variable. */
  lemma SplitAtSign(c: seq<Ef>, s: Fp, rest: seq<Ef>)
    requires |c| == Pow2(|rest| + 1)
    ensures var e := Multilinear(Evens(c), rest); var w := EMul(Embed(s), Multilinear(Odds(c), rest));
      && Multilinear(c, [Embed(s)] + rest) == EAdd(e, w)
      && Multilinear(c, [Embed(Neg(s))] + rest) == ESub(e, w)
  {
    hide EAdd, EMul, ESub, MSum, Neg, Embed;
    var zp, zm := [Embed(s)] + rest, [Embed(Neg(s))] + rest;
    assert zp[1..] == rest && zm[1..] == rest;
    MSumSplit(c, zp, |c| / 2);
    MSumSplit(c, zm, |c| / 2);
    var o := Multilinear(Odds(c), rest);
    EmbedNeg(s, o);
    AddOfNegative(Multilinear(Evens(c), rest), EMul(Embed(s), o));
  }

  /** One fold row of a pair of evaluations at s and -s evaluates the folded
      coefficients. */
  lemma FoldPair(c: seq<Ef>, s: Fp, t: Fp, beta: Ef, rest: seq<Ef>)
    requires |c| == Pow2(|rest| + 1) && Mul(s, t) == 1
    ensures FoldFormula(t, beta, Multilinear(c, [Embed(s)] + rest), Multilinear(c, [Embed(Neg(s))] + rest))
            == Multilinear(FoldCoeffs(c, beta), rest)
  {
    hide EAdd, EMul, ESub, MSum, Neg, Embed, FoldFormula;
    SplitAtSign(c, s, rest);
    FoldSplitsParts(s, t, beta, Multilinear(Evens(c), rest), Multilinear(Odds(c), rest));
    MSumLinear(c, beta, rest, |c| / 2);
  }

  /** Folding a low-degree layer gives the low-degree layer of the folded coefficients. */
  lemma FoldXLayerOfCodeword(g: Tower, h: nat, n: nat, c: seq<Ef>, beta: Ef)
    requires g.Valid() && h + 3 < |g.pts| && |c| == Pow2(n + 1)
    ensures FoldXLayer(g, beta, h, Codeword(g, h + 1, n + 1, c)) == Codeword(g, h, n, FoldCoeffs(c, beta))
  {
    hide FoldXRow, Multilinear, LayerPoint, Coordinates;
    var layer := Codeword(g, h + 1, n + 1, c);
    forall i | 0 <= i < Pow2(h)
      ensures FoldXLayer(g, beta, h, layer)[i] == Codeword(g, h, n, FoldCoeffs(c, beta))[i]
    {
      FoldXOfPair(g, h, n, c, beta, i);
    }
  }

  /** The two slots of a pair hold evaluations at x and -x. */
  lemma XPairValues(g: Tower, h: nat, n: nat, c: seq<Ef>, i: nat)
    requires g.Valid() && h + 3 < |g.pts| && |c| == Pow2(n + 1) && i < Pow2(h)
    ensures var x := FoldXTwiddlePoint(g, i, h).x;
      var rest := Coordinates(LayerPoint(g, h, i).x, n);
      && Codeword(g, h + 1, n + 1, c)[2 * i] == Multilinear(c, [Embed(x)] + rest)
      && Codeword(g, h + 1, n + 1, c)[2 * i + 1] == Multilinear(c, [Embed(Neg(x))] + rest)
  {
    hide Neg, Embed, Multilinear, PAdd, OnCircle, DoubleX, LayerPoint, FoldXTwiddlePoint;
    FoldXGeometry(g, h, i);
    DoubleXEven(FoldXTwiddlePoint(g, i, h).x);
  }

  lemma FoldXOfPair(g: Tower, h: nat, n: nat, c: seq<Ef>, beta: Ef, i: nat)
    requires g.Valid() && h + 3 < |g.pts| && |c| == Pow2(n + 1) && i < Pow2(h)
    ensures FoldXRow(g, i, h, beta, Codeword(g, h + 1, n + 1, c)[2 * i], Codeword(g, h + 1, n + 1, c)[2 * i + 1])
            == Multilinear(FoldCoeffs(c, beta), Coordinates(LayerPoint(g, h, i).x, n))
  {
    hide EAdd, EMul, ESub, MSum, Neg, Embed, FoldFormula, Multilinear, LayerPoint, FoldXTwiddlePoint, Codeword;
    XPairValues(g, h, n, c, i);
    FoldXTwiddleInverts(g, i, h);
    FoldPair(c, FoldXTwiddlePoint(g, i, h).x, FoldXTwiddleInv(g, i, h), beta, Coordinates(LayerPoint(g, h, i).x, n));
  }

  lemma DoubleXEven(x: Fp)
    ensures DoubleX(Neg(x)) == DoubleX(x)
  {
    hide Mul, Neg;
    NegMul(x, Neg(x)); MulNeg(x, x); NegNeg(Mul(x, x));
  }

  lemma FoldYLayerOfCodeword(g: Tower, h: nat, n: nat, c: seq<Ef>, beta: Ef)
    requires g.Valid() && h + 2 < |g.pts| && |c| == Pow2(n + 1)
    ensures FoldYLayer(g, beta, h, CircleCodeword(g, h, n, c)) == Codeword(g, h, n, FoldCoeffs(c, beta))
  {
    hide FoldYRow, Multilinear, LayerPoint, Coordinates;
    var layer := CircleCodeword(g, h, n, c);
    forall i | 0 <= i < Pow2(h)
      ensures FoldYLayer(g, beta, h, layer)[i] == Codeword(g, h, n, FoldCoeffs(c, beta))[i]
    {
      FoldYOfPair(g, h, n, c, beta, i);
    }
  }

  /** The two slots of a pair hold evaluations at (x, y) and (x, -y). */
  lemma YPairValues(g: Tower, h: nat, n: nat, c: seq<Ef>, i: nat)
    requires g.Valid() && h + 2 < |g.pts| && |c| == Pow2(n + 1) && i < Pow2(h)
    ensures var p := LayerPoint(g, h, i);
      var rest := Coordinates(p.x, n);
      && CircleCodeword(g, h, n, c)[2 * i] == Multilinear(c, [Embed(p.y)] + rest)
      && CircleCodeword(g, h, n, c)[2 * i + 1] == Multilinear(c, [Embed(Neg(p.y))] + rest)
  {
    hide Neg, Embed, Multilinear, PAdd, OnCircle, CfftPermuteIndex, LayerPoint, Coordinates, StandardNthPoint;
    CfftSlotsConjugate(g, h, i);
  }

  lemma FoldYOfPair(g: Tower, h: nat, n: nat, c: seq<Ef>, beta: Ef, i: nat)
    requires g.Valid() && h + 2 < |g.pts| && |c| == Pow2(n + 1) && i < Pow2(h)
    ensures FoldYRow(g, i, h, beta, CircleCodeword(g, h, n, c)[2 * i], CircleCodeword(g, h, n, c)[2 * i + 1])
            == Multilinear(FoldCoeffs(c, beta), Coordinates(LayerPoint(g, h, i).x, n))
  {
    hide EAdd, EMul, ESub, MSum, Neg, Embed, FoldFormula, Multilinear, LayerPoint, FoldYTwiddlePoint, CircleCodeword;
    YPairValues(g, h, n, c, i);
    FoldYGeometry(g, h, i);
    FoldYTwiddleInverts(g, i, h);
    FoldPair(c, LayerPoint(g, h, i).y, FoldYTwiddleInv(g, i, h), beta, Coordinates(LayerPoint(g, h, i).x, n));
  }
}
