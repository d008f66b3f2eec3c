/** What the DEEP quotient and its lambda term are. */
module DeepMeaning {

  import opened Options
  import opened M31
  import opened Ef3
  import opened Ef3Field
  import opened Primality
  import opened PowersOfTwo
  import opened Circle
  import opened FoldGeometry
  import opened DeepNative
  import opened DeepLeafAir
  import opened DeepDomain
  import opened ReducedOpenings

  // ---- The quotient ----

  /** The sum over i < n of alpha^{start + i} xs[i]. */
  function PowerSum(alpha: Ef, start: nat, xs: seq<Ef>, n: nat): Ef
    requires n <= |xs|
  {
    if n == 0 then ZERO else EAdd(PowerSum(alpha, start, xs, n - 1), EMul(EPow(alpha, start + (n - 1)), xs[n - 1]))
  }

  /** a + J b is d divided by re + J im, where J^2 == -1. */
  predicate DividesTo(d: Ef, re: Ef, im: Ef, a: Ef, b: Ef) {
    ESub(EMul(a, re), EMul(b, im)) == d && EAdd(EMul(a, im), EMul(b, re)) == ZERO
  }

  /** The real and the imaginary part of every column's quotient. */
  ghost predicate AllDivide(row: seq<Fp>, ood: seq<Ef>, re: Ef, im: Ef, reals: seq<Ef>, imags: seq<Ef>) {
    hide DividesTo, ESub;
    && |row| == |ood| == |reals| == |imags|
    && forall i :: 0 <= i < |row| ==> DividesTo(ESub(Embed(row[i]), ood[i]), re, im, reals[i], imags[i])
  }

  lemma Regrouped(x: Ef, inv: Ef, d: Ef, y: Ef)
    ensures EMul(EMul(EMul(x, inv), d), y) == EMul(EMul(x, y), EMul(inv, d))
  {
    hide EMul;
    EMulAssoc(EMul(x, inv), d, y);
    EMulComm(d, y);
    ProductSwap(x, inv, y, d);
  }

  lemma SubNegIsAdd(p: Ef, q: Ef)
    ensures ESub(p, ENeg(q)) == EAdd(p, q) && EAdd(p, ENeg(q)) == ESub(p, q)
  {
    SubNegated(p, q);
  }

  /** d re / (re^2 + im^2) and -d im / (re^2 + im^2). */
  lemma PartsDivide(d: Ef, re: Ef, im: Ef, inv: Ef)
    requires EMul(EAdd(ESquare(re), ESquare(im)), inv) == ONE
    ensures DividesTo(d, re, im, EMul(EMul(re, inv), d), EMul(ENeg(EMul(im, inv)), d))
  {
    hide EMul, EAdd, ESub, ENeg;
    var k := EMul(inv, d);
    NegTimes(EMul(im, inv), d);
    NegTimes(EMul(EMul(im, inv), d), im);
    NegTimes(EMul(EMul(im, inv), d), re);
    Regrouped(re, inv, d, re);
    Regrouped(im, inv, d, im);
    Regrouped(re, inv, d, im);
    Regrouped(im, inv, d, re);
    EMulComm(re, im);
    SubNegIsAdd(EMul(ESquare(re), k), EMul(ESquare(im), k));
    EMulAddLeft(ESquare(re), ESquare(im), k);
    EMulAssoc(EAdd(ESquare(re), ESquare(im)), inv, d);
    EMulOne(d);
    SubNegIsAdd(EMul(EMul(re, im), k), EMul(EMul(re, im), k));
    SubIsZero(EMul(EMul(re, im), k), EMul(EMul(re, im), k));
  }

  /** A sum of one multiple of every difference. */
  lemma {:induction false} ScaledSum(alpha: Ef, start: nat, row: seq<Fp>, ood: seq<Ef>, c: Ef, xs: seq<Ef>, n: nat)
    requires n <= |row| == |ood| == |xs|
    requires forall i :: 0 <= i < |row| ==> xs[i] == EMul(c, ESub(Embed(row[i]), ood[i]))
    ensures PowerSum(alpha, start, xs, n) == EMul(EMul(EPow(alpha, start), c), LinearSum(alpha, row, ood, n))
  {
    hide EMul, EAdd, ESub, EPow, Embed;
    var k := EMul(EPow(alpha, start), c);
    if n == 0 {
      EMulZero(k);
    } else {
      ScaledSum(alpha, start, row, ood, c, xs, n - 1);
      var d := ESub(Embed(row[n - 1]), ood[n - 1]);
      EPowAdd(alpha, start, n - 1);
      ProductSwap(EPow(alpha, start), EPow(alpha, n - 1), c, d);
      EMulAdd(k, LinearSum(alpha, row, ood, n - 1), EMul(EPow(alpha, n - 1), d));
    }
  }

  /** The DEEP quotient of a row batches, for every column, the real and the imaginary part
      of (p(x) - p(zeta)) / v_zeta(x): the real parts times alpha^0 up to alpha^{w-1}, the
      imaginary parts times alpha^w up to alpha^{2w-1}. */
  lemma QuotientBatchesParts(alpha: Ef, p: Point, zeta: Ef, row: seq<Fp>, ood: seq<Ef>, q: Ef) returns (at: EfPoint, reals: seq<Ef>, imags: seq<Ef>)
    requires |row| == |ood| && DeepQuotient(alpha, p.x, p.y, zeta, row, ood) == Some(q)
    ensures TryFromProjectiveLine(zeta) == Some(at)
    ensures var s, u := Embed(p.x), Embed(p.y);
      AllDivide(row, ood, ESub(ONE, EAdd(EMul(at.x, s), EMul(at.y, u))), ENeg(ESub(EMul(at.x, u), EMul(at.y, s))), reals, imags)
    ensures |reals| == |imags| == |row| && q == EAdd(PowerSum(alpha, 0, reals, |row|), PowerSum(alpha, |row|, imags, |row|))
  {
    hide EMul, EAdd, ESub, ENeg, Embed, LinearSum, EPow, TryFromProjectiveLine, DividesTo, TryInverse, Vp, PowerSum;
    at := TryFromProjectiveLine(zeta).value;
    VpParts(p, at);
    var w, v := |row|, Vp(p.x, p.y, at);
    var re, im := v.x, v.y;
    var inv := TryInverse(DeepDenom(v)).value;
    var cr, ci := EMul(re, inv), ENeg(EMul(im, inv));
    reals := seq(w, i requires 0 <= i < w => EMul(cr, ESub(Embed(row[i]), ood[i])));
    imags := seq(w, i requires 0 <= i < w => EMul(ci, ESub(Embed(row[i]), ood[i])));
    forall i | 0 <= i < w
      ensures DividesTo(ESub(Embed(row[i]), ood[i]), re, im, reals[i], imags[i])
    {
      PartsDivide(ESub(Embed(row[i]), ood[i]), re, im, inv);
    }
    ScaledSum(alpha, 0, row, ood, cr, reals, w);
    ScaledSum(alpha, w, row, ood, ci, imags, w);
    SumOfScaled(EPow(alpha, w), re, im, inv, LinearSum(alpha, row, ood, w));
    assert EPow(alpha, 0) == ONE by { PowerZero(alpha); }
  }

  lemma PowerZero(alpha: Ef)
    ensures EPow(alpha, 0) == ONE
  {
  }

  lemma SumOfScaled(power: Ef, re: Ef, im: Ef, inv: Ef, l: Ef)
    ensures EAdd(EMul(EMul(ONE, EMul(re, inv)), l), EMul(EMul(power, ENeg(EMul(im, inv))), l))
            == EMul(EMul(ESub(re, EMul(power, im)), inv), l)
  {
    hide EMul, EAdd, ESub, ENeg;
    var a, b := EMul(re, inv), EMul(power, EMul(im, inv));
    EMulOne(a);
    EMulComm(power, ENeg(EMul(im, inv)));
    NegTimes(EMul(im, inv), power);
    EMulComm(EMul(im, inv), power);
    EMulAddLeft(a, ENeg(b), l);
    SubNegIsAdd(a, b);
    EMulAssoc(power, im, inv);
    EMulSubLeft(re, EMul(power, im), inv);
  }

  /** Multiplied by the norm the parts are d re and -d im. */
  lemma PartsTimesNorm(d: Ef, re: Ef, im: Ef, a: Ef, b: Ef)
    requires DividesTo(d, re, im, a, b)
    ensures var n := EAdd(ESquare(re), ESquare(im)); EMul(a, n) == EMul(d, re) && EMul(b, n) == ESub(ZERO, EMul(d, im))
  {
    hide EMul, EAdd, ESub;
    var ar, ai, br, bi := EMul(a, re), EMul(a, im), EMul(b, re), EMul(b, im);
    EMulSubLeft(ar, bi, re); EMulSubLeft(ar, bi, im);
    EMulAddLeft(ai, br, re); EMulAddLeft(ai, br, im);
    EMulZero(re); EMulZero(im);
    EMulAssoc(a, re, re); EMulAssoc(a, im, im); EMulAssoc(b, re, re); EMulAssoc(b, im, im);
    EMulAssoc(a, re, im); EMulAssoc(a, im, re); EMulAssoc(b, re, im); EMulAssoc(b, im, re);
    EMulComm(re, im);
    EMulAdd(a, ESquare(re), ESquare(im)); EMulAdd(b, ESquare(re), ESquare(im));
    Telescope(EMul(a, ESquare(im)), EMul(b, EMul(im, re)), EMul(a, ESquare(re)));
    EAddComm(EMul(a, ESquare(im)), EMul(a, ESquare(re)));
    EAddZero(EMul(d, re));
    TelescopeSub(EMul(a, EMul(im, re)), EMul(b, ESquare(re)), EMul(b, ESquare(im)));
    EAddComm(EMul(b, ESquare(im)), EMul(b, ESquare(re)));
  }

  /** These parts are the only ones where v_zeta does not vanish. */
  lemma PartsUnique(d: Ef, re: Ef, im: Ef, a: Ef, b: Ef, c: Ef, e: Ef)
    requires DividesTo(d, re, im, a, b) && DividesTo(d, re, im, c, e) && EAdd(ESquare(re), ESquare(im)) != ZERO
    ensures a == c && b == e
  {
    hide EMul, EAdd, ESub, DividesTo;
    var n := EAdd(ESquare(re), ESquare(im));
    PartsTimesNorm(d, re, im, a, b);
    PartsTimesNorm(d, re, im, c, e);
    Cancelled(a, c, n);
    Cancelled(b, e, n);
  }

  lemma Cancelled(a: Ef, c: Ef, n: Ef)
    requires EMul(a, n) == EMul(c, n) && n != ZERO
    ensures a == c
  {
    hide EMul, ESub;
    EMulSubLeft(a, c, n);
    SubIsZero(EMul(a, n), EMul(c, n));
    NoZeroDivisorsEf(ESub(a, c), n);
    SubIsZero(a, c);
  }

  // ---- The lambda term ----

  /** The point belongs to the standard coset of size 2^n: its order is 2^{n+1}. */
  predicate InCoset(p: Point, n: nat) { Times(p, Pow2(n)) == HALF_TURN }

  /** v_n vanishes exactly on that coset. */
  lemma VanishesIff(p: Point, n: nat)
    requires OnCircle(p) && n >= 1
    ensures IterDoubleX(p.x, n - 1) == 0 <==> InCoset(p, n)
  {
    hide Times, PAdd, OnCircle, IterDoubleX, DoubleX;
    var q := Times(p, Pow2(n - 1));
    PointVnIsMultiple(p, n - 1);
    OnCircleTimes(p, Pow2(n - 1));
    TimesAdd(p, Pow2(n - 1), Pow2(n - 1));
    OnCircleAdd(q, q);
    DoubleIsDoubleX(q);
    DoubleXIsHalfTurn(q.x);
    HalfTurnByX(PAdd(q, q));
  }

  lemma DoubleXIsHalfTurn(x: Fp)
    ensures DoubleX(x) == P - 1 <==> x == 0
  {
    hide Mul;
    ZeroProduct(x, x);
    TwiceLessOne(Square(x));
  }

  lemma TwiceLessOne(w: Fp)
    ensures Sub(Double(w), 1) == P - 1 <==> w == 0
  {
  }

  /** The only point of the circle with x == -1 is the half turn. */
  lemma HalfTurnByX(p: Point)
    requires OnCircle(p)
    ensures p == HALF_TURN <==> p.x == P - 1
  {
    hide Mul;
    if p.x == P - 1 {
      MulNeg(P - 1, 1);
      MulOne(P - 1);
      OnlyZero(Square(p.y));
      ZeroProduct(p.y, p.y);
    }
  }

  lemma OnlyZero(w: Fp)
    requires Add(1, w) == 1
    ensures w == 0
  {
  }

  /** The points of layer m, and their conjugates, are in the coset of size 2^{m+1}. */
  lemma LayerInCoset(g: Tower, m: nat, i: nat)
    requires g.Valid() && m + 2 < |g.pts|
    ensures InCoset(LayerPoint(g, m, i), m + 1)
  {
    hide Times, LayerPoint;
    LayerPointOrder(g, m, i);
  }

  /** In the leaf witness lambda is multiplied by v_n of the point: on the coset of the
      trace, and only there, the output is the combined value whatever lambda is. */
  lemma LambdaTermVanishesIff(alpha: Ef, p: Point, zeta: Ef, zetaNext: Ef, px: seq<Fp>, pzLocal: seq<Ef>, pzNext: seq<Ef>, lambda: Ef, logN: nat)
    requires OnCircle(p) && logN >= 1 && lambda != ZERO
    requires DeepRoLeafWitness(alpha, p.x, p.y, zeta, zetaNext, px, pzLocal, pzNext, lambda, logN).Some?
    ensures var w := DeepRoLeafWitness(alpha, p.x, p.y, zeta, zetaNext, px, pzLocal, pzNext, lambda, logN).value;
      w.out == w.combined <==> InCoset(p, logN)
  {
    hide EMul, EAdd, ESub, EPow, OnCircle, InCoset, Embed, TryFromProjectiveLine, DeepPartial, IterDoubleX;
    var w := DeepRoLeafWitness(alpha, p.x, p.y, zeta, zetaNext, px, pzLocal, pzNext, lambda, logN).value;
    VanishesIff(p, logN);
    NoZeroDivisorsEf(lambda, Embed(w.vN));
    EmbedIsZero(w.vN);
    ESubAdd(w.combined, EMul(lambda, Embed(w.vN)), w.combined);
    AddsNothing(w.combined, EMul(lambda, Embed(w.vN)));
  }

  lemma EmbedIsZero(a: Fp)
    ensures Embed(a) == ZERO <==> a == 0
  {
  }

  lemma AddsNothing(a: Ef, b: Ef)
    ensures ESub(a, b) == a <==> b == ZERO
  {
  }

  /** Adding lambda v_n back to the output gives the combined value: in the leaf witness, */
  lemma WitnessAddsBack(alpha: Ef, p: Point, zeta: Ef, zetaNext: Ef, px: seq<Fp>, pzLocal: seq<Ef>, pzNext: seq<Ef>, lambda: Ef, logN: nat)
    requires logN >= 1 && DeepRoLeafWitness(alpha, p.x, p.y, zeta, zetaNext, px, pzLocal, pzNext, lambda, logN).Some?
    ensures var w := DeepRoLeafWitness(alpha, p.x, p.y, zeta, zetaNext, px, pzLocal, pzNext, lambda, logN).value;
      EAdd(EMul(lambda, Embed(IterDoubleX(p.x, logN - 1))), w.out) == w.combined
  {
    hide EMul, EAdd, ESub, EPow, Embed, TryFromProjectiveLine, DeepPartial, IterDoubleX;
    var w := DeepRoLeafWitness(alpha, p.x, p.y, zeta, zetaNext, px, pzLocal, pzNext, lambda, logN).value;
    ESubAdd(w.combined, EMul(lambda, Embed(w.vN)), w.out);
  }

  /** in every satisfying public vector, */
  lemma VectorAddsBack(l: Leaf)
    requires Satisfies(l)
    ensures EAdd(EMul(l.lambda, Embed(l.vN)), l.out) == l.combined
  {
    hide Satisfies, EMul, EAdd, ESub, Embed, Shows, EPow;
    var w := Soundness(l);
    ShapedIs(l);
    ShownOutput(l, w);
    ESubAdd(l.combined, EMul(l.lambda, Embed(l.vN)), l.out);
  }

  lemma ShapedIs(l: Leaf)
    requires Satisfies(l)
    ensures l.Shaped()
  {
  }

  lemma ShownOutput(l: Leaf, w: nat)
    requires l.Shaped() && w <= MAX_W && Shows(l, w)
    ensures OutputOf(l, EPow(l.alpha, w))
  {
    hide EPow, LinearSum, Reduction, QuotientOf, OutputOf, Prefix;
  }

  /** and in the reconstruction. */
  lemma CorrectedAddsBack(g: Tower, inp: RoInput, h: nat, ro: Ef, lambda: Ef)
    requires inp.logBlowup < h <= inp.LogGlobalMax() && inp.LogGlobalMax() + 1 < |g.pts| && inp.queryIndex < Pow2(inp.LogGlobalMax())
    ensures EAdd(EMul(lambda, Embed(IterDoubleX(QueryPoint(g, inp, h).x, h - inp.logBlowup - 1))), Corrected(g, inp, h, ro, lambda)) == ro
  {
    hide EMul, EAdd, ESub, Embed, IterDoubleX, QueryPoint, Pow2;
    ESubAdd(ro, EMul(lambda, Embed(IterDoubleX(QueryPoint(g, inp, h).x, h - inp.logBlowup - 1))), Corrected(g, inp, h, ro, lambda));
  }
}
