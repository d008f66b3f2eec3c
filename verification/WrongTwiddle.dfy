/** A proof whose queries let a bundle with a wrong twiddle be bound. */
module WrongTwiddle {

  import opened Options
  import opened M31
  import opened Ef3
  import opened PowersOfTwo
  import opened Circle
  import opened Ordering
  import opened FoldGeometry
  import opened FoldRows
  import opened FoldWalk
  import opened DeepNative
  import opened DeepDomain
  import opened ReducedOpenings
  import opened FriFoldGroup
  import opened FriFoldBind

  // ---- The proof of the zero polynomial ----

  /** The challenges of the transcript. */
  datatype Challenges = Challenges(alpha: Ef, bivariateBeta: Ef, beta: Ef, zeta: Ef, zetaNext: Ef)

  /** zeta and its successor lie outside the base field, where every opening exists. */
  predicate Proper(ch: Challenges) {
    (ch.zeta.c1 != 0 || ch.zeta.c2 != 0) && (ch.zetaNext.c1 != 0 || ch.zetaNext.c2 != 0)
  }

  /** A query at index 0 of a one-column zero trace of height 4 and one zero quotient
      chunk, at blowup 2, with one commit round. */
  function ZeroInput(ch: Challenges): RoInput {
    RoInput(1, 0, 1, 1, 2, [2], [[0]], [[0]], [ZERO], [ZERO], ch.alpha, ch.bivariateBeta, ch.zeta, Some(ch.zetaNext),
            [ZERO], Some([ZERO]), [[ZERO]])
  }

  const ZERO_OPENING := DeepOpening(3, 1, ZERO)

  const ZERO_OPENINGS := [ZERO_OPENING, ZERO_OPENING, ZERO_OPENING]

  /** The quotient of a zero row vanishes wherever it exists. */
  lemma ZeroRowQuotient(alpha: Ef, sx: Fp, sy: Fp, zeta: Ef)
    ensures DeepQuotient(alpha, sx, sy, zeta, [0], [ZERO]).Some? ==> DeepQuotient(alpha, sx, sy, zeta, [0], [ZERO]) == Some(ZERO)
  {
    hide EMul, TryFromProjectiveLine, TryInverse, Vp, EPow, DeepNumer, DeepDenom;
    ZeroSumOfRow(alpha);
    match TryFromProjectiveLine(zeta)
    case None =>
    case Some(at) =>
      var v := Vp(sx, sy, at);
      match TryInverse(DeepDenom(v))
      case None =>
      case Some(inv) => EMulZero(EMul(DeepNumer(v, EPow(alpha, 1)), inv));
  }

  lemma ZeroSumOfRow(alpha: Ef)
    ensures LinearSum(alpha, [0], [ZERO], 1) == ZERO
  {
    hide EMul;
    EMulZero(EPow(alpha, 0));
    assert LinearSum(alpha, [0], [ZERO], 0) == ZERO;
  }

  lemma ZeroReduces(g: Tower, ch: Challenges, zeta: Ef)
    requires g.Valid() && 4 < |g.pts| && (zeta.c1 != 0 || zeta.c2 != 0)
    ensures Pow2(3) > 0 && ReduceAt(g, ZeroInput(ch), 3, zeta, [0], [ZERO]) == Some(ZERO)
  {
    assert Pow2(3) > 0;
    var inp := ZeroInput(ch);
    hide OnCircle, QueryPoint, DeepQuotient, Pow2;
    QueryPointIsDomainPoint(g, inp, 3, 0);
    var p := QueryPoint(g, inp, 3);
    OutsideBaseFieldExists(ch.alpha, p, zeta, [0], [ZERO]);
    ZeroRowQuotient(ch.alpha, p.x, p.y, zeta);
  }

  lemma InputInRange(g: Tower, ch: Challenges)
    requires 4 < |g.pts|
    ensures ZeroInput(ch).InRange(g)
  {
  }

  /** All three openings exist and vanish. */
  lemma ZeroVisited(g: Tower, ch: Challenges)
    requires g.Valid() && 4 < |g.pts| && Proper(ch)
    ensures ZeroInput(ch).InRange(g) && Visited(g, ZeroInput(ch)) == RoOk(ZERO_OPENINGS)
  {
    hide ReduceAt, QuotVisited, IsPowerOfTwo, Pow2, Tower.Valid, RoInput.InRange;
    InputInRange(g, ch);
    ZeroReduces(g, ch, ch.zeta);
    ZeroReduces(g, ch, ch.zetaNext);
    OneIsPower();
    var inp := ZeroInput(ch);
    ZeroQuotient(g, inp, ch);
    assert ZERO_OPENINGS == [ZERO_OPENING, ZERO_OPENING] + [ZERO_OPENING];
  }

  lemma OneIsPower()
    ensures IsPowerOfTwo(1)
  {
    Log2OfPower(0);
  }

  lemma ZeroQuotient(g: Tower, inp: RoInput, ch: Challenges)
    requires inp == ZeroInput(ch) && inp.InRange(g)
    requires ReduceAt(g, inp, 3, ch.zeta, [0], [ZERO]) == Some(ZERO)
    ensures QuotVisited(g, inp, 1) == RoOk([ZERO_OPENING])
  {
    hide ReduceAt, Pow2;
    assert QuotVisited(g, inp, 0) == RoOk([]);
    assert [] + [ZERO_OPENING] == [ZERO_OPENING];
  }

  lemma {:induction false} ZeroSum(alpha: Ef, ops: seq<DeepOpening>)
    requires forall op :: op in ops ==> op.deep == ZERO
    ensures RoSum(alpha, ops) == ZERO
  {
    hide EMul;
    if ops != [] {
      var n := |ops| - 1;
      ZeroSum(alpha, ops[..n]);
      EMulZero(AlphaOffset(alpha, ops[..n]));
    }
  }

  lemma {:induction false} AtHeightOf(ops: seq<DeepOpening>, h: nat)
    ensures forall op :: op in AtHeight(ops, h) ==> op in ops
  {
    if ops != [] {
      AtHeightOf(ops[..|ops| - 1], h);
    }
  }

  lemma ZeroFold(t: Fp, beta: Ef)
    ensures FoldFormula(t, beta, ZERO, ZERO) == ZERO
  {
    hide EMul;
    EMulZero(Embed(t));
    EMulZero(beta);
  }

  lemma OneHeight()
    ensures HeightSet(ZERO_OPENINGS) == {3} && Ascending({3}, 4) == [3]
  {
    assert Ascending({3}, 3) == [] by {
      assert Ascending({3}, 0) == [] && Ascending({3}, 1) == [] && Ascending({3}, 2) == [];
    }
    assert ZERO_OPENINGS[0].logHeight == 3;
  }

  lemma ZeroFirstLayer(g: Tower, ch: Challenges)
    requires 4 < |g.pts|
    ensures Pow2(3) > 0 && FirstLayer(g, ZeroInput(ch), 3, ZERO, ZERO, ZERO) == FoldYWitness(0, 2, ch.bivariateBeta, ZERO, ZERO)
    ensures FirstLayerReduced(g, ZeroInput(ch), 3, ZERO, ZERO, ZERO) == Reduced(2, ZERO)
  {
    assert Pow2(3) > 0;
    var inp := ZeroInput(ch);
    hide EMul, QueryPoint, IterDoubleX, FoldYTwiddleInv, FoldFormula, Pow2;
    EMulZero(Embed(IterDoubleX(QueryPoint(g, inp, 3).x, 1)));
    assert Shr(0, 1) == 0;
    ZeroFold(FoldYTwiddleInv(g, 0, 2), ch.bivariateBeta);
  }

  /** Its reduced openings and first-layer witness, as the reconstruction gives them. */
  lemma ZeroReconstructs(g: Tower, ch: Challenges)
    requires 4 < |g.pts|
    ensures ZeroInput(ch).InRange(g)
    ensures Reconstructs(g, ZeroInput(ch), ZERO_OPENINGS, [Reduced(2, ZERO)], [FoldYWitness(0, 2, ch.bivariateBeta, ZERO, ZERO)])
  {
    hide RoInput.InRange, RoSum, AtHeight, FirstLayer, FirstLayerReduced, HeightSet, Ascending, Pow2;
    InputInRange(g, ch);
    var inp := ZeroInput(ch);
    OneHeight();
    ZeroFirstLayer(g, ch);
    AtHeightOf(ZERO_OPENINGS, 3);
    ZeroSum(ch.alpha, AtHeight(ZERO_OPENINGS, 3));
  }

  // ---- Its walk ----

  const ZERO_COMMIT := [Opening(1, [ZERO])]

  function ZeroWitness(ch: Challenges): FoldWitness { FoldWitness(0, 1, ch.beta, ZERO, ZERO) }

  /** One round with a zero sibling ends on the zero polynomial. */
  lemma ZeroWalk(g: Tower, ch: Challenges)
    requires 4 < |g.pts|
    ensures Extracted(XFold(g), ZERO_COMMIT, [ch.beta], 0, 1, 1, ZERO, [Reduced(2, ZERO)], AGG_FRI_MAX_ROUNDS) == Ok([ZeroWitness(ch)])
  {
    hide FoldXTwiddleInv, FoldFormula;
    ZeroFold(FoldXTwiddleInv(g, 0, 1), ch.beta);
    assert Shr(0, 1) == 0;
    EAddZero(ZERO);
    var start := Start(0, 1, 2, [Reduced(2, ZERO)]);
    assert start == WalkState(0, 2, ZERO, [Reduced(2, ZERO)]);
    assert Siblings(ZERO_COMMIT) == [ZERO];
    var w := Witness(start, ch.beta, ZERO);
    assert w == ZeroWitness(ch);
    var next := Advance(XFold(g), start, ch.beta, ZERO);
    assert next == WalkState(0, 1, ZERO, []);
    assert [ZERO][1..] == [] && [ch.beta][1..] == [];
    assert Rounds(XFold(g), start, [ZERO], [ch.beta]) == [w];
    assert Finish(XFold(g), start, [ZERO], [ch.beta]) == next;
  }

  // ---- Two such queries and a bundle with a wrong twiddle ----

  /** A step of a vanishing pair at index 0, with the given twiddle. */
  function ZeroStep(h: nat, t: Fp, beta: Ef): FriFoldStep { FriFoldStep(0, h, t, beta, ZERO, ZERO, ZERO) }

  /** It is bound to its witness and satisfies the circuit, whatever its twiddle. */
  lemma AnyTwiddleBinds(g: Tower, h: nat, t: Fp, beta: Ef, onX: bool)
    requires h + 3 < |g.pts|
    ensures 0 < Pow2(h) && MatchesAt(g, ZeroStep(h, t, beta), FoldWitness(0, h, beta, ZERO, ZERO), onX) && FoldHolds(ZeroStep(h, t, beta))
  {
    hide FoldFormula, FoldXTwiddleInv, FoldYTwiddleInv;
    PowerPositive(h);
    ZeroFold(t, beta);
    ZeroFold(FoldXTwiddleInv(g, 0, h), beta);
    ZeroFold(FoldYTwiddleInv(g, 0, h), beta);
  }

  /** It is the builder's exactly when the twiddle is. */
  lemma ZeroStepBuilt(g: Tower, h: nat, t: Fp, beta: Ef, onX: bool)
    requires MAX_LOG_FOLDED + 3 < |g.pts| && 1 <= h <= MAX_LOG_FOLDED
    ensures 0 < Pow2(h)
    ensures StepLimbs(g, 0, h, beta, ZERO, ZERO, onX) == Some(ZeroStep(h, t, beta))
            <==> t == if onX then FoldXTwiddleInv(g, 0, h) else FoldYTwiddleInv(g, 0, h)
  {
    hide FoldFormula, FoldXTwiddleInv, FoldYTwiddleInv, Pow2, StepLimbs, FoldHolds;
    AnyTwiddleBinds(g, h, t, beta, onX);
    StepBuiltIff(g, ZeroStep(h, t, beta), FoldWitness(0, h, beta, ZERO, ZERO), onX);
  }

  lemma {:induction false} PowerPositive(h: nat)
    ensures Pow2(h) > 0
  {
    if h > 0 {
      PowerPositive(h - 1);
    }
  }

  /** Two queries at index 0. */
  function ZeroQueries(ch: Challenges): Queries {
    var q := Some(QueryOf([FoldYWitness(0, 2, ch.bivariateBeta, ZERO, ZERO)], [ZeroWitness(ch)]));
    [q, q]
  }

  /** What the queries contribute, in order. */
  lemma ZeroGathered(ch: Challenges)
    ensures var y := FoldWitness(0, 2, ch.bivariateBeta, ZERO, ZERO);
      Gathered(ZeroQueries(ch), false, 2) == [y, y] && Gathered(ZeroQueries(ch), true, 2) == [ZeroWitness(ch), ZeroWitness(ch)]
  {
    var qs := ZeroQueries(ch);
    hide Gathered;
    GatheredStep(qs, false, 0); GatheredStep(qs, false, 1); GatheredStep(qs, false, 2);
    GatheredStep(qs, true, 0); GatheredStep(qs, true, 1); GatheredStep(qs, true, 2);
    assert qs[0].value.ys == [FoldWitness(0, 2, ch.bivariateBeta, ZERO, ZERO)];
  }

  /** Two built y steps, an x step with the y twiddle and one with its own. */
  function WrongYs(g: Tower, ch: Challenges): seq<FriFoldStep>
    requires 5 < |g.pts|
  {
    hide FoldYTwiddleInv;
    PowerPositive(2);
    var y := ZeroStep(2, FoldYTwiddleInv(g, 0, 2), ch.bivariateBeta);
    [y, y]
  }

  function WrongXs(g: Tower, ch: Challenges): seq<FriFoldStep>
    requires 5 < |g.pts|
  {
    hide FoldXTwiddleInv, FoldYTwiddleInv;
    PowerPositive(1);
    [ZeroStep(1, FoldYTwiddleInv(g, 0, 1), ch.beta), ZeroStep(1, FoldXTwiddleInv(g, 0, 1), ch.beta)]
  }

  /** The greedy split reads the first x step as another y step. */
  lemma WrongSplit(g: Tower, ch: Challenges)
    requires g.Valid() && 5 < |g.pts|
    ensures SplitAccepts(g, WrongYs(g, ch) + WrongXs(g, ch))
  {
    hide FoldXTwiddleInv, FoldYTwiddleInv, FoldFormula;
    TwiddlesDiffer(g);
    var ty2, ty, tx := FoldYTwiddleInv(g, 0, 2), FoldYTwiddleInv(g, 0, 1), FoldXTwiddleInv(g, 0, 1);
    ZeroFold(ty2, ch.bivariateBeta); ZeroFold(ty, ch.beta); ZeroFold(tx, ch.beta);
    var steps := WrongYs(g, ch) + WrongXs(g, ch);
    assert YOk(g, steps[0]) && YOk(g, steps[1]) && YOk(g, steps[2]) && !YOk(g, steps[3]) && XOk(g, steps[3]);
    assert SplitsAt(YCheck(g), XCheck(g), steps, 3);
  }

  /** Whatever the challenges, two queries at index 0 of the zero polynomial's proof have
      a bundle that is bound and passes the native split, and is not the builder's: its
      first x step carries the y twiddle. */
  lemma WrongTwiddlePasses(g: Tower, ch: Challenges)
    requires g.Valid() && MAX_LOG_FOLDED + 3 < |g.pts| && Proper(ch)
    ensures ZeroInput(ch).InRange(g) && Visited(g, ZeroInput(ch)).RoOk?
    ensures var inp := ZeroInput(ch);
      var ros, ys := [Reduced(2, ZERO)], [FoldYWitness(0, 2, ch.bivariateBeta, ZERO, ZERO)];
      var xs := Extracted(XFold(g), ZERO_COMMIT, [ch.beta], inp.queryIndex, 1, inp.logBlowup, ZERO, ros, AGG_FRI_MAX_ROUNDS);
      && Reconstructs(g, inp, Visited(g, inp).value, ros, ys) && xs.Ok?
      && var qs: Queries := [Some(QueryOf(ys, xs.value)), Some(QueryOf(ys, xs.value))];
         && Buildable(qs) && Bound(g, qs, WrongYs(g, ch), WrongXs(g, ch)) && SplitAccepts(g, WrongYs(g, ch) + WrongXs(g, ch))
         && BuiltFrom(g, WrongYs(g, ch), Gathered(qs, false, 2), false) && !BuiltFrom(g, WrongXs(g, ch), Gathered(qs, true, 2), true)
  {
    hide FoldXTwiddleInv, FoldYTwiddleInv, Reconstructs, Extracted, Visited, SplitAccepts, Gathered, Matches, StepLimbs, Pow2, RoInput.InRange,
      Tower.Valid, FoldHolds, Degenerate, OwnTwiddle;
    ZeroVisited(g, ch);
    ZeroReconstructs(g, ch);
    ZeroWalk(g, ch);
    ZeroGathered(ch);
    WrongSplit(g, ch);
    PowerPositive(1); PowerPositive(2);
    var ty2, ty, tx := FoldYTwiddleInv(g, 0, 2), FoldYTwiddleInv(g, 0, 1), FoldXTwiddleInv(g, 0, 1);
    AnyTwiddleBinds(g, 2, ty2, ch.bivariateBeta, false);
    AnyTwiddleBinds(g, 1, ty, ch.beta, true);
    AnyTwiddleBinds(g, 1, tx, ch.beta, true);
    ZeroStepBuilt(g, 2, ty2, ch.bivariateBeta, false);
    ZeroStepBuilt(g, 1, ty, ch.beta, true);
    TwiddlesDiffer(g);
    var w := Gathered(ZeroQueries(ch), true, 2)[0];
    assert StepLimbs(g, w.index, w.logFolded, w.beta, w.v0, w.v1, true) != Some(WrongXs(g, ch)[0]);
  }
}
