/** The per-query walk against folding whole layers. */
module FoldRefinement {

  import opened M31
  import opened Ef3
  import opened PowersOfTwo
  import opened Circle
  import opened FoldGeometry
  import opened Multilinears
  import opened FoldRows
  import opened FoldWalk

  /** A full layer of reduced openings for each height that has one. */
  type RoLayers = map<nat, seq<Ef>>

  predicate WellSized(ro: RoLayers) {
    forall h :: h in ro ==> |ro[h]| == Pow2(h)
  }

  function Inject(ro: RoLayers, m: nat, layer: seq<Ef>): (r: seq<Ef>)
    requires |layer| == Pow2(m) && (m in ro ==> |ro[m]| == Pow2(m))
    ensures |r| == |layer|
  {
    if m in ro then AddLayers(layer, ro[m]) else layer
  }

  function Zeros(m: nat): (r: seq<Ef>)
    ensures |r| == Pow2(m)
  {
    seq(Pow2(m), i => ZERO)
  }

  /** One fold of a whole layer. */
  function FoldLayer(fold: RowFold, beta: Ef, h: nat, layer: seq<Ef>): (r: seq<Ef>)
    requires |layer| == Pow2(h + 1)
    ensures |r| == Pow2(h)
  {
    seq(Pow2(h), i requires 0 <= i < Pow2(h) => fold(i, h, beta, layer[2 * i], layer[2 * i + 1]))
  }

  /** The layer of round k with its reduced openings added, starting from height m. */
  ghost function LayerAt(fold: RowFold, m: nat, betas: seq<Ef>, layer: seq<Ef>, ro: RoLayers, k: nat): (r: seq<Ef>)
    requires k < |betas| <= m && |layer| == Pow2(m) && WellSized(ro)
    ensures |r| == Pow2(m - k)
    decreases k
  {
    var joined := Inject(ro, m, layer);
    if k == 0 then joined
    else LayerAt(fold, m - 1, betas[1..], FoldLayer(fold, betas[0], m - 1, joined), ro, k - 1)
  }

  /** The layer left after all rounds. */
  ghost function LastLayer(fold: RowFold, m: nat, betas: seq<Ef>, layer: seq<Ef>, ro: RoLayers): (r: seq<Ef>)
    requires |betas| <= m && |layer| == Pow2(m) && WellSized(ro)
    ensures |r| == Pow2(m - |betas|)
    decreases |betas|
  {
    if betas == [] then layer
    else LastLayer(fold, m - 1, betas[1..], FoldLayer(fold, betas[0], m - 1, Inject(ro, m, layer)), ro)
  }

  lemma NeighbourInRange(i: nat, m: nat)
    requires i < Pow2(m) && m > 0
    ensures Neighbour(i) < Pow2(m)
  {
  }

  /** The slot paired with index i >> k in the layer of round k. */
  ghost function SiblingAt(fold: RowFold, m: nat, betas: seq<Ef>, layer: seq<Ef>, ro: RoLayers, i: nat, k: nat): Ef
    requires k < |betas| <= m && |layer| == Pow2(m) && WellSized(ro) && i < Pow2(m)
  {
    ShrBound(i, k, m - k);
    NeighbourInRange(Shr(i, k), m - k);
    LayerAt(fold, m, betas, layer, ro, k)[Neighbour(Shr(i, k))]
  }

  /** sibs are the siblings an honest prover opens for index i. */
  ghost predicate HonestSiblings(sibs: seq<Ef>, fold: RowFold, m: nat, betas: seq<Ef>, layer: seq<Ef>, ro: RoLayers, i: nat)
    requires |betas| <= m && |layer| == Pow2(m) && WellSized(ro) && i < Pow2(m)
  {
    && |sibs| == |betas|
    && forall k :: 0 <= k < |betas| ==> sibs[k] == SiblingAt(fold, m, betas, layer, ro, i, k)
  }

  lemma HonestTail(sibs: seq<Ef>, fold: RowFold, m: nat, betas: seq<Ef>, layer: seq<Ef>, ro: RoLayers, i: nat)
    requires 0 < |betas| <= m && |layer| == Pow2(m) && WellSized(ro) && i < Pow2(m)
    requires HonestSiblings(sibs, fold, m, betas, layer, ro, i)
    ensures Neighbour(i) < |layer| && sibs[0] == Inject(ro, m, layer)[Neighbour(i)]
    ensures i / 2 < Pow2(m - 1)
    ensures HonestSiblings(sibs[1..], fold, m - 1, betas[1..], FoldLayer(fold, betas[0], m - 1, Inject(ro, m, layer)), ro, i / 2)
  {
    hide FoldLayer, Inject, Pow2, Neighbour, SiblingAt;
    NeighbourInRange(i, m);
    FirstSibling(fold, m, betas, layer, ro, i);
    HalfIndex(i, m);
    forall k | 0 <= k < |betas| - 1
      ensures sibs[1..][k] == SiblingAt(fold, m - 1, betas[1..], FoldLayer(fold, betas[0], m - 1, Inject(ro, m, layer)), ro, i / 2, k)
    {
      NextSibling(fold, m, betas, layer, ro, i, k);
      assert sibs[1..][k] == sibs[k + 1];
    }
  }

  lemma HalfIndex(i: nat, m: nat)
    requires i < Pow2(m) && m > 0
    ensures i / 2 < Pow2(m - 1)
  {
  }

  lemma FirstSibling(fold: RowFold, m: nat, betas: seq<Ef>, layer: seq<Ef>, ro: RoLayers, i: nat)
    requires 0 < |betas| <= m && |layer| == Pow2(m) && WellSized(ro) && i < Pow2(m)
    ensures Neighbour(i) < |layer|
    ensures SiblingAt(fold, m, betas, layer, ro, i, 0) == Inject(ro, m, layer)[Neighbour(i)]
  {
    hide FoldLayer, Inject, Pow2, Neighbour;
    NeighbourInRange(i, m);
  }

  lemma NextSibling(fold: RowFold, m: nat, betas: seq<Ef>, layer: seq<Ef>, ro: RoLayers, i: nat, k: nat)
    requires k + 1 < |betas| <= m && |layer| == Pow2(m) && WellSized(ro) && i < Pow2(m)
    ensures i / 2 < Pow2(m - 1)
    ensures SiblingAt(fold, m, betas, layer, ro, i, k + 1)
            == SiblingAt(fold, m - 1, betas[1..], FoldLayer(fold, betas[0], m - 1, Inject(ro, m, layer)), ro, i / 2, k)
  {
    hide FoldLayer, Inject, Neighbour;
    HalfIndex(i, m);
  }

  /** The reduced openings that index i of the height-m domain reads, in descending
      order of height. */
  function Reading(ro: RoLayers, m: nat, i: nat): seq<Reduced>
    requires WellSized(ro) && i < Pow2(m)
    decreases m
  {
    (if m in ro then [Reduced(m, ro[m][i])] else [])
    + (if m == 0 then [] else Reading(ro, m - 1, i / 2))
  }

  lemma {:induction false} ReadingHeights(ro: RoLayers, m: nat, i: nat)
    requires WellSized(ro) && i < Pow2(m)
    ensures forall k :: 0 <= k < |Reading(ro, m, i)| ==> Reading(ro, m, i)[k].logHeight <= m
    ensures Reading(ro, m, i) == [] <==> NoneAtOrBelow(ro, m)
    decreases m
  {
    if m > 0 {
      ReadingHeights(ro, m - 1, i / 2);
      assert NoneAtOrBelow(ro, m) <==> NoneAtOrBelow(ro, m - 1) && m !in ro;
    }
  }

  ghost predicate NoneAtOrBelow(ro: RoLayers, m: nat) {
    forall h :: h in ro ==> m < h
  }

  /** Absorbing adds the layer of the current height, if there is one. */
  lemma AbsorbReads(st: WalkState, ro: RoLayers, layer: seq<Ef>)
    requires WellSized(ro) && 0 < st.logCurrent && st.index < Pow2(st.logCurrent) == |layer|
    requires st.ros == Reading(ro, st.logCurrent, st.index)
    requires st.folded == layer[st.index]
    ensures Absorb(st).folded == Inject(ro, st.logCurrent, layer)[st.index]
    ensures Absorb(st).ros == Reading(ro, st.logCurrent - 1, st.index / 2)
  {
    hide EAdd;
    ReadingHeights(ro, st.logCurrent - 1, st.index / 2);
    var rest := Reading(ro, st.logCurrent - 1, st.index / 2);
    assert rest != [] ==> rest[0].logHeight < st.logCurrent;
  }

  ghost predicate ShowsPair(w: FoldWitness, layer: seq<Ef>, beta: Ef, m: nat, i: nat) {
    && 0 < m && |layer| == Pow2(m) && i < Pow2(m)
    && w == FoldWitness(i / 2, m - 1, beta, layer[2 * (i / 2)], layer[2 * (i / 2) + 1])
  }

  /** One round on the sibling from the layer: the pair of the index, and the fold of
      the layer at the next index. */
  lemma FirstRound(fold: RowFold, st: WalkState, beta: Ef, layer: seq<Ef>, ro: RoLayers)
    requires WellSized(ro) && 0 < st.logCurrent && st.index < Pow2(st.logCurrent) == |layer|
    requires st.ros == Reading(ro, st.logCurrent, st.index)
    requires st.folded == layer[st.index]
    ensures Neighbour(st.index) < |layer| && st.index / 2 < Pow2(st.logCurrent - 1)
    ensures var joined := Inject(ro, st.logCurrent, layer);
      var sibling := joined[Neighbour(st.index)];
      && ShowsPair(Witness(st, beta, sibling), joined, beta, st.logCurrent, st.index)
      && Advance(fold, st, beta, sibling)
         == WalkState(st.index / 2, st.logCurrent - 1,
                      FoldLayer(fold, beta, st.logCurrent - 1, joined)[st.index / 2],
                      Reading(ro, st.logCurrent - 1, st.index / 2))
  {
    hide EAdd, Reading, Inject, Absorb;
    NeighbourInRange(st.index, st.logCurrent);
    AbsorbReads(st, ro, layer);
    AbsorbKeeps(st);
  }

  lemma AbsorbKeeps(st: WalkState)
    ensures Absorb(st).index == st.index && Absorb(st).logCurrent == st.logCurrent
  {
  }

  /** The walk ends on the last layer, with the openings at or below the final height
      left over. */
  lemma {:induction false} WalkEndsOnLastLayer(fold: RowFold, st: WalkState, sibs: seq<Ef>, betas: seq<Ef>,
                                               layer: seq<Ef>, ro: RoLayers)
    requires WellSized(ro) && |betas| <= st.logCurrent && st.index < Pow2(st.logCurrent) == |layer|
    requires st.ros == Reading(ro, st.logCurrent, st.index) && st.folded == layer[st.index]
    requires HonestSiblings(sibs, fold, st.logCurrent, betas, layer, ro, st.index)
    ensures Shr(st.index, |betas|) < Pow2(st.logCurrent - |betas|)
    ensures var m, i := st.logCurrent, st.index;
      Finish(fold, st, sibs, betas)
      == WalkState(Shr(i, |betas|), m - |betas|, LastLayer(fold, m, betas, layer, ro)[Shr(i, |betas|)],
                   Reading(ro, m - |betas|, Shr(i, |betas|)))
    decreases |betas|
  {
    hide EAdd, FoldLayer, Advance, Witness, Pow2, Inject, AddLayers, Reading, Rounds, ShowsPair, HonestSiblings;
    if betas != [] {
      var m := st.logCurrent;
      AssertSizes(sibs, fold, m, betas, layer, ro, st.index);
      HonestTail(sibs, fold, m, betas, layer, ro, st.index);
      FirstRound(fold, st, betas[0], layer, ro);
      WalkEndsOnLastLayer(fold, Advance(fold, st, betas[0], sibs[0]), sibs[1..], betas[1..],
                          FoldLayer(fold, betas[0], m - 1, Inject(ro, m, layer)), ro);
    } else {
      AssertSizes(sibs, fold, st.logCurrent, betas, layer, ro, st.index);
    }
  }

  lemma AssertSizes(sibs: seq<Ef>, fold: RowFold, m: nat, betas: seq<Ef>, layer: seq<Ef>, ro: RoLayers, i: nat)
    requires |betas| <= m && |layer| == Pow2(m) && WellSized(ro) && i < Pow2(m)
    requires HonestSiblings(sibs, fold, m, betas, layer, ro, i)
    ensures |sibs| == |betas|
  {
  }

  /** Round k reads the pair of its index in the k-th layer. */
  lemma {:induction false} WalkReadsLayers(fold: RowFold, st: WalkState, sibs: seq<Ef>, betas: seq<Ef>,
                                           layer: seq<Ef>, ro: RoLayers, k: nat)
    requires WellSized(ro) && k < |betas| <= st.logCurrent && st.index < Pow2(st.logCurrent) == |layer|
    requires st.ros == Reading(ro, st.logCurrent, st.index) && st.folded == layer[st.index]
    requires HonestSiblings(sibs, fold, st.logCurrent, betas, layer, ro, st.index)
    ensures var m, i := st.logCurrent, st.index;
      ShowsPair(Rounds(fold, st, sibs, betas)[k], LayerAt(fold, m, betas, layer, ro, k), betas[k], m - k, Shr(i, k))
    decreases |betas|
  {
    hide EAdd, FoldLayer, Advance, Witness, Pow2, Inject, AddLayers, Reading, Finish, ShowsPair, HonestSiblings;
    var m := st.logCurrent;
    AssertSizes(sibs, fold, m, betas, layer, ro, st.index);
    HonestTail(sibs, fold, m, betas, layer, ro, st.index);
    FirstRound(fold, st, betas[0], layer, ro);
    if k > 0 {
      var next := Advance(fold, st, betas[0], sibs[0]);
      WalkReadsLayers(fold, next, sibs[1..], betas[1..], FoldLayer(fold, betas[0], m - 1, Inject(ro, m, layer)), ro, k - 1);
      assert Rounds(fold, st, sibs, betas)[k] == Rounds(fold, next, sibs[1..], betas[1..])[k - 1];
    }
  }

  // ---- Main results ----

  /** The openings an honest prover sends for a query that starts at index i. */
  ghost predicate HonestQuery(openings: seq<Opening>, fold: RowFold, top: nat, betas: seq<Ef>, ro: RoLayers, i: nat)
    requires |betas| <= top && WellSized(ro) && i < Pow2(top)
  {
    && |openings| == |betas|
    && (forall o :: o in openings ==> o.logArity == 1 && |o.siblingValues| == 1)
    && HonestSiblings(Siblings(openings), fold, top, betas, Zeros(top), ro, i)
  }

  /** What is left of the layers, starting from zeros, at height logBlowup. */
  ghost function FinalLayer(fold: RowFold, betas: seq<Ef>, logBlowup: nat, ro: RoLayers): (r: seq<Ef>)
    requires WellSized(ro)
    ensures |r| == Pow2(logBlowup)
  {
    var top := |betas| + logBlowup;
    assert top - |betas| == logBlowup;
    LastLayer(fold, top, betas, Zeros(top), ro)
  }

  /** On siblings read from the whole layers, the walk accepts exactly when the last
      layer holds finalPoly at query >> (extra + rounds) and no reduced opening sits
      at or below the final height. */
  lemma HonestWalkAccepts(fold: RowFold, openings: seq<Opening>, betas: seq<Ef>, query: nat, extra: nat, i: nat, j: nat,
                          logBlowup: nat, finalPoly: Ef, ro: RoLayers, maxRounds: nat)
    requires WellSized(ro) && |betas| <= maxRounds
    requires i == Shr(query, extra) && j == Shr(query, extra + |betas|)
    requires i < Pow2(|betas| + logBlowup)
    requires HonestQuery(openings, fold, |betas| + logBlowup, betas, ro, i)
    ensures j < Pow2(logBlowup)
    ensures Extracted(fold, openings, betas, query, extra, logBlowup, finalPoly, Reading(ro, |betas| + logBlowup, i), maxRounds).Ok?
            <==> FinalLayer(fold, betas, logBlowup, ro)[j] == finalPoly && NoneAtOrBelow(ro, logBlowup)
  {
    hide EAdd, FirstBadSibling, Reading, Rounds, Finish, LastLayer, HonestSiblings, Pow2, Shr;
    var top := |betas| + logBlowup;
    WalkEndsOnLastLayer(fold, Start(query, extra, top, Reading(ro, top, i)), Siblings(openings), betas, Zeros(top), ro);
    ShrAdd(query, extra, |betas|);
    ReadingHeights(ro, logBlowup, j);
  }

  /** When it accepts, round k reports the pair of layer k at query >> (extra + k + 1). */
  lemma HonestWalkShowsPair(fold: RowFold, openings: seq<Opening>, betas: seq<Ef>, query: nat, extra: nat, i: nat,
                            logBlowup: nat, finalPoly: Ef, ro: RoLayers, maxRounds: nat, ws: seq<FoldWitness>, k: nat)
    requires WellSized(ro)
    requires i == Shr(query, extra) < Pow2(|betas| + logBlowup)
    requires HonestQuery(openings, fold, |betas| + logBlowup, betas, ro, i)
    requires Extracted(fold, openings, betas, query, extra, logBlowup, finalPoly, Reading(ro, |betas| + logBlowup, i), maxRounds) == Ok(ws)
    requires k < |betas|
    ensures |ws| == |betas|
    ensures var top := |betas| + logBlowup;
      ShowsPair(ws[k], LayerAt(fold, top, betas, Zeros(top), ro, k), betas[k], top - k, Shr(i, k))
  {
    hide EAdd, FirstBadSibling, Reading, Rounds, Finish, LastLayer, HonestSiblings, Pow2, Shr, ShowsPair, LayerAt;
    var top := |betas| + logBlowup;
    WalkReadsLayers(fold, Start(query, extra, top, Reading(ro, top, i)), Siblings(openings), betas, Zeros(top), ro, k);
  }

  /** A height above the top of the commit phase is never absorbed: the walk rejects. */
  lemma {:induction false} TooHighNeverAbsorbed(fold: RowFold, st: WalkState, sibs: seq<Ef>, betas: seq<Ef>)
    requires |sibs| == |betas| <= st.logCurrent
    requires st.ros != [] && st.ros[0].logHeight > st.logCurrent
    ensures Finish(fold, st, sibs, betas).ros == st.ros
    decreases |betas|
  {
    hide EAdd;
    if betas != [] {
      TooHighNeverAbsorbed(fold, Advance(fold, st, betas[0], sibs[0]), sibs[1..], betas[1..]);
    }
  }

  // ---- Low-degree reduced openings fold to one constant ----

  /** ro holds at each height h the codeword of coefficients cs[h], of degree below
      2^{h - logBlowup}. */
  ghost predicate LowDegree(g: Tower, ro: RoLayers, cs: map<nat, seq<Ef>>, logBlowup: nat) {
    && ro.Keys == cs.Keys
    && (forall h :: h in cs ==>
          (logBlowup < h && h + 2 < |g.pts| && |cs[h]| == Pow2(h - logBlowup)
           && ro[h] == Codeword(g, h, h - logBlowup, cs[h])))
  }

  /** The sum over the heights h <= m of the polynomial at the challenges from h on. */
  ghost function InjectedValue(m: nat, betas: seq<Ef>, cs: map<nat, seq<Ef>>): Ef
    requires |betas| <= m
    decreases |betas|
  {
    if betas == [] then ZERO
    else
      EAdd(if m in cs && |cs[m]| == Pow2(|betas|) then Multilinear(cs[m], betas) else ZERO,
           InjectedValue(m - 1, betas[1..], cs))
  }

  ghost predicate Constant(layer: seq<Ef>, v: Ef) {
    forall i :: 0 <= i < |layer| ==> layer[i] == v
  }

  lemma FoldLayerIsFoldX(g: Tower, beta: Ef, h: nat, layer: seq<Ef>)
    requires h + 3 < |g.pts| && |layer| == Pow2(h + 1)
    ensures FoldLayer(XFold(g), beta, h, layer) == FoldXLayer(g, beta, h, layer)
  {
    hide FoldXRow;
  }

  lemma AddCodewords(g: Tower, m: nat, n: nat, a: seq<Ef>, b: seq<Ef>)
    requires m + 2 < |g.pts| && |a| == |b| == Pow2(n)
    ensures AddLayers(Codeword(g, m, n, a), Codeword(g, m, n, b)) == Codeword(g, m, n, AddLayers(a, b))
  {
    hide EAdd, MSum, LayerPoint, Coordinates;
    forall i | 0 <= i < Pow2(m)
      ensures AddLayers(Codeword(g, m, n, a), Codeword(g, m, n, b))[i] == Codeword(g, m, n, AddLayers(a, b))[i]
    {
      MSumAdd(a, b, Coordinates(LayerPoint(g, m, i).x, n), |a|);
    }
  }

  lemma MultilinearAdd(a: seq<Ef>, b: seq<Ef>, zs: seq<Ef>)
    requires |a| == |b| == Pow2(|zs|)
    ensures Multilinear(AddLayers(a, b), zs) == EAdd(Multilinear(a, zs), Multilinear(b, zs))
  {
    hide EAdd, MSum;
    MSumAdd(a, b, zs, |a|);
  }

  /** One round on a low-degree layer. */
  lemma CodewordRound(g: Tower, m: nat, betas: seq<Ef>, c: seq<Ef>, ro: RoLayers, cs: map<nat, seq<Ef>>)
    requires g.Valid() && 0 < |betas| <= m && m + 2 < |g.pts| && WellSized(ro)
    requires |c| == Pow2(|betas|) && LowDegree(g, ro, cs, m - |betas|)
    ensures |Joined(c, cs, m)| == |c|
    ensures LastLayer(XFold(g), m, betas, Codeword(g, m, |betas|, c), ro)
            == LastLayer(XFold(g), m - 1, betas[1..],
                         Codeword(g, m - 1, |betas| - 1, FoldCoeffs(Joined(c, cs, m), betas[0])), ro)
  {
    hide PAdd, OnCircle, LayerPoint, EAdd, EMul, Multilinear, FoldXLayer, FoldLayer, Codeword, AddLayers, FoldCoeffs, XFold, Inject;
    var n := |betas|;
    var c' := Joined(c, cs, m);
    CoefficientsJoin(g, m, n, c, ro, cs, m - n);
    FoldXLayerOfCodeword(g, m - 1, n - 1, c', betas[0]);
    FoldLayerIsFoldX(g, betas[0], m - 1, Codeword(g, m, n, c'));
  }

  lemma {:induction false} CodewordsFoldToConstant(g: Tower, m: nat, betas: seq<Ef>, c: seq<Ef>, ro: RoLayers,
                                                   cs: map<nat, seq<Ef>>)
    requires g.Valid() && |betas| <= m && m + 2 < |g.pts| && WellSized(ro)
    requires |c| == Pow2(|betas|) && LowDegree(g, ro, cs, m - |betas|)
    ensures Constant(LastLayer(XFold(g), m, betas, Codeword(g, m, |betas|, c), ro),
                     EAdd(Multilinear(c, betas), InjectedValue(m, betas, cs)))
    decreases |betas|
  {
    hide PAdd, OnCircle, LayerPoint, EAdd, EMul, Multilinear, FoldXLayer, FoldLayer, Codeword, AddLayers, FoldCoeffs, XFold, Constant;
    if betas == [] {
      ConstantCodeword(g, m, c);
    } else {
      var rest := betas[1..];
      var c' := Joined(c, cs, m);
      CodewordRound(g, m, betas, c, ro, cs);
      FoldCoeffsLength(c', betas[0]);
      HalfPower(|betas|);
      CodewordsFoldToConstant(g, m - 1, rest, FoldCoeffs(c', betas[0]), ro, cs);
      MultilinearFold(c', betas);
      if m in cs {
        MultilinearAdd(c, cs[m], betas);
        EAddAssoc(Multilinear(c, betas), Multilinear(cs[m], betas), InjectedValue(m - 1, rest, cs));
      } else {
        EAddZero(InjectedValue(m - 1, rest, cs));
      }
    }
  }

  /** Coefficients once those injected at height m are added. */
  function Joined(c: seq<Ef>, cs: map<nat, seq<Ef>>, m: nat): seq<Ef>
    requires m in cs ==> |cs[m]| == |c|
  {
    if m in cs then AddLayers(c, cs[m]) else c
  }

  lemma FoldCoeffsLength(c: seq<Ef>, beta: Ef)
    ensures |FoldCoeffs(c, beta)| == |c| / 2
  {
  }

  lemma CoefficientsJoin(g: Tower, m: nat, n: nat, c: seq<Ef>, ro: RoLayers, cs: map<nat, seq<Ef>>, logBlowup: nat)
    requires m + 2 < |g.pts| && |c| == Pow2(n) && m == logBlowup + n && WellSized(ro)
    requires LowDegree(g, ro, cs, logBlowup)
    ensures |Joined(c, cs, m)| == Pow2(n)
    ensures Inject(ro, m, Codeword(g, m, n, c)) == Codeword(g, m, n, Joined(c, cs, m))
  {
    hide EAdd, Codeword;
    if m in cs {
      AddCodewords(g, m, n, c, cs[m]);
    }
  }

  lemma ConstantCodeword(g: Tower, m: nat, c: seq<Ef>)
    requires m + 2 < |g.pts| && |c| == 1
    ensures Constant(Codeword(g, m, 0, c), EAdd(Multilinear(c, []), ZERO))
  {
    hide EAdd, EMul, LayerPoint, MSum;
    EAddZero(Multilinear(c, []));
    assert forall i :: 0 <= i < Pow2(m) ==> Coordinates(LayerPoint(g, m, i).x, 0) == [];
  }

  lemma ZeroCodeword(g: Tower, m: nat, n: nat)
    requires m + 2 < |g.pts|
    ensures Codeword(g, m, n, Zeros(n)) == Zeros(m)
  {
    hide LayerPoint, MSum, Coordinates, Pow2;
    forall i | 0 <= i < Pow2(m)
      ensures Codeword(g, m, n, Zeros(n))[i] == ZERO
    {
      ZeroSum(n, Coordinates(LayerPoint(g, m, i).x, n), Pow2(n));
    }
  }

  lemma ZeroMultilinear(zs: seq<Ef>)
    ensures Multilinear(Zeros(|zs|), zs) == ZERO
  {
    hide MSum;
    ZeroSum(|zs|, zs, Pow2(|zs|));
  }

  lemma {:induction false} ZeroSum(n: nat, zs: seq<Ef>, k: nat)
    requires k <= Pow2(n)
    ensures MSum(Zeros(n), zs, k) == ZERO
  {
    hide EAdd, EMul;
    if k > 0 {
      ZeroSum(n, zs, k - 1);
      EMulZero(Monomial(k - 1, zs));
      EAddZero(ZERO);
    }
  }

  /** When every layer of reduced openings is a low-degree codeword, all queries of
      all positions reach the same value, the one the challenges determine. */
  lemma LowDegreeReachesFinalPoly(g: Tower, betas: seq<Ef>, logBlowup: nat, ro: RoLayers, cs: map<nat, seq<Ef>>)
    requires g.Valid() && |betas| + logBlowup + 2 < |g.pts| && WellSized(ro)
    requires LowDegree(g, ro, cs, logBlowup)
    ensures Constant(FinalLayer(XFold(g), betas, logBlowup, ro), InjectedValue(|betas| + logBlowup, betas, cs))
  {
    hide PAdd, OnCircle, LayerPoint, EAdd, EMul, Multilinear, FoldXLayer, FoldLayer, Codeword, LastLayer, InjectedValue, Constant, Zeros, Pow2, XFold, LowDegree, WellSized;
    var top := |betas| + logBlowup;
    ZeroCodeword(g, top, |betas|);
    ZeroMultilinear(betas);
    CodewordsFoldToConstant(g, top, betas, Zeros(|betas|), ro, cs);
    EAddZero(InjectedValue(top, betas, cs));
  }

  /** The single-height case, from the circle evaluations: after the y fold and all x
      folds every index holds the polynomial with each basis function replaced by its
      challenge. */
  lemma CircleCodewordFoldsToConstant(g: Tower, yBeta: Ef, betas: seq<Ef>, logBlowup: nat, c: seq<Ef>)
    requires g.Valid() && |betas| + logBlowup + 2 < |g.pts|
    requires |c| == Pow2(|betas| + 1)
    ensures var top := |betas| + logBlowup;
      Constant(LastLayer(XFold(g), top, betas, FoldYLayer(g, yBeta, top, CircleCodeword(g, top, |betas|, c)), map[]),
               Multilinear(c, [yBeta] + betas))
  {
    hide PAdd, OnCircle, LayerPoint, EAdd, EMul, Multilinear, FoldYLayer, Codeword, CircleCodeword, LastLayer, FoldCoeffs, Constant, XFold, InjectedValue, FoldLayer, Pow2;
    var top := |betas| + logBlowup;
    FoldYLayerOfCodeword(g, top, |betas|, c, yBeta);
    FoldCoeffsLength(c, yBeta);
    HalfPower(|betas| + 1);
    CodewordFoldsToConstant(g, top, betas, FoldCoeffs(c, yBeta));
    var all := [yBeta] + betas;
    assert all[1..] == betas;
    MultilinearFold(c, all);
  }

  lemma CodewordFoldsToConstant(g: Tower, m: nat, betas: seq<Ef>, c: seq<Ef>)
    requires g.Valid() && |betas| <= m && m + 2 < |g.pts| && |c| == Pow2(|betas|)
    ensures Constant(LastLayer(XFold(g), m, betas, Codeword(g, m, |betas|, c), map[]), Multilinear(c, betas))
  {
    hide PAdd, OnCircle, LayerPoint, EAdd, EMul, Multilinear, Codeword, LastLayer, Constant, XFold, InjectedValue, FoldLayer, Pow2;
    CodewordsFoldToConstant(g, m, betas, c, map[], map[]);
    NothingInjected(m, betas);
    EAddZero(Multilinear(c, betas));
  }

  lemma {:induction false} NothingInjected(m: nat, betas: seq<Ef>)
    requires |betas| <= m
    ensures InjectedValue(m, betas, map[]) == ZERO
    decreases |betas|
  {
    hide EAdd;
    if betas != [] {
      NothingInjected(m - 1, betas[1..]);
      EAddZero(ZERO);
    }
  }
}
