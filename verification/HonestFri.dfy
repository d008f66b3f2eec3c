/** Reconstruction and walk together: on evaluations of low-degree polynomials every
    query is accepted with the one final value the challenges determine. */
module HonestFri {

  import opened M31
  import opened Ef3
  import opened PowersOfTwo
  import opened Circle
  import opened FoldGeometry
  import opened Multilinears
  import opened FoldRows
  import opened FoldWalk
  import opened FoldRefinement
  import opened ReducedOpenings

  /** Corrected first-layer evaluations, one circle layer for each LDE height. */
  type CircleLayers = map<nat, seq<Ef>>

  /** ro holds the first y fold of every circle layer. */
  ghost predicate AreFirstFolds(ro: RoLayers, g: Tower, beta: Ef, layers: CircleLayers) {
    hide FoldYLayer;
    && (forall h: nat :: h in ro <==> h + 1 in layers)
    && (forall h: nat :: h in ro ==>
          (h + 2 < |g.pts| && |layers[h + 1]| == Pow2(h + 1) && ro[h] == FoldYLayer(g, beta, h, layers[h + 1])))
  }

  /** The query's slot of layer h holds the corrected value, its neighbour the sibling. */
  ghost predicate HonestSlot(g: Tower, inp: RoInput, h: nat, ro: Ef, sibling: Ef, lambda: Ef, layer: seq<Ef>)
    requires 1 <= h <= inp.LogGlobalMax() && inp.LogGlobalMax() + 1 < |g.pts| && inp.logBlowup <= h
    requires inp.queryIndex < Pow2(inp.LogGlobalMax()) && |layer| == Pow2(h)
  {
    hide Corrected;
    var s := Shr(inp.queryIndex, inp.LogGlobalMax() - h);
    ShrBound(inp.queryIndex, inp.LogGlobalMax() - h, h);
    NeighbourInRange(s, h);
    layer[s] == Corrected(g, inp, h, ro, lambda) && layer[Neighbour(s)] == sibling
  }

  /** The reconstructed opening is the y fold of the layer at the query. */
  lemma FirstLayerReads(g: Tower, inp: RoInput, h: nat, ro: Ef, sibling: Ef, lambda: Ef, layer: seq<Ef>, i: nat)
    requires 1 <= h <= inp.LogGlobalMax() && inp.LogGlobalMax() + 1 < |g.pts| && inp.logBlowup <= h
    requires inp.queryIndex < Pow2(inp.LogGlobalMax()) && |layer| == Pow2(h)
    requires HonestSlot(g, inp, h, ro, sibling, lambda, layer)
    requires i == Shr(inp.queryIndex, inp.LogGlobalMax() - h + 1)
    ensures i < Pow2(h - 1)
    ensures FirstLayerReduced(g, inp, h, ro, sibling, lambda)
            == Reduced(h - 1, FoldYLayer(g, inp.bivariateBeta, h - 1, layer)[i])
  {
    hide FoldYRow, ESub, EMul, QueryPoint, IterDoubleX, Shr, Pow2;
    var bits := inp.LogGlobalMax() - h;
    ShrBound(inp.queryIndex, bits, h);
    ShrBound(inp.queryIndex, bits + 1, h - 1);
    ShrStep(inp.queryIndex, bits);
    HalfPower(h);
    FirstLayerSlots(g, inp, h, ro, sibling, lambda);
  }

  /** The corrected value sits in the query's slot, the sibling in the other. */
  lemma FirstLayerSlots(g: Tower, inp: RoInput, h: nat, ro: Ef, sibling: Ef, lambda: Ef)
    requires 1 <= h <= inp.LogGlobalMax() && inp.LogGlobalMax() + 1 < |g.pts| && inp.logBlowup <= h
    requires inp.queryIndex < Pow2(inp.LogGlobalMax())
    ensures var w := FirstLayer(g, inp, h, ro, sibling, lambda);
      var c := Corrected(g, inp, h, ro, lambda);
      && w.index == Shr(inp.queryIndex, inp.LogGlobalMax() - h + 1) && w.logFolded == h - 1 && w.beta == inp.bivariateBeta
      && (w.v0, w.v1) == (if Shr(inp.queryIndex, inp.LogGlobalMax() - h) % 2 == 0 then (c, sibling) else (sibling, c))
  {
    hide ESub, EMul, QueryPoint, IterDoubleX, Shr, Pow2;
  }

  // ---- The reconstructed list ----

  /** Values by height below n, highest first, as reduced openings of the folded heights. */
  function Listed(values: map<nat, Ef>, n: nat): seq<Reduced> {
    if n <= 1 then []
    else (if n - 1 in values then [Reduced(n - 2, values[n - 1])] else []) + Listed(values, n - 1)
  }

  /** values holds, one height up, what index i of the height-top domain reads from ro. */
  ghost predicate ValuesRead(values: map<nat, Ef>, ro: RoLayers, i: nat, top: nat) {
    hide Shr;
    && (forall m: nat :: m in ro <==> m + 1 in values)
    && (forall m: nat :: m in ro ==>
          (m <= top && Shr(i, top - m) < |ro[m]| && values[m + 1] == ro[m][Shr(i, top - m)]))
  }

  lemma {:induction false} ReadingIsListed(values: map<nat, Ef>, ro: RoLayers, i: nat, top: nat, m: nat, j: nat)
    requires WellSized(ro) && m <= top && j < Pow2(m)
    requires ValuesRead(values, ro, i, top) && j == Shr(i, top - m)
    ensures Reading(ro, m, j) == Listed(values, m + 2)
    decreases m
  {
    hide Shr, Pow2, Listed, Reading, ValuesRead, WellSized;
    ListedStep(values, m + 2);
    ListedStep(values, 1);
    ReadingStep(ro, m, j);
    ValueHere(values, ro, i, top, m);
    if m > 0 {
      HalfIndex(j, m);
      ShrStep(i, top - m);
      ReadingIsListed(values, ro, i, top, m - 1, j / 2);
    }
  }

  lemma ReadingStep(ro: RoLayers, m: nat, j: nat)
    requires WellSized(ro) && j < Pow2(m)
    ensures m in ro ==> j < |ro[m]|
    ensures m > 0 ==> j / 2 < Pow2(m - 1)
    ensures Reading(ro, m, j) == (if m in ro then [Reduced(m, ro[m][j])] else [])
                                 + (if m == 0 then [] else Reading(ro, m - 1, j / 2))
  {
  }

  lemma ValueHere(values: map<nat, Ef>, ro: RoLayers, i: nat, top: nat, m: nat)
    requires ValuesRead(values, ro, i, top) && m <= top
    ensures m in ro <==> m + 1 in values
    ensures m in ro ==> Shr(i, top - m) < |ro[m]| && values[m + 1] == ro[m][Shr(i, top - m)]
  {
    hide Shr;
  }

  lemma ListedStep(values: map<nat, Ef>, n: nat)
    ensures Listed(values, n) == if n <= 1 then []
                                 else (if n - 1 in values then [Reduced(n - 2, values[n - 1])] else []) + Listed(values, n - 1)
  {
  }

  /** ros lists the values of the heights hs, in the reverse order. */
  ghost predicate ListsReversed(ros: seq<Reduced>, hs: seq<nat>, values: map<nat, Ef>) {
    && |ros| == |hs|
    && forall k :: 0 <= k < |hs| ==> EntryIs(ros[k], hs[|hs| - 1 - k], values)
  }

  ghost predicate EntryIs(e: Reduced, h: nat, values: map<nat, Ef>) {
    h in values && h > 0 && e == Reduced(h - 1, values[h])
  }

  lemma {:induction false} ReversedIsListed(ros: seq<Reduced>, values: map<nat, Ef>, n: nat)
    requires 0 !in values
    requires ListsReversed(ros, Ascending(values.Keys, n), values)
    ensures ros == Listed(values, n)
  {
    hide Listed, EntryIs;
    ListedStep(values, n);
    if n <= 1 {
      assert Ascending(values.Keys, 0) == [];
    } else if n - 1 in values {
      FirstEntry(ros, values, n, Ascending(values.Keys, n - 1));
      ReversedIsListed(ros[1..], values, n - 1);
    } else {
      ReversedIsListed(ros, values, n - 1);
      assert [] + ros == ros;
    }
  }

  lemma FirstEntry(ros: seq<Reduced>, values: map<nat, Ef>, n: nat, rest: seq<nat>)
    requires n > 1 && n - 1 in values && ListsReversed(ros, rest + [n - 1], values)
    ensures |ros| > 0 && ros == [Reduced(n - 2, values[n - 1])] + ros[1..]
    ensures ListsReversed(ros[1..], rest, values)
  {
    hide EntryIs;
    var hs, tail := rest + [n - 1], ros[1..];
    assert EntryIs(ros[0], hs[|hs| - 1], values);
    EntryAt(ros[0], n - 1, values);
    forall k | 0 <= k < |rest|
      ensures EntryIs(tail[k], rest[|rest| - 1 - k], values)
    {
      assert EntryIs(ros[k + 1], hs[|hs| - 1 - (k + 1)], values);
    }
  }

  lemma EntryAt(e: Reduced, h: nat, values: map<nat, Ef>)
    requires EntryIs(e, h, values)
    ensures h in values && h > 0 && e == Reduced(h - 1, values[h])
  {
  }

  // ---- Reconstruction against honest layers ----

  /** Of the layer of height hs[t], the query's slot holds the corrected value and its
      neighbour the sibling. */
  ghost predicate HonestAt(g: Tower, inp: RoInput, ops: seq<DeepOpening>, hs: seq<nat>, layers: CircleLayers, t: nat) {
    hide HonestSlot, RoSum, AtHeight, Pow2;
    && t < |hs| && t < |inp.siblings| && t < |inp.lambdas|
    && inp.LogGlobalMax() + 1 < |g.pts| && inp.queryIndex < Pow2(inp.LogGlobalMax())
    && hs[t] in layers && |layers[hs[t]]| == Pow2(hs[t])
    && 1 <= hs[t] <= inp.LogGlobalMax() && inp.logBlowup <= hs[t]
    && HonestSlot(g, inp, hs[t], RoSum(inp.alpha, AtHeight(ops, hs[t])), inp.siblings[t], inp.lambdas[t], layers[hs[t]])
  }

  /** The first-layer opening of height h is (h - 1, v). */
  ghost predicate FoldsTo(g: Tower, inp: RoInput, h: nat, sum: Ef, sibling: Ef, lambda: Ef, v: Ef) {
    hide FirstLayerReduced, Pow2;
    && 1 <= h <= inp.LogGlobalMax() && inp.LogGlobalMax() + 1 < |g.pts| && inp.logBlowup <= h
    && inp.queryIndex < Pow2(inp.LogGlobalMax())
    && FirstLayerReduced(g, inp, h, sum, sibling, lambda) == Reduced(h - 1, v)
  }

  /** What index i reads one height down. */
  ghost predicate ReadsBelow(ro: RoLayers, h: nat, j: nat, v: Ef) {
    h > 0 && h - 1 in ro && j < |ro[h - 1]| && v == ro[h - 1][j]
  }

  lemma HonestFolds(g: Tower, inp: RoInput, ops: seq<DeepOpening>, hs: seq<nat>, layers: CircleLayers, ro: RoLayers,
                    t: nat, h: nat, j: nat, v: Ef)
    requires HonestAt(g, inp, ops, hs, layers, t) && h == hs[t]
    requires AreFirstFolds(ro, g, inp.bivariateBeta, layers)
    requires ReadsBelow(ro, h, j, v)
    requires h <= inp.LogGlobalMax() && j == Shr(inp.queryIndex, inp.LogGlobalMax() - h + 1)
    ensures t < |inp.siblings| && t < |inp.lambdas|
    ensures FoldsTo(g, inp, h, RoSum(inp.alpha, AtHeight(ops, h)), inp.siblings[t], inp.lambdas[t], v)
  {
    hide FirstLayerReduced, HonestSlot, FoldYLayer, Shr, FirstLayer, Pow2, RoSum, AtHeight;
    assert h - 1 in ro;
    assert layers[h - 1 + 1] == layers[h];
    FirstLayerReads(g, inp, h, RoSum(inp.alpha, AtHeight(ops, h)), inp.siblings[t], inp.lambdas[t], layers[h], j);
  }

  /** An accepted reconstruction of the openings it visits, against honest layers and their
      first folds. */
  ghost predicate HonestReconstruction(g: Tower, inp: RoInput, ops: seq<DeepOpening>, ros: seq<Reduced>,
                                       ys: seq<FoldYWitness>, layers: CircleLayers, ro: RoLayers)
  {
    hide Reconstructs, HonestAt, AreFirstFolds, HeightSet, Ascending, Visited;
    var hs := Ascending(HeightSet(ops), inp.LogGlobalMax() + 1);
    && inp.InRange(g) && Visited(g, inp) == RoOk(ops) && Reconstructs(g, inp, ops, ros, ys)
    && (forall t: nat :: t < |hs| ==> HonestAt(g, inp, ops, hs, layers, t))
    && layers.Keys == HeightSet(ops) && 0 !in layers
    && (forall h :: h in layers ==> h <= inp.LogGlobalMax())
    && AreFirstFolds(ro, g, inp.bivariateBeta, layers)
  }

  /** The values the query reads from the folded layers, keyed by circle height. */
  ghost function ValuesOf(inp: RoInput, layers: CircleLayers, ro: RoLayers): (values: map<nat, Ef>)
    ensures values.Keys == layers.Keys
  {
    hide Shr;
    map h | h in layers ::
      if 0 < h <= inp.LogGlobalMax() && h - 1 in ro && Shr(inp.queryIndex, inp.LogGlobalMax() - h + 1) < |ro[h - 1]|
      then ro[h - 1][Shr(inp.queryIndex, inp.LogGlobalMax() - h + 1)] else ZERO
  }

  lemma ValuesAreRead(g: Tower, inp: RoInput, ops: seq<DeepOpening>, ros: seq<Reduced>, ys: seq<FoldYWitness>,
                      layers: CircleLayers, ro: RoLayers, h: nat, j: nat)
    requires HonestReconstruction(g, inp, ops, ros, ys, layers, ro) && h in layers && h <= inp.LogGlobalMax()
    requires j == Shr(inp.queryIndex, inp.LogGlobalMax() - h + 1)
    ensures ReadsBelow(ro, h, j, ValuesOf(inp, layers, ro)[h])
  {
    hide Reconstructs, HonestAt, Visited, HeightSet, Ascending, Shr, Pow2, FoldYLayer, AreFirstFolds;
    FirstFoldSize(ro, g, inp.bivariateBeta, layers, h);
    ShrBound(inp.queryIndex, inp.LogGlobalMax() - h + 1, h - 1);
  }

  lemma FirstFoldSize(ro: RoLayers, g: Tower, beta: Ef, layers: CircleLayers, h: nat)
    requires AreFirstFolds(ro, g, beta, layers) && h in layers && h > 0
    ensures h - 1 in ro && |ro[h - 1]| == Pow2(h - 1)
  {
    hide FoldYLayer, Pow2;
    assert h - 1 + 1 in layers;
  }

  lemma ReconstructedIsReversed(g: Tower, inp: RoInput, ops: seq<DeepOpening>, ros: seq<Reduced>,
                                ys: seq<FoldYWitness>, layers: CircleLayers, ro: RoLayers)
    requires HonestReconstruction(g, inp, ops, ros, ys, layers, ro)
    ensures ListsReversed(ros, Ascending(layers.Keys, inp.LogGlobalMax() + 1), ValuesOf(inp, layers, ro))
  {
    hide Visited, FirstLayerReduced, FirstLayer, HonestAt, RoSum, AtHeight, Ascending, HeightSet, Pow2, Shr, AreFirstFolds, ValuesOf, ReadsBelow;
    var hs := Ascending(HeightSet(ops), inp.LogGlobalMax() + 1);
    var values := ValuesOf(inp, layers, ro);
    forall k | 0 <= k < |hs|
      ensures EntryIs(ros[k], hs[|hs| - 1 - k], values)
    {
      var t := |hs| - 1 - k;
      var h := hs[t];
      assert h in layers.Keys;
      var j := Shr(inp.queryIndex, inp.LogGlobalMax() - h + 1);
      ValuesAreRead(g, inp, ops, ros, ys, layers, ro, h, j);
      HonestFolds(g, inp, ops, hs, layers, ro, t, h, j, values[h]);
    }
  }

  /** Then the reconstructed list is exactly what the walk should read from the folded
      layers. */
  lemma ReconstructionReads(g: Tower, inp: RoInput, ops: seq<DeepOpening>, ros: seq<Reduced>,
                            ys: seq<FoldYWitness>, layers: CircleLayers, ro: RoLayers, i: nat, top: nat)
    requires WellSized(ro) && HonestReconstruction(g, inp, ops, ros, ys, layers, ro)
    requires i == Shr(inp.queryIndex, 1) && top == inp.commitRounds + inp.logBlowup && i < Pow2(top)
    ensures ros == Reading(ro, top, i)
  {
    hide HonestReconstruction, Pow2, Shr, Ascending, ValuesOf, Listed, Reading;
    var values := ValuesOf(inp, layers, ro);
    ValuesMatch(g, inp, ops, ros, ys, layers, ro, i, top);
    ReconstructedIsReversed(g, inp, ops, ros, ys, layers, ro);
    ReversedIsListed(ros, values, top + 2);
    ShrNone(i);
    ReadingIsListed(values, ro, i, top, top, i);
  }

  lemma ValuesMatch(g: Tower, inp: RoInput, ops: seq<DeepOpening>, ros: seq<Reduced>,
                    ys: seq<FoldYWitness>, layers: CircleLayers, ro: RoLayers, i: nat, top: nat)
    requires HonestReconstruction(g, inp, ops, ros, ys, layers, ro)
    requires i == Shr(inp.queryIndex, 1) && top == inp.commitRounds + inp.logBlowup
    ensures 0 !in layers && ValuesRead(ValuesOf(inp, layers, ro), ro, i, top)
  {
    hide Reconstructs, HonestAt, Visited, HeightSet, Ascending, Shr, Pow2, FoldYLayer, ValuesOf;
    var values := ValuesOf(inp, layers, ro);
    forall m: nat | m in ro
      ensures m <= top && Shr(i, top - m) < |ro[m]| && values[m + 1] == ro[m][Shr(i, top - m)]
    {
      ShrAdd(inp.queryIndex, 1, top - m);
      ValuesAreRead(g, inp, ops, ros, ys, layers, ro, m + 1, Shr(inp.queryIndex, top - m + 1));
    }
  }

  /** layers[h] evaluates the circle polynomial with coefficients cs[h], of degree
      2^{h - logBlowup}; fs[h - 1] are its coefficients after the y fold. */
  ghost predicate LowDegreeLayers(g: Tower, beta: Ef, layers: CircleLayers, cs: map<nat, seq<Ef>>, fs: map<nat, seq<Ef>>, logBlowup: nat) {
    hide CircleCodeword, FoldCoeffs;
    && (forall h: nat :: h in fs <==> h + 1 in layers)
    && (forall h: nat :: h in fs ==>
          (logBlowup < h && h + 2 < |g.pts| && h + 1 in cs && |cs[h + 1]| == Pow2(h + 1 - logBlowup)
           && layers[h + 1] == CircleCodeword(g, h, h - logBlowup, cs[h + 1])
           && fs[h] == FoldCoeffs(cs[h + 1], beta)))
  }

  lemma FirstFoldsLowDegree(g: Tower, beta: Ef, layers: CircleLayers, ro: RoLayers, cs: map<nat, seq<Ef>>,
                            fs: map<nat, seq<Ef>>, logBlowup: nat)
    requires g.Valid() && AreFirstFolds(ro, g, beta, layers) && LowDegreeLayers(g, beta, layers, cs, fs, logBlowup)
    ensures LowDegree(g, ro, fs, logBlowup)
  {
    hide Tower.Valid, AreFirstFolds, LowDegreeLayers, Codeword, Pow2;
    forall h: nat
      ensures h in ro <==> h in fs
      ensures h in fs ==>
        logBlowup < h && h + 2 < |g.pts| && |fs[h]| == Pow2(h - logBlowup) && ro[h] == Codeword(g, h, h - logBlowup, fs[h])
    {
      FirstFoldLowDegree(g, beta, layers, ro, cs, fs, logBlowup, h);
    }
    assert ro.Keys == fs.Keys;
  }

  lemma FirstFoldLowDegree(g: Tower, beta: Ef, layers: CircleLayers, ro: RoLayers, cs: map<nat, seq<Ef>>,
                           fs: map<nat, seq<Ef>>, logBlowup: nat, h: nat)
    requires g.Valid() && AreFirstFolds(ro, g, beta, layers) && LowDegreeLayers(g, beta, layers, cs, fs, logBlowup)
    ensures h in ro <==> h in fs
    ensures h in fs ==>
      logBlowup < h && h + 2 < |g.pts| && |fs[h]| == Pow2(h - logBlowup) && ro[h] == Codeword(g, h, h - logBlowup, fs[h])
  {
    hide Tower.Valid, PAdd, OnCircle, FoldYLayer, CircleCodeword, Codeword, FoldCoeffs, Pow2;
    if h in fs {
      FoldYLayerOfCodeword(g, h, h - logBlowup, cs[h + 1], beta);
      FoldCoeffsLength(cs[h + 1], beta);
      HalfPower(h + 1 - logBlowup);
    }
  }

  /** Completeness of the query phase: whatever the query, the walk accepts an honest
      prover's openings, always with the same final value. */
  lemma HonestQueryAccepted(g: Tower, openings: seq<Opening>, betas: seq<Ef>, query: nat, extra: nat, i: nat,
                            logBlowup: nat, ro: RoLayers, fs: map<nat, seq<Ef>>, finalPoly: Ef, maxRounds: nat)
    requires g.Valid() && |betas| + logBlowup + 2 < |g.pts| && |betas| <= maxRounds
    requires WellSized(ro) && LowDegree(g, ro, fs, logBlowup)
    requires i == Shr(query, extra) < Pow2(|betas| + logBlowup)
    requires HonestQuery(openings, XFold(g), |betas| + logBlowup, betas, ro, i)
    requires finalPoly == InjectedValue(|betas| + logBlowup, betas, fs)
    ensures Extracted(XFold(g), openings, betas, query, extra, logBlowup, finalPoly,
                      Reading(ro, |betas| + logBlowup, i), maxRounds).Ok?
  {
    hide PAdd, OnCircle, Extracted, Reading, InjectedValue, Pow2, Shr, XFold, FinalLayer, HonestQuery, LowDegree;
    NoneBelowBlowup(g, ro, fs, logBlowup);
    LowDegreeReachesFinalPoly(g, betas, logBlowup, ro, fs);
    var j := Shr(query, extra + |betas|);
    HonestWalkAccepts(XFold(g), openings, betas, query, extra, i, j, logBlowup, finalPoly, ro, maxRounds);
    ConstantAt(FinalLayer(XFold(g), betas, logBlowup, ro), finalPoly, j);
  }

  /** The layers a prover folds once are as long as their domains. */
  lemma FirstFoldsSized(ro: RoLayers, g: Tower, beta: Ef, layers: CircleLayers)
    requires AreFirstFolds(ro, g, beta, layers)
    ensures WellSized(ro)
  {
    hide FoldYLayer, Pow2;
  }

  lemma HonestParts(g: Tower, inp: RoInput, ops: seq<DeepOpening>, ros: seq<Reduced>, ys: seq<FoldYWitness>,
                    layers: CircleLayers, ro: RoLayers)
    requires HonestReconstruction(g, inp, ops, ros, ys, layers, ro)
    ensures AreFirstFolds(ro, g, inp.bivariateBeta, layers)
    ensures inp.commitRounds + inp.logBlowup + 2 < |g.pts| && inp.queryIndex < Pow2(1 + (inp.commitRounds + inp.logBlowup))
  {
    hide Reconstructs, HonestAt, Visited, AreFirstFolds, HeightSet, Ascending, Pow2;
    assert 1 + (inp.commitRounds + inp.logBlowup) == inp.LogGlobalMax();
  }

  /** The commit-phase openings read their siblings from the folded layers, and the final
      polynomial is the folded value of the coefficients. */
  ghost predicate HonestOpenings(g: Tower, inp: RoInput, ro: RoLayers, fs: map<nat, seq<Ef>>, openings: seq<Opening>,
                                 betas: seq<Ef>, finalPoly: Ef)
  {
    hide HonestQuery, InjectedValue, Pow2, Shr, WellSized, XFold;
    var top, i := inp.commitRounds + inp.logBlowup, Shr(inp.queryIndex, 1);
    && |betas| == inp.commitRounds && finalPoly == InjectedValue(top, betas, fs)
    && (WellSized(ro) && i < Pow2(top) ==> HonestQuery(openings, XFold(g), top, betas, ro, i))
  }

  /** Both passes of a query together: on low-degree circle layers with honest siblings,
      the list the reconstruction returns makes the walk accept, at every query index and
      with one final value for all of them. */
  lemma HonestProofAccepted(g: Tower, inp: RoInput, ops: seq<DeepOpening>, ros: seq<Reduced>, ys: seq<FoldYWitness>,
                            layers: CircleLayers, ro: RoLayers, cs: map<nat, seq<Ef>>, fs: map<nat, seq<Ef>>,
                            openings: seq<Opening>, betas: seq<Ef>, finalPoly: Ef, maxRounds: nat)
    requires g.Valid() && HonestReconstruction(g, inp, ops, ros, ys, layers, ro)
    requires LowDegreeLayers(g, inp.bivariateBeta, layers, cs, fs, inp.logBlowup)
    requires HonestOpenings(g, inp, ro, fs, openings, betas, finalPoly) && inp.commitRounds <= maxRounds
    ensures Extracted(XFold(g), openings, betas, inp.queryIndex, 1, inp.logBlowup, finalPoly, ros, maxRounds).Ok?
  {
    hide PAdd, OnCircle, Extracted, Reading, InjectedValue, Pow2, Shr, XFold, HonestQuery, LowDegree, LowDegreeLayers, AreFirstFolds,
      HonestReconstruction, WellSized;
    HonestParts(g, inp, ops, ros, ys, layers, ro);
    var top, i := inp.commitRounds + inp.logBlowup, Shr(inp.queryIndex, 1);
    FirstFoldsSized(ro, g, inp.bivariateBeta, layers);
    FirstFoldsLowDegree(g, inp.bivariateBeta, layers, ro, cs, fs, inp.logBlowup);
    ShrBound(inp.queryIndex, 1, top);
    ReconstructionReads(g, inp, ops, ros, ys, layers, ro, i, top);
    HonestQueryAccepted(g, openings, betas, inp.queryIndex, 1, i, inp.logBlowup, ro, fs, finalPoly, maxRounds);
  }

  lemma NoneBelowBlowup(g: Tower, ro: RoLayers, cs: map<nat, seq<Ef>>, logBlowup: nat)
    requires LowDegree(g, ro, cs, logBlowup)
    ensures NoneAtOrBelow(ro, logBlowup)
  {
    hide Codeword;
    assert forall h :: h in ro ==> h in cs;
  }

  lemma ConstantAt(layer: seq<Ef>, v: Ef, j: nat)
    requires Constant(layer, v) && j < |layer|
    ensures layer[j] == v
  {
  }
}
