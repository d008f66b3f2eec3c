/** Reduced openings of one query: DEEP reductions accumulated by height with powers of
    alpha, the lambda correction, and the first-layer fold. */
module ReducedOpenings {

  import opened Options
  import opened M31
  import opened Ef3
  import opened PowersOfTwo
  import opened Circle
  import opened Ordering
  import opened FoldGeometry
  import opened FoldRows
  import opened FoldWalk
  import opened DeepNative

  /** One opened matrix: its height, width and DEEP reduction. */
  datatype DeepOpening = DeepOpening(logHeight: nat, width: nat, deep: Ef)

  // ---- What the accumulator holds at one height ----

  /** The product of alpha^{2 width} over the openings. */
  function AlphaOffset(alpha: Ef, ops: seq<DeepOpening>): Ef {
    if ops == [] then ONE
    else EMul(AlphaOffset(alpha, ops[..|ops| - 1]), ESquare(EPow(alpha, ops[|ops| - 1].width)))
  }

  /** The sum of the reductions, each times the alpha offset of those before it. */
  function RoSum(alpha: Ef, ops: seq<DeepOpening>): Ef {
    if ops == [] then ZERO
    else
      var n := |ops| - 1;
      EAdd(RoSum(alpha, ops[..n]), EMul(AlphaOffset(alpha, ops[..n]), ops[n].deep))
  }

  /** The openings at height h, in visiting order. */
  function AtHeight(ops: seq<DeepOpening>, h: nat): seq<DeepOpening> {
    if ops == [] then []
    else
      var n := |ops| - 1;
      AtHeight(ops[..n], h) + (if ops[n].logHeight == h then [ops[n]] else [])
  }

  function TotalWidth(ops: seq<DeepOpening>): nat {
    if ops == [] then 0 else TotalWidth(ops[..|ops| - 1]) + ops[|ops| - 1].width
  }

  /** The offset is alpha to twice the total width so far. */
  lemma {:induction false} AlphaOffsetIsPower(alpha: Ef, ops: seq<DeepOpening>)
    ensures AlphaOffset(alpha, ops) == EPow(alpha, 2 * TotalWidth(ops))
  {
    hide EMul;
    if ops != [] {
      var n := |ops| - 1;
      var w := ops[n].width;
      AlphaOffsetIsPower(alpha, ops[..n]);
      EPowAdd(alpha, w, w);
      EPowAdd(alpha, 2 * TotalWidth(ops[..n]), w + w);
    }
  }

  ghost predicate Accumulates(m: map<nat, (Ef, Ef)>, alpha: Ef, ops: seq<DeepOpening>) {
    && (forall h: nat :: h in m <==> AtHeight(ops, h) != [])
    && (forall h :: h in m ==> m[h] == (AlphaOffset(alpha, AtHeight(ops, h)), RoSum(alpha, AtHeight(ops, h))))
  }

  /** The closure that adds one opening to the map. */
  method Accumulate(m: map<nat, (Ef, Ef)>, alpha: Ef, op: DeepOpening, ghost ops: seq<DeepOpening>)
    returns (r: map<nat, (Ef, Ef)>)
    requires Accumulates(m, alpha, ops)
    ensures Accumulates(r, alpha, ops + [op])
  {
    hide EMul, EAdd, EPow, ESquare, AtHeight, AlphaOffset, RoSum;
    var e := if op.logHeight in m then m[op.logHeight] else (ONE, ZERO);
    r := m[op.logHeight := (EMul(e.0, ESquare(EPow(alpha, op.width))), EAdd(e.1, EMul(e.0, op.deep)))];
    NoneAccumulated(alpha);
    OneMore(alpha, AtHeight(ops, op.logHeight), op);
    forall h: nat
      ensures AtHeight(ops + [op], h) == if op.logHeight == h then AtHeight(ops, h) + [op] else AtHeight(ops, h)
    {
      AtHeightSnoc(ops, op, h);
    }
  }

  lemma NoneAccumulated(alpha: Ef)
    ensures AlphaOffset(alpha, []) == ONE && RoSum(alpha, []) == ZERO
  {
  }

  lemma OneMore(alpha: Ef, before: seq<DeepOpening>, op: DeepOpening)
    ensures AlphaOffset(alpha, before + [op]) == EMul(AlphaOffset(alpha, before), ESquare(EPow(alpha, op.width)))
    ensures RoSum(alpha, before + [op]) == EAdd(RoSum(alpha, before), EMul(AlphaOffset(alpha, before), op.deep))
  {
    hide EMul, EAdd, EPow, ESquare;
    assert (before + [op])[..|before|] == before;
  }

  lemma AtHeightSnoc(ops: seq<DeepOpening>, op: DeepOpening, h: nat)
    ensures AtHeight(ops + [op], h) == AtHeight(ops, h) + (if op.logHeight == h then [op] else [])
  {
    assert (ops + [op])[..|ops|] == ops;
  }

  /** The elements of keys below n, ascending: the iteration order of the ordered map. */
  function Ascending(keys: set<nat>, n: nat): (r: seq<nat>)
    ensures forall i :: 0 <= i < |r| ==> r[i] < n && r[i] in keys
    ensures forall i, j :: 0 <= i < j < |r| ==> r[i] < r[j]
  {
    if n == 0 then [] else Ascending(keys, n - 1) + (if n - 1 in keys then [n - 1] else [])
  }

  lemma {:induction false} AscendingComplete(keys: set<nat>, n: nat, h: nat)
    requires h < n && h in keys
    ensures h in Ascending(keys, n)
  {
    if h < n - 1 {
      AscendingComplete(keys, n - 1, h);
    }
  }

  lemma {:induction false} AscendingCount(keys: set<nat>, n: nat)
    requires forall h :: h in keys ==> h < n
    ensures |Ascending(keys, n)| == |keys|
    decreases n
  {
    if n == 0 {
      assert keys == {};
    } else if n - 1 in keys {
      AscendingCount(keys - {n - 1}, n - 1);
      AscendingAgree(keys, keys - {n - 1}, n - 1);
    } else {
      AscendingCount(keys, n - 1);
    }
  }

  lemma {:induction false} AscendingAgree(a: set<nat>, b: set<nat>, n: nat)
    requires forall h: nat :: h < n ==> (h in a <==> h in b)
    ensures Ascending(a, n) == Ascending(b, n)
  {
    if n > 0 {
      AscendingAgree(a, b, n - 1);
    }
  }

  // ---- The whole reconstruction ----

  /** Inputs of one query: the decoded openings and challenges. */
  datatype RoInput = RoInput(traceWidth: nat, queryIndex: nat, commitRounds: nat, logBlowup: nat,
                             traceLogSize: nat, quotLogSizes: seq<nat>,
                             traceOpened: seq<seq<Fp>>, quotOpened: seq<seq<Fp>>,
                             siblings: seq<Ef>, lambdas: seq<Ef>, alpha: Ef, bivariateBeta: Ef,
                             zeta: Ef, zetaNext: Option<Ef>,
                             traceLocal: seq<Ef>, traceNext: Option<seq<Ef>>, quotChunks: seq<seq<Ef>>)
  {
    function LogGlobalMax(): nat { commitRounds + logBlowup + 1 }

    /** The shapes the source computes with: heights that fit under the global one. */
    ghost predicate InRange(g: Tower) {
      && LogGlobalMax() + 1 < |g.pts|
      && queryIndex < Pow2(LogGlobalMax())
      && 1 <= traceLogSize + logBlowup <= LogGlobalMax()
      && |quotLogSizes| == |quotChunks|
      && (forall i :: 0 <= i < |quotLogSizes| ==> 1 <= quotLogSizes[i] + logBlowup <= LogGlobalMax())
    }
  }

  datatype RoError =
    | ZeroTraceWidth
    | SiblingLambdaMismatch
    | BadChunkCount
    | ChunkOpeningMismatch
    | NextPointUnavailable
    | EmptyTraceOpening
    | TraceWidthMismatch
    | MissingTraceNext
    | ChunkWidthMismatch
    | DegenerateDeep
    | LambdaCount

  datatype RoResult<+T> = RoOk(value: T) | RoErr(error: RoError)

  datatype FoldYWitness = FoldYWitness(index: nat, logFolded: nat, beta: Ef, v0: Ef, v1: Ef)

  /** The query's point in the domain of a height. */
  function QueryPoint(g: Tower, inp: RoInput, logHeight: nat): Point
    requires 1 <= logHeight <= inp.LogGlobalMax() && inp.LogGlobalMax() + 1 < |g.pts|
    requires inp.queryIndex < Pow2(inp.LogGlobalMax())
  {
    var bits := inp.LogGlobalMax() - logHeight;
    ShrBound(inp.queryIndex, bits, logHeight);
    StandardNthPoint(g, logHeight, CfftPermuteIndex(Shr(inp.queryIndex, bits), logHeight))
  }

  function ReduceAt(g: Tower, inp: RoInput, logHeight: nat, zeta: Ef, row: seq<Fp>, ood: seq<Ef>): Option<Ef>
    requires 1 <= logHeight <= inp.LogGlobalMax() && inp.LogGlobalMax() + 1 < |g.pts|
    requires inp.queryIndex < Pow2(inp.LogGlobalMax())
  {
    var p := QueryPoint(g, inp, logHeight);
    DeepQuotient(inp.alpha, p.x, p.y, zeta, row, ood)
  }

  /** The openings visited for the first n quotient chunks. */
  function QuotVisited(g: Tower, inp: RoInput, n: nat): RoResult<seq<DeepOpening>>
    requires inp.InRange(g) && n <= |inp.quotOpened| && n <= |inp.quotChunks|
  {
    hide ReduceAt;
    if n == 0 then RoOk([])
    else
      match QuotVisited(g, inp, n - 1)
      case RoErr(e) => RoErr(e)
      case RoOk(ops) =>
        var row, ood, h := inp.quotOpened[n - 1], inp.quotChunks[n - 1], inp.quotLogSizes[n - 1] + inp.logBlowup;
        if |row| != |ood| then RoErr(ChunkWidthMismatch)
        else
          match ReduceAt(g, inp, h, inp.zeta, row, ood)
          case None => RoErr(DegenerateDeep)
          case Some(deep) => RoOk(ops + [DeepOpening(h, |row|, deep)])
  }

  /** All openings visited, in order: the trace at zeta, the trace at the next point,
      then the quotient chunks at zeta. */
  function Visited(g: Tower, inp: RoInput): RoResult<seq<DeepOpening>>
    requires inp.InRange(g)
  {
    hide ReduceAt, QuotVisited, IsPowerOfTwo;
    if inp.traceWidth == 0 then RoErr(ZeroTraceWidth)
    else if |inp.siblings| != |inp.lambdas| then RoErr(SiblingLambdaMismatch)
    else if |inp.quotChunks| == 0 || !IsPowerOfTwo(|inp.quotChunks|) then RoErr(BadChunkCount)
    else if |inp.quotOpened| != |inp.quotChunks| then RoErr(ChunkOpeningMismatch)
    else if inp.zetaNext.None? then RoErr(NextPointUnavailable)
    else if |inp.traceOpened| == 0 then RoErr(EmptyTraceOpening)
    else if |inp.traceOpened[0]| != inp.traceWidth then RoErr(TraceWidthMismatch)
    else if inp.traceNext.None? then RoErr(MissingTraceNext)
    else if |inp.traceLocal| != inp.traceWidth || |inp.traceNext.value| != inp.traceWidth then RoErr(TraceWidthMismatch)
    else
      var h, row := inp.traceLogSize + inp.logBlowup, inp.traceOpened[0];
      match (ReduceAt(g, inp, h, inp.zeta, row, inp.traceLocal),
             ReduceAt(g, inp, h, inp.zetaNext.value, row, inp.traceNext.value))
      case (Some(local), Some(next)) =>
        (match QuotVisited(g, inp, |inp.quotOpened|)
         case RoErr(e) => RoErr(e)
         case RoOk(quots) => RoOk([DeepOpening(h, |row|, local), DeepOpening(h, |row|, next)] + quots))
      case _ => RoErr(DegenerateDeep)
  }

  /** The first-layer fold at one height: the corrected value in the query's slot, the
      sibling in the other. */
  function FirstLayer(g: Tower, inp: RoInput, h: nat, ro: Ef, sibling: Ef, lambda: Ef): FoldYWitness
    requires 1 <= h <= inp.LogGlobalMax() && inp.LogGlobalMax() + 1 < |g.pts| && inp.logBlowup <= h
    requires inp.queryIndex < Pow2(inp.LogGlobalMax())
  {
    var bits, origSize := inp.LogGlobalMax() - h, h - inp.logBlowup;
    var p := QueryPoint(g, inp, h);
    var vN := IterDoubleX(p.x, if origSize == 0 then 0 else origSize - 1);
    var corrected := ESub(ro, EMul(lambda, Embed(vN)));
    var foldIndex := Shr(inp.queryIndex, bits + 1);
    if Shr(inp.queryIndex, bits) % 2 == 0 then FoldYWitness(foldIndex, h - 1, inp.bivariateBeta, corrected, sibling)
    else FoldYWitness(foldIndex, h - 1, inp.bivariateBeta, sibling, corrected)
  }

  /** The heights that occur. */
  function HeightSet(ops: seq<DeepOpening>): set<nat> {
    set k | 0 <= k < |ops| :: ops[k].logHeight
  }

  lemma {:induction false} PresentAtHeight(ops: seq<DeepOpening>, h: nat)
    ensures AtHeight(ops, h) != [] <==> h in HeightSet(ops)
  {
    if ops != [] {
      var n := |ops| - 1;
      PresentAtHeight(ops[..n], h);
      assert HeightSet(ops) == HeightSet(ops[..n]) + {ops[n].logHeight} by {
        forall x | x in HeightSet(ops)
          ensures x in HeightSet(ops[..n]) + {ops[n].logHeight}
        {
          var k :| 0 <= k < |ops| && ops[k].logHeight == x;
          assert k < n ==> ops[..n][k].logHeight == x;
        }
        forall x | x in HeightSet(ops[..n])
          ensures x in HeightSet(ops)
        {
          var k :| 0 <= k < n && ops[..n][k].logHeight == x;
          assert ops[k].logHeight == x;
        }
      }
    }
  }

  lemma KeysAreHeights(m: map<nat, (Ef, Ef)>, alpha: Ef, ops: seq<DeepOpening>)
    requires Accumulates(m, alpha, ops)
    ensures m.Keys == HeightSet(ops)
  {
    hide AtHeight, HeightSet, RoSum, AlphaOffset;
    forall h: nat
      ensures h in m <==> h in HeightSet(ops)
    {
      PresentAtHeight(ops, h);
    }
  }

  /** Every opening visited lies between blowup and the global height. */
  lemma {:induction false} QuotHeights(g: Tower, inp: RoInput, n: nat)
    requires inp.InRange(g) && n <= |inp.quotOpened| == |inp.quotChunks|
    ensures QuotVisited(g, inp, n).RoOk? ==>
      forall op :: op in QuotVisited(g, inp, n).value ==> 1 <= op.logHeight <= inp.LogGlobalMax() && inp.logBlowup <= op.logHeight
  {
    hide ReduceAt;
    if n > 0 {
      QuotHeights(g, inp, n - 1);
    }
  }

  lemma VisitedHeightRange(g: Tower, inp: RoInput)
    requires inp.InRange(g)
    ensures Visited(g, inp).RoOk? ==>
      forall h :: h in HeightSet(Visited(g, inp).value) ==> 1 <= h <= inp.LogGlobalMax() && inp.logBlowup <= h
  {
    hide ReduceAt, QuotVisited, IsPowerOfTwo;
    if |inp.quotOpened| == |inp.quotChunks| {
      QuotHeights(g, inp, |inp.quotOpened|);
    }
  }

  lemma FirstLayerShape(g: Tower, inp: RoInput, h: nat, ro: Ef, sibling: Ef, lambda: Ef)
    requires 1 <= h <= inp.LogGlobalMax() && inp.LogGlobalMax() + 1 < |g.pts| && inp.logBlowup <= h
    requires inp.queryIndex < Pow2(inp.LogGlobalMax())
    ensures var w := FirstLayer(g, inp, h, ro, sibling, lambda);
      w.logFolded == h - 1 && w.index == Shr(inp.queryIndex, inp.LogGlobalMax() - h + 1) < Pow2(h - 1)
  {
    hide ESub, EMul, QueryPoint, IterDoubleX, Shr, Pow2;
    ShrBound(inp.queryIndex, inp.LogGlobalMax() - h + 1, h - 1);
  }

  /** The reduced opening a first-layer witness contributes to the commit phase. */
  function FirstLayerReduced(g: Tower, inp: RoInput, h: nat, ro: Ef, sibling: Ef, lambda: Ef): Reduced
    requires 1 <= h <= inp.LogGlobalMax() && inp.LogGlobalMax() + 1 < |g.pts| && inp.logBlowup <= h
    requires inp.queryIndex < Pow2(inp.LogGlobalMax())
  {
    hide FirstLayer, FoldYRow;
    FirstLayerShape(g, inp, h, ro, sibling, lambda);
    var w := FirstLayer(g, inp, h, ro, sibling, lambda);
    Reduced(w.logFolded, FoldYRow(g, w.index, w.logFolded, w.beta, w.v0, w.v1))
  }

  ghost predicate HeightsFit(inp: RoInput, hs: seq<nat>) {
    forall t :: 0 <= t < |hs| ==> 1 <= hs[t] <= inp.LogGlobalMax() && inp.logBlowup <= hs[t]
  }

  /** One entry per height: the first-layer witnesses ascending, the reduced openings
      descending, each built from the accumulated sum of its height. */
  ghost predicate Reconstructs(g: Tower, inp: RoInput, ops: seq<DeepOpening>, ros: seq<Reduced>, ys: seq<FoldYWitness>)
    requires inp.InRange(g)
  {
    var hs := Ascending(HeightSet(ops), inp.LogGlobalMax() + 1);
    && |ros| == |ys| == |hs| == |inp.siblings| == |inp.lambdas|
    && HeightsFit(inp, hs)
    && (forall t :: 0 <= t < |hs| ==>
          ys[t] == FirstLayer(g, inp, hs[t], RoSum(inp.alpha, AtHeight(ops, hs[t])), inp.siblings[t], inp.lambdas[t]))
    && (forall t :: 0 <= t < |hs| ==> var k := |hs| - 1 - t;
          ros[t] == FirstLayerReduced(g, inp, hs[k], RoSum(inp.alpha, AtHeight(ops, hs[k])), inp.siblings[k], inp.lambdas[k]))
  }

  /** The checks and the two batches of openings, accumulated into the map. */
  method AccumulateOpenings(g: Tower, inp: RoInput) returns (r: RoResult<map<nat, (Ef, Ef)>>)
    requires inp.InRange(g)
    ensures r.RoErr? <==> Visited(g, inp).RoErr?
    ensures r.RoErr? ==> r.error == Visited(g, inp).error
    ensures r.RoOk? ==> Accumulates(r.value, inp.alpha, Visited(g, inp).value)
  {
    hide ReduceAt, IsPowerOfTwo, Accumulates, Pow2;
    if inp.traceWidth == 0 {
      return RoErr(ZeroTraceWidth);
    }
    if |inp.siblings| != |inp.lambdas| {
      return RoErr(SiblingLambdaMismatch);
    }
    if |inp.quotChunks| == 0 || !IsPowerOfTwo(|inp.quotChunks|) {
      return RoErr(BadChunkCount);
    }
    if |inp.quotOpened| != |inp.quotChunks| {
      return RoErr(ChunkOpeningMismatch);
    }
    if inp.zetaNext.None? {
      return RoErr(NextPointUnavailable);
    }
    // Batch 0: the trace at zeta and at the next point.
    if |inp.traceOpened| == 0 {
      return RoErr(EmptyTraceOpening);
    }
    var row := inp.traceOpened[0];
    if |row| != inp.traceWidth {
      return RoErr(TraceWidthMismatch);
    }
    if inp.traceNext.None? {
      return RoErr(MissingTraceNext);
    }
    if |inp.traceLocal| != inp.traceWidth || |inp.traceNext.value| != inp.traceWidth {
      return RoErr(TraceWidthMismatch);
    }
    var traceHeight := inp.traceLogSize + inp.logBlowup;
    var local := ReduceAt(g, inp, traceHeight, inp.zeta, row, inp.traceLocal);
    if local.None? {
      return RoErr(DegenerateDeep);
    }
    NothingYet(inp.alpha);
    var opLocal := DeepOpening(traceHeight, |row|, local.value);
    var m := Accumulate(map[], inp.alpha, opLocal, []);
    var next := ReduceAt(g, inp, traceHeight, inp.zetaNext.value, row, inp.traceNext.value);
    if next.None? {
      return RoErr(DegenerateDeep);
    }
    var opNext := DeepOpening(traceHeight, |row|, next.value);
    m := Accumulate(m, inp.alpha, opNext, [] + [opLocal]);
    ghost var trace := [opLocal, opNext];
    assert [] + [opLocal] + [opNext] == trace + [];
    // Batch 1: the quotient chunks at zeta.
    for i := 0 to |inp.quotOpened|
      invariant QuotVisited(g, inp, i).RoOk?
      invariant Accumulates(m, inp.alpha, trace + QuotVisited(g, inp, i).value)
    {
      var chunk, ood := inp.quotOpened[i], inp.quotChunks[i];
      if |chunk| != |ood| {
        QuotErrorStays(g, inp, i + 1, |inp.quotOpened|);
        return RoErr(ChunkWidthMismatch);
      }
      var h := inp.quotLogSizes[i] + inp.logBlowup;
      var deep := ReduceAt(g, inp, h, inp.zeta, chunk, ood);
      if deep.None? {
        QuotErrorStays(g, inp, i + 1, |inp.quotOpened|);
        return RoErr(DegenerateDeep);
      }
      var op := DeepOpening(h, |chunk|, deep.value);
      m := Accumulate(m, inp.alpha, op, trace + QuotVisited(g, inp, i).value);
      assert trace + QuotVisited(g, inp, i).value + [op] == trace + (QuotVisited(g, inp, i).value + [op]);
    }
    return RoOk(m);
  }

  /** Reconstructs the reduced openings of one query, descending by height, and the
      first-layer fold witnesses, ascending. */
  method ReconstructQueryRo(g: Tower, inp: RoInput) returns (r: RoResult<(seq<Reduced>, seq<FoldYWitness>)>)
    requires inp.InRange(g)
    ensures Visited(g, inp).RoErr? ==> r == RoErr(Visited(g, inp).error)
    ensures Visited(g, inp).RoOk? ==> (r.RoOk? <==> |HeightSet(Visited(g, inp).value)| == |inp.lambdas|)
    ensures Visited(g, inp).RoOk? && r.RoErr? ==> r.error == LambdaCount
    ensures r.RoOk? ==> Reconstructs(g, inp, Visited(g, inp).value, r.value.0, r.value.1)
  {
    hide Visited, FirstLayer, FirstLayerReduced, RoSum, AlphaOffset, AtHeight, HeightSet, Pow2, FoldYRow, Ascending;
    var acc := AccumulateOpenings(g, inp);
    if acc.RoErr? {
      return RoErr(acc.error);
    }
    var m := acc.value;
    ghost var ops := Visited(g, inp).value;
    KeysAreHeights(m, inp.alpha, ops);
    assert |m| == |m.Keys|;
    if |m| != |inp.lambdas| {
      return RoErr(LambdaCount);
    }
    VisitedHeightRange(g, inp);
    VisitedLambdas(g, inp);
    var hs := Ascending(m.Keys, inp.LogGlobalMax() + 1);
    AscendingCount(m.Keys, inp.LogGlobalMax() + 1);
    var friInput, foldYs := [], [];
    for t := 0 to |hs|
      invariant |friInput| == |foldYs| == t
      invariant forall k :: 0 <= k < t ==>
        foldYs[k] == FirstLayer(g, inp, hs[k], RoSum(inp.alpha, AtHeight(ops, hs[k])), inp.siblings[k], inp.lambdas[k])
      invariant forall k :: 0 <= k < t ==>
        friInput[k] == FirstLayerReduced(g, inp, hs[k], RoSum(inp.alpha, AtHeight(ops, hs[k])), inp.siblings[k], inp.lambdas[k])
    {
      assert hs[t] in m.Keys;
      var w := FirstLayer(g, inp, hs[t], m[hs[t]].1, inp.siblings[t], inp.lambdas[t]);
      FirstLayerShape(g, inp, hs[t], m[hs[t]].1, inp.siblings[t], inp.lambdas[t]);
      var entry := Reduced(w.logFolded, FoldYRow(g, w.index, w.logFolded, w.beta, w.v0, w.v1));
      ReducedOfFirstLayer(g, inp, hs[t], m[hs[t]].1, inp.siblings[t], inp.lambdas[t], w, entry);
      foldYs := foldYs + [w];
      friInput := friInput + [entry];
    }
    var reversed := seq(|friInput|, k requires 0 <= k < |friInput| => friInput[|friInput| - 1 - k]);
    return RoOk((reversed, foldYs));
  }

  lemma ReducedOfFirstLayer(g: Tower, inp: RoInput, h: nat, ro: Ef, sibling: Ef, lambda: Ef, w: FoldYWitness, e: Reduced)
    requires 1 <= h <= inp.LogGlobalMax() && inp.LogGlobalMax() + 1 < |g.pts| && inp.logBlowup <= h
    requires inp.queryIndex < Pow2(inp.LogGlobalMax())
    requires w == FirstLayer(g, inp, h, ro, sibling, lambda)
    requires w.logFolded + 2 < |g.pts| && w.index < Pow2(w.logFolded)
    requires e == Reduced(w.logFolded, FoldYRow(g, w.index, w.logFolded, w.beta, w.v0, w.v1))
    ensures e == FirstLayerReduced(g, inp, h, ro, sibling, lambda)
  {
    hide FirstLayer, FoldYRow, Pow2;
  }

  lemma VisitedLambdas(g: Tower, inp: RoInput)
    requires inp.InRange(g) && Visited(g, inp).RoOk?
    ensures |inp.siblings| == |inp.lambdas|
  {
    hide ReduceAt, QuotVisited, IsPowerOfTwo;
  }

  lemma NothingYet(alpha: Ef)
    ensures Accumulates(map[], alpha, [])
  {
  }

  lemma {:induction false} QuotErrorStays(g: Tower, inp: RoInput, i: nat, n: nat)
    requires inp.InRange(g) && i <= n <= |inp.quotOpened| == |inp.quotChunks|
    requires QuotVisited(g, inp, i).RoErr?
    ensures QuotVisited(g, inp, n) == QuotVisited(g, inp, i)
    decreases n
  {
    hide ReduceAt;
    if i < n {
      QuotErrorStays(g, inp, i, n - 1);
    }
  }

  // ---- What the reconstruction gives ----

  /** The reduced openings are strictly descending, one for each height that occurs. */
  lemma ReducedDescending(g: Tower, inp: RoInput, ops: seq<DeepOpening>, ros: seq<Reduced>, ys: seq<FoldYWitness>)
    requires inp.InRange(g) && Reconstructs(g, inp, ops, ros, ys)
    requires forall h :: h in HeightSet(ops) ==> h <= inp.LogGlobalMax()
    ensures |ros| == |HeightSet(ops)|
    ensures forall t :: 0 <= t < |ros| ==> ros[t].logHeight + 1 in HeightSet(ops)
    ensures forall i, j :: 0 <= i < j < |ros| ==> ros[i].logHeight > ros[j].logHeight
  {
    hide FirstLayer, FirstLayerReduced, RoSum, AtHeight, HeightSet, Pow2, IterDoubleX, Ascending;
    var hs := Ascending(HeightSet(ops), inp.LogGlobalMax() + 1);
    AscendingCount(HeightSet(ops), inp.LogGlobalMax() + 1);
    forall t | 0 <= t < |hs|
      ensures ros[t].logHeight + 1 == hs[|hs| - 1 - t]
    {
      var k := |hs| - 1 - t;
      ReducedHeight(g, inp, hs[k], RoSum(inp.alpha, AtHeight(ops, hs[k])), inp.siblings[k], inp.lambdas[k]);
    }
  }

  lemma ReducedHeight(g: Tower, inp: RoInput, h: nat, ro: Ef, sibling: Ef, lambda: Ef)
    requires 1 <= h <= inp.LogGlobalMax() && inp.LogGlobalMax() + 1 < |g.pts| && inp.logBlowup <= h
    requires inp.queryIndex < Pow2(inp.LogGlobalMax())
    ensures FirstLayerReduced(g, inp, h, ro, sibling, lambda).logHeight == h - 1
  {
    hide FirstLayer, FoldYRow, Pow2;
    FirstLayerShape(g, inp, h, ro, sibling, lambda);
  }

  /** The value in the query's own slot of the first layer. */
  function Corrected(g: Tower, inp: RoInput, h: nat, ro: Ef, lambda: Ef): Ef
    requires 1 <= h <= inp.LogGlobalMax() && inp.LogGlobalMax() + 1 < |g.pts| && inp.logBlowup <= h
    requires inp.queryIndex < Pow2(inp.LogGlobalMax())
  {
    var origSize := h - inp.logBlowup;
    ESub(ro, EMul(lambda, Embed(IterDoubleX(QueryPoint(g, inp, h).x, if origSize == 0 then 0 else origSize - 1))))
  }

  /** At the trace height the accumulated sum is the DEEP witness's combined value, and
      the corrected value its output. */
  ghost predicate SumIsWitness(g: Tower, inp: RoInput, ops: seq<DeepOpening>, lambda: Ef)
    requires inp.InRange(g)
  {
    hide EMul, EAdd, ESub, DeepRoLeafWitness, RoSum, QueryPoint, Corrected, AtHeight, Pow2;
    && |inp.traceOpened| > 0 && inp.zetaNext.Some? && inp.traceNext.Some?
    && var h := inp.traceLogSize + inp.logBlowup;
       var p := QueryPoint(g, inp, h);
       var ro := RoSum(inp.alpha, AtHeight(ops, h));
       var w := DeepRoLeafWitness(inp.alpha, p.x, p.y, inp.zeta, inp.zetaNext.value, inp.traceOpened[0],
                                  inp.traceLocal, inp.traceNext.value, lambda, inp.traceLogSize);
       w.Some? && ro == w.value.combined && Corrected(g, inp, h, ro, lambda) == w.value.out
  }

  /** So it is when no quotient chunk shares the trace height. */
  lemma TraceAloneIsWitness(g: Tower, inp: RoInput, ops: seq<DeepOpening>, lambda: Ef)
    requires inp.InRange(g) && Visited(g, inp) == RoOk(ops) && inp.traceWidth <= LEAF_DEEP_RO_MAX_WIDTH
    requires forall i :: 0 <= i < |inp.quotLogSizes| ==> inp.quotLogSizes[i] != inp.traceLogSize
    ensures SumIsWitness(g, inp, ops, lambda)
  {
    hide EMul, EAdd, ESub, DeepQuotient, QueryPoint, IsPowerOfTwo, EPow, QuotVisited, TryFromProjectiveLine, DeepPartial, Pow2, RoSum, AtHeight;
    var h := inp.traceLogSize + inp.logBlowup;
    var p := QueryPoint(g, inp, h);
    var row := inp.traceOpened[0];
    var quots := QuotVisited(g, inp, |inp.quotOpened|).value;
    WitnessMatchesReduction(inp.alpha, p.x, p.y, inp.zeta, inp.zetaNext.value, row, inp.traceLocal,
                            inp.traceNext.value, lambda, inp.traceLogSize);
    QuotsElsewhere(g, inp, |inp.quotOpened|);
    AtHeightConcat(ops[..2], quots, h);
    assert ops == ops[..2] + quots && ops[..2] == [ops[0], ops[1]];
    TwoOpenings(inp.alpha, ops[0], ops[1], h);
    var ro := RoSum(inp.alpha, AtHeight(ops, h));
    assert AtHeight(ops, h) == [ops[0], ops[1]];
    var w := DeepRoLeafWitness(inp.alpha, p.x, p.y, inp.zeta, inp.zetaNext.value, row, inp.traceLocal,
                               inp.traceNext.value, lambda, inp.traceLogSize);
    assert w.Some?;
    assert ro == EAdd(ops[0].deep, EMul(ESquare(EPow(inp.alpha, |row|)), ops[1].deep));
    assert ops[0].deep == w.value.deep0.outPre;
    assert w.value.combined == EAdd(ops[0].deep, EMul(ESquare(EPow(inp.alpha, |row|)), ops[1].deep));
  }

  lemma {:induction false} QuotsElsewhere(g: Tower, inp: RoInput, n: nat)
    requires inp.InRange(g) && n <= |inp.quotOpened| && n <= |inp.quotChunks|
    requires forall i :: 0 <= i < |inp.quotLogSizes| ==> inp.quotLogSizes[i] != inp.traceLogSize
    ensures QuotVisited(g, inp, n).RoOk? ==> AtHeight(QuotVisited(g, inp, n).value, inp.traceLogSize + inp.logBlowup) == []
  {
    hide ReduceAt;
    if n > 0 {
      QuotsElsewhere(g, inp, n - 1);
    }
  }

  lemma {:induction false} AtHeightConcat(a: seq<DeepOpening>, b: seq<DeepOpening>, h: nat)
    ensures AtHeight(a + b, h) == AtHeight(a, h) + AtHeight(b, h)
  {
    if b == [] {
      assert a + b == a;
    } else {
      var n := |b| - 1;
      AtHeightConcat(a, b[..n], h);
      assert (a + b)[..|a + b| - 1] == a + b[..n];
    }
  }

  lemma TwoOpenings(alpha: Ef, a: DeepOpening, b: DeepOpening, h: nat)
    requires a.logHeight == h && b.logHeight == h
    ensures AtHeight([a, b], h) == [a, b]
    ensures RoSum(alpha, [a, b]) == EAdd(a.deep, EMul(ESquare(EPow(alpha, a.width)), b.deep))
  {
    hide EMul, EAdd, EPow;
    assert [a, b][..1] == [a] && [a][..0] == [];
    assert [a, b] == [a] + [b] && [a] == [] + [a];
    AtHeightSnoc([a], b, h);
    AtHeightSnoc([], a, h);
    EMulOne(ESquare(EPow(alpha, a.width)));
    EMulOne(a.deep);
    EAddZero(a.deep);
    assert AlphaOffset(alpha, [a]) == EMul(AlphaOffset(alpha, []), ESquare(EPow(alpha, a.width)));
    assert RoSum(alpha, [a]) == EAdd(RoSum(alpha, []), EMul(AlphaOffset(alpha, []), a.deep));
  }
}
