/** Which openings the reconstruction visits, and what they add up to at each height. */
module QueryOpenings {

  import opened Options
  import opened M31
  import opened Ef3
  import opened PowersOfTwo
  import opened Circle
  import opened FoldGeometry
  import opened DeepNative
  import opened ReducedOpenings

  /** The DEEP quotient of a row at the query's point of height h. */
  function QuotientAt(g: Tower, inp: RoInput, h: nat, zeta: Ef, row: seq<Fp>, ood: seq<Ef>): Option<Ef>
    requires inp.InRange(g) && 1 <= h <= inp.LogGlobalMax()
  {
    hide QueryPoint, DeepQuotient, Pow2;
    DeepQuotient(inp.alpha, QueryPoint(g, inp, h).x, QueryPoint(g, inp, h).y, zeta, row, ood)
  }

  // ---- Success ----

  /** The shapes of siblings, chunks and trace openings. */
  ghost predicate ShapesFit(inp: RoInput) {
    && inp.traceWidth > 0 && |inp.siblings| == |inp.lambdas|
    && (exists e: nat :: |inp.quotChunks| == Pow2(e)) && |inp.quotOpened| == |inp.quotChunks|
    && inp.zetaNext.Some? && |inp.traceOpened| > 0 && |inp.traceOpened[0]| == inp.traceWidth
    && inp.traceNext.Some? && |inp.traceLocal| == inp.traceWidth && |inp.traceNext.value| == inp.traceWidth
  }

  /** Chunk i has the width of its value at zeta, and their quotient exists. */
  ghost predicate ChunkOpens(g: Tower, inp: RoInput, i: nat)
    requires inp.InRange(g) && i < |inp.quotOpened| == |inp.quotChunks|
  {
    hide QuotientAt, Pow2;
    && |inp.quotOpened[i]| == |inp.quotChunks[i]|
    && QuotientAt(g, inp, inp.quotLogSizes[i] + inp.logBlowup, inp.zeta, inp.quotOpened[i], inp.quotChunks[i]).Some?
  }

  ghost predicate TraceOpens(g: Tower, inp: RoInput)
    requires inp.InRange(g) && ShapesFit(inp)
  {
    hide QuotientAt, Pow2;
    var h, row := inp.traceLogSize + inp.logBlowup, inp.traceOpened[0];
    QuotientAt(g, inp, h, inp.zeta, row, inp.traceLocal).Some? && QuotientAt(g, inp, h, inp.zetaNext.value, row, inp.traceNext.value).Some?
  }

  /** op is the opening of a row at height h. */
  ghost predicate IsOpening(g: Tower, inp: RoInput, op: DeepOpening, h: nat, zeta: Ef, row: seq<Fp>, ood: seq<Ef>)
    requires inp.InRange(g) && 1 <= h <= inp.LogGlobalMax()
  {
    hide QuotientAt, Pow2;
    op.logHeight == h && op.width == |row| && QuotientAt(g, inp, h, zeta, row, ood) == Some(op.deep)
  }

  /** The first n chunks opened in order, each against its own value at zeta. */
  ghost predicate ChunksOpened(g: Tower, inp: RoInput, ops: seq<DeepOpening>, n: nat)
    requires inp.InRange(g) && n <= |inp.quotOpened| == |inp.quotChunks|
  {
    hide IsOpening, Pow2;
    && |ops| == n
    && forall i :: 0 <= i < n ==>
         IsOpening(g, inp, ops[i], inp.quotLogSizes[i] + inp.logBlowup, inp.zeta, inp.quotOpened[i], inp.quotChunks[i])
  }

  /** The trace at zeta and at the next point, then every chunk. */
  ghost predicate AllOpened(g: Tower, inp: RoInput, ops: seq<DeepOpening>)
    requires inp.InRange(g) && ShapesFit(inp)
  {
    hide IsOpening, ChunksOpened, Pow2;
    var h, row := inp.traceLogSize + inp.logBlowup, inp.traceOpened[0];
    && |ops| == 2 + |inp.quotOpened|
    && IsOpening(g, inp, ops[0], h, inp.zeta, row, inp.traceLocal)
    && IsOpening(g, inp, ops[1], h, inp.zetaNext.value, row, inp.traceNext.value)
    && ChunksOpened(g, inp, ops[2..], |inp.quotOpened|)
  }

  lemma ReduceIs(g: Tower, inp: RoInput, h: nat, zeta: Ef, row: seq<Fp>, ood: seq<Ef>)
    requires inp.InRange(g) && 1 <= h <= inp.LogGlobalMax()
    ensures ReduceAt(g, inp, h, zeta, row, ood) == QuotientAt(g, inp, h, zeta, row, ood)
  {
    hide QueryPoint, DeepQuotient, Pow2;
  }

  /** Visiting n chunks succeeds exactly when each of them opens, in that order; otherwise
      the first that does not gives the error. */
  lemma {:induction false} ChunksVisited(g: Tower, inp: RoInput, n: nat)
    requires inp.InRange(g) && n <= |inp.quotOpened| == |inp.quotChunks|
    ensures QuotVisited(g, inp, n).RoOk? <==> forall i: nat :: i < n ==> ChunkOpens(g, inp, i)
    ensures QuotVisited(g, inp, n).RoOk? ==> ChunksOpened(g, inp, QuotVisited(g, inp, n).value, n)
    ensures forall i: nat :: i < n && FirstClosed(g, inp, i) ==>
      QuotVisited(g, inp, n) == RoErr(if |inp.quotOpened[i]| != |inp.quotChunks[i]| then ChunkWidthMismatch else DegenerateDeep)
  {
    hide ReduceAt, QuotientAt, Pow2, RoInput.InRange, QuotVisited, ChunkOpens, ChunksOpened;
    VisitStep(g, inp, n);
    if n > 0 {
      ChunksVisited(g, inp, n - 1);
      assert (forall i: nat :: i < n ==> ChunkOpens(g, inp, i))
             <==> ChunkOpens(g, inp, n - 1) && forall i: nat :: i < n - 1 ==> ChunkOpens(g, inp, i);
    }
  }

  /** The last of n chunks visited. */
  lemma VisitStep(g: Tower, inp: RoInput, n: nat)
    requires inp.InRange(g) && n <= |inp.quotOpened| == |inp.quotChunks|
    ensures n == 0 ==> QuotVisited(g, inp, n) == RoOk([]) && ChunksOpened(g, inp, [], 0)
    ensures n > 0 && QuotVisited(g, inp, n - 1).RoErr? ==> QuotVisited(g, inp, n) == QuotVisited(g, inp, n - 1)
    ensures n > 0 && QuotVisited(g, inp, n - 1).RoOk? ==>
      && (QuotVisited(g, inp, n).RoOk? <==> ChunkOpens(g, inp, n - 1))
      && (QuotVisited(g, inp, n).RoOk? && ChunksOpened(g, inp, QuotVisited(g, inp, n - 1).value, n - 1) ==>
            ChunksOpened(g, inp, QuotVisited(g, inp, n).value, n))
      && (QuotVisited(g, inp, n).RoErr? ==>
            QuotVisited(g, inp, n) == RoErr(if |inp.quotOpened[n - 1]| != |inp.quotChunks[n - 1]| then ChunkWidthMismatch else DegenerateDeep))
  {
    hide ReduceAt, QuotientAt, Pow2;
    if n > 0 {
      ReduceIs(g, inp, inp.quotLogSizes[n - 1] + inp.logBlowup, inp.zeta, inp.quotOpened[n - 1], inp.quotChunks[n - 1]);
    }
  }

  /** Chunk i is the first that does not open. */
  ghost predicate FirstClosed(g: Tower, inp: RoInput, i: nat)
    requires inp.InRange(g) && i < |inp.quotOpened| == |inp.quotChunks|
  {
    hide ChunkOpens, Pow2;
    !ChunkOpens(g, inp, i) && forall j: nat :: j < i ==> ChunkOpens(g, inp, j)
  }

  lemma PowerOfTwoIff(n: nat)
    ensures n > 0 && IsPowerOfTwo(n) <==> exists e: nat :: n == Pow2(e)
  {
    hide Log2, Pow2;
    if e: nat :| n == Pow2(e) {
      Log2OfPower(e);
      PowerPositive(e);
    }
  }

  lemma {:induction false} PowerPositive(e: nat)
    ensures Pow2(e) > 0
  {
    if e > 0 {
      PowerPositive(e - 1);
    }
  }

  /** The reconstruction visits the trace at zeta and at the next point and then every
      quotient chunk at zeta, each against its own out-of-domain values; it gets through
      exactly when the shapes fit and every quotient exists. */
  lemma OpeningsVisited(g: Tower, inp: RoInput)
    requires inp.InRange(g)
    ensures Visited(g, inp).RoOk? <==>
      && ShapesFit(inp) && TraceOpens(g, inp)
      && forall i: nat :: i < |inp.quotOpened| ==> ChunkOpens(g, inp, i)
    ensures Visited(g, inp).RoOk? ==> AllOpened(g, inp, Visited(g, inp).value)
  {
    hide ReduceAt, QuotVisited, QuotientAt, IsPowerOfTwo, ChunkOpens, ChunksOpened, Pow2, RoInput.InRange, ShapesFit, Visited, AllOpened;
    VisitedShapes(g, inp);
    if ShapesFit(inp) {
      assert |inp.quotOpened| == |inp.quotChunks| by { ShapeCounts(inp); }
      TraceReduces(g, inp);
      ChunksVisited(g, inp, |inp.quotOpened|);
      FitVisited(g, inp);
      if Visited(g, inp).RoOk? {
        var q := QuotVisited(g, inp, |inp.quotOpened|).value;
        assert Visited(g, inp).value[2..] == q;
        ChunkCount(g, inp, q, |inp.quotOpened|);
        InOrder(g, inp, Visited(g, inp).value);
      }
    }
  }

  lemma ChunkCount(g: Tower, inp: RoInput, ops: seq<DeepOpening>, n: nat)
    requires inp.InRange(g) && n <= |inp.quotOpened| == |inp.quotChunks| && ChunksOpened(g, inp, ops, n)
    ensures |ops| == n
  {
    hide IsOpening, Pow2;
  }

  lemma InOrder(g: Tower, inp: RoInput, ops: seq<DeepOpening>)
    requires inp.InRange(g) && ShapesFit(inp) && |ops| == 2 + |inp.quotOpened| && ChunksOpened(g, inp, ops[2..], |inp.quotOpened|)
    requires var h, row := inp.traceLogSize + inp.logBlowup, inp.traceOpened[0];
      && ops[0].logHeight == h == ops[1].logHeight && ops[0].width == |row| == ops[1].width
      && QuotientAt(g, inp, h, inp.zeta, row, inp.traceLocal) == Some(ops[0].deep)
      && QuotientAt(g, inp, h, inp.zetaNext.value, row, inp.traceNext.value) == Some(ops[1].deep)
    ensures AllOpened(g, inp, ops)
  {
    hide QuotientAt, ChunksOpened, Pow2;
  }

  lemma ShapeCounts(inp: RoInput)
    requires ShapesFit(inp)
    ensures |inp.quotOpened| == |inp.quotChunks|
  {
    hide Pow2;
  }

  lemma VisitedShapes(g: Tower, inp: RoInput)
    requires inp.InRange(g)
    ensures Visited(g, inp).RoOk? ==> ShapesFit(inp)
  {
    hide ReduceAt, QuotVisited, IsPowerOfTwo, Pow2, RoInput.InRange;
    PowerOfTwoIff(|inp.quotChunks|);
  }

  /** With fitting shapes only the quotients matter. */
  lemma FitVisited(g: Tower, inp: RoInput)
    requires inp.InRange(g) && ShapesFit(inp)
    ensures |inp.quotOpened| == |inp.quotChunks|
    ensures var h, row, q := inp.traceLogSize + inp.logBlowup, inp.traceOpened[0], QuotVisited(g, inp, |inp.quotOpened|);
      var local, next := ReduceAt(g, inp, h, inp.zeta, row, inp.traceLocal), ReduceAt(g, inp, h, inp.zetaNext.value, row, inp.traceNext.value);
      Visited(g, inp) == (if local.None? || next.None? then RoErr(DegenerateDeep)
                          else if q.RoErr? then q
                          else RoOk([DeepOpening(h, |row|, local.value), DeepOpening(h, |row|, next.value)] + q.value))
  {
    hide ReduceAt, QuotVisited, IsPowerOfTwo, Pow2;
    PowerOfTwoIff(|inp.quotChunks|);
    assert exists e: nat :: |inp.quotChunks| == Pow2(e);
  }

  lemma TraceReduces(g: Tower, inp: RoInput)
    requires inp.InRange(g) && ShapesFit(inp)
    ensures var h, row := inp.traceLogSize + inp.logBlowup, inp.traceOpened[0];
      && ReduceAt(g, inp, h, inp.zeta, row, inp.traceLocal) == QuotientAt(g, inp, h, inp.zeta, row, inp.traceLocal)
      && ReduceAt(g, inp, h, inp.zetaNext.value, row, inp.traceNext.value)
         == QuotientAt(g, inp, h, inp.zetaNext.value, row, inp.traceNext.value)
  {
    hide ReduceAt, QuotientAt, Pow2;
    ReduceIs(g, inp, inp.traceLogSize + inp.logBlowup, inp.zeta, inp.traceOpened[0], inp.traceLocal);
    ReduceIs(g, inp, inp.traceLogSize + inp.logBlowup, inp.zetaNext.value, inp.traceOpened[0], inp.traceNext.value);
  }

  // ---- Failure ----

  /** Which of the shape checks fails first. */
  lemma ShapeErrors(g: Tower, inp: RoInput)
    requires inp.InRange(g) && !ShapesFit(inp)
    ensures Visited(g, inp).RoErr?
    ensures var e := Visited(g, inp).error;
      && (e == ZeroTraceWidth <==> inp.traceWidth == 0)
      && (e == SiblingLambdaMismatch <==> inp.traceWidth > 0 && |inp.siblings| != |inp.lambdas|)
      && (e == BadChunkCount ==> !exists k: nat :: |inp.quotChunks| == Pow2(k))
      && (e == ChunkOpeningMismatch ==> |inp.quotOpened| != |inp.quotChunks|)
      && (e == NextPointUnavailable ==> inp.zetaNext.None?)
      && (e == EmptyTraceOpening ==> |inp.traceOpened| == 0)
      && (e == MissingTraceNext ==> inp.traceNext.None?)
      && (e == TraceWidthMismatch ==>
            (|inp.traceOpened| > 0
             && (|inp.traceOpened[0]| != inp.traceWidth || |inp.traceLocal| != inp.traceWidth
                 || (inp.traceNext.Some? && |inp.traceNext.value| != inp.traceWidth))))
      && e != DegenerateDeep && e != ChunkWidthMismatch && e != LambdaCount
  {
    hide ReduceAt, QuotVisited, IsPowerOfTwo, Pow2, RoInput.InRange;
    PowerOfTwoIff(|inp.quotChunks|);
  }

  /** With fitting shapes, a missing trace quotient is degenerate; otherwise the first
      chunk that does not open gives the error. */
  lemma QuotientErrors(g: Tower, inp: RoInput)
    requires inp.InRange(g) && ShapesFit(inp)
    ensures |inp.quotOpened| == |inp.quotChunks|
    ensures !TraceOpens(g, inp) ==> Visited(g, inp) == RoErr(DegenerateDeep)
    ensures TraceOpens(g, inp) ==> forall i: nat :: i < |inp.quotOpened| && !ChunkOpens(g, inp, i) ==>
      (forall j: nat :: j < i ==> ChunkOpens(g, inp, j)) ==>
      Visited(g, inp) == RoErr(if |inp.quotOpened[i]| != |inp.quotChunks[i]| then ChunkWidthMismatch else DegenerateDeep)
  {
    hide ReduceAt, QuotVisited, QuotientAt, ChunkOpens, Pow2, RoInput.InRange, Visited;
    ShapeCounts(inp);
    FitVisited(g, inp);
    TraceReduces(g, inp);
    ChunksVisited(g, inp, |inp.quotOpened|);
  }

  // ---- The sums ----

  /** Twice the width of the first n chunks at height h. */
  function ChunkPower(inp: RoInput, h: nat, n: nat): nat
    requires n <= |inp.quotOpened| && n <= |inp.quotLogSizes|
  {
    if n == 0 then 0
    else ChunkPower(inp, h, n - 1) + (if inp.quotLogSizes[n - 1] + inp.logBlowup == h then 2 * |inp.quotOpened[n - 1]| else 0)
  }

  /** The quotients of the first n chunks at height h, each times alpha to the power that
      stands before it. */
  function ChunkSum(g: Tower, inp: RoInput, h: nat, start: nat, n: nat): Ef
    requires inp.InRange(g) && n <= |inp.quotOpened| == |inp.quotChunks|
  {
    hide QuotientAt, EMul, EAdd, Pow2;
    if n == 0 then ZERO
    else
      var before, hc := ChunkSum(g, inp, h, start, n - 1), inp.quotLogSizes[n - 1] + inp.logBlowup;
      var q := QuotientAt(g, inp, hc, inp.zeta, inp.quotOpened[n - 1], inp.quotChunks[n - 1]);
      if hc == h && q.Some? then EAdd(before, EMul(EPow(inp.alpha, start + ChunkPower(inp, h, n - 1)), q.value)) else before
  }

  /** What the trace adds at its height: local + alpha^{2w} next. */
  function TracePart(g: Tower, inp: RoInput): Ef
    requires inp.InRange(g) && inp.zetaNext.Some? && inp.traceNext.Some? && |inp.traceOpened| > 0
  {
    hide QuotientAt, EMul, EAdd, Pow2;
    var h, row := inp.traceLogSize + inp.logBlowup, inp.traceOpened[0];
    match (QuotientAt(g, inp, h, inp.zeta, row, inp.traceLocal), QuotientAt(g, inp, h, inp.zetaNext.value, row, inp.traceNext.value))
    case (Some(local), Some(next)) => EAdd(local, EMul(EPow(inp.alpha, 2 * |row|), next))
    case _ => ZERO
  }

  /** The openings at height h so far: their powers and their sum. */
  ghost predicate SumsSoFar(g: Tower, inp: RoInput, ops: seq<DeepOpening>, h: nat, n: nat, start: nat, base: Ef)
    requires inp.InRange(g) && n <= |inp.quotOpened| == |inp.quotChunks|
  {
    hide ChunkSum, EAdd, Pow2, RoSum;
    && 2 * TotalWidth(AtHeight(ops, h)) == start + ChunkPower(inp, h, n)
    && RoSum(inp.alpha, AtHeight(ops, h)) == EAdd(base, ChunkSum(g, inp, h, start, n))
  }

  lemma {:induction false} ChunkSums(g: Tower, inp: RoInput, trace: seq<DeepOpening>, ops: seq<DeepOpening>, h: nat, n: nat, start: nat, base: Ef)
    requires inp.InRange(g) && n <= |inp.quotOpened| == |inp.quotChunks| && ChunksOpened(g, inp, ops, n)
    requires SumsSoFar(g, inp, trace, h, 0, start, base)
    ensures SumsSoFar(g, inp, trace + ops, h, n, start, base)
  {
    hide RoInput.InRange, AtHeight, RoSum, QuotientAt, EMul, EAdd, EPow, Pow2, SumsSoFar;
    if n == 0 {
      assert trace + ops == trace;
    } else {
      var rest, op := ops[..n - 1], ops[n - 1];
      FewerChunks(g, inp, ops, n);
      ChunkSums(g, inp, trace, rest, h, n - 1, start, base);
      assert trace + ops == trace + rest + [op];
      ChunkStep(g, inp, trace + rest, op, h, n, start, base);
    }
  }

  lemma FewerChunks(g: Tower, inp: RoInput, ops: seq<DeepOpening>, n: nat)
    requires inp.InRange(g) && 0 < n <= |inp.quotOpened| == |inp.quotChunks| && ChunksOpened(g, inp, ops, n)
    ensures |ops| == n && ChunksOpened(g, inp, ops[..n - 1], n - 1)
    ensures IsOpening(g, inp, ops[n - 1], inp.quotLogSizes[n - 1] + inp.logBlowup, inp.zeta, inp.quotOpened[n - 1], inp.quotChunks[n - 1])
  {
    hide IsOpening, Pow2;
  }

  lemma ChunkStep(g: Tower, inp: RoInput, before: seq<DeepOpening>, op: DeepOpening, h: nat, n: nat, start: nat, base: Ef)
    requires inp.InRange(g) && 0 < n <= |inp.quotOpened| == |inp.quotChunks|
    requires IsOpening(g, inp, op, inp.quotLogSizes[n - 1] + inp.logBlowup, inp.zeta, inp.quotOpened[n - 1], inp.quotChunks[n - 1])
    requires SumsSoFar(g, inp, before, h, n - 1, start, base)
    ensures SumsSoFar(g, inp, before + [op], h, n, start, base)
  {
    hide RoInput.InRange, AtHeight, RoSum, QuotientAt, EMul, EAdd, EPow, Pow2, TotalWidth, ESquare, AlphaOffset;
    AtHeightSnoc(before, op, h);
    SizesCount(g, inp);
    var here := AtHeight(before, h);
    if op.logHeight == h {
      OneMore(inp.alpha, here, op);
      WidthSnoc(here, op);
      AlphaOffsetIsPower(inp.alpha, here);
      EAddAssoc(base, ChunkSum(g, inp, h, start, n - 1), EMul(EPow(inp.alpha, start + ChunkPower(inp, h, n - 1)), op.deep));
    } else {
      assert here + [] == here;
    }
  }

  lemma SizesCount(g: Tower, inp: RoInput)
    requires inp.InRange(g)
    ensures |inp.quotLogSizes| == |inp.quotChunks|
  {
    hide Pow2;
  }

  lemma WidthSnoc(ops: seq<DeepOpening>, op: DeepOpening)
    ensures TotalWidth(ops + [op]) == TotalWidth(ops) + op.width
  {
    assert (ops + [op])[..|ops|] == ops;
  }

  /** The sum at every height: the trace's part, if it sits there, and the quotients of the
      chunks there, each times alpha to twice the width visited before it. */
  lemma HeightSum(g: Tower, inp: RoInput, ops: seq<DeepOpening>, h: nat)
    requires inp.InRange(g) && Visited(g, inp) == RoOk(ops)
    ensures ShapesFit(inp) && |inp.quotOpened| == |inp.quotChunks|
    ensures RoSum(inp.alpha, AtHeight(ops, h))
            == if h == inp.traceLogSize + inp.logBlowup
               then EAdd(TracePart(g, inp), ChunkSum(g, inp, h, 4 * inp.traceWidth, |inp.quotOpened|))
               else ChunkSum(g, inp, h, 0, |inp.quotOpened|)
  {
    hide RoInput.InRange, AtHeight, RoSum, QuotientAt, EMul, EAdd, EPow, Pow2, TotalWidth, AlphaOffset, Visited, ChunksOpened, ChunkSum, SumsSoFar;
    OpeningsVisited(g, inp);
    ShapeCounts(inp);
    var n, at := |inp.quotOpened|, inp.traceLogSize + inp.logBlowup;
    var trace := ops[..2];
    assert ops == trace + ops[2..];
    var start, base := if h == at then 4 * inp.traceWidth else 0, if h == at then TracePart(g, inp) else ZERO;
    TraceSums(g, inp, ops, h, start, base);
    ChunkSums(g, inp, trace, ops[2..], h, n, start, base);
    SumsGive(g, inp, ops, h, n, start, base);
    EAddZero(ChunkSum(g, inp, h, start, n));
  }

  lemma SumsGive(g: Tower, inp: RoInput, ops: seq<DeepOpening>, h: nat, n: nat, start: nat, base: Ef)
    requires inp.InRange(g) && n <= |inp.quotOpened| == |inp.quotChunks| && SumsSoFar(g, inp, ops, h, n, start, base)
    ensures RoSum(inp.alpha, AtHeight(ops, h)) == EAdd(base, ChunkSum(g, inp, h, start, n))
  {
    hide ChunkSum, EAdd, Pow2, RoSum, RoInput.InRange;
  }

  lemma TraceSums(g: Tower, inp: RoInput, ops: seq<DeepOpening>, h: nat, start: nat, base: Ef)
    requires inp.InRange(g) && ShapesFit(inp) && |inp.quotOpened| == |inp.quotChunks| && AllOpened(g, inp, ops)
    requires start == if h == inp.traceLogSize + inp.logBlowup then 4 * inp.traceWidth else 0
    requires base == if h == inp.traceLogSize + inp.logBlowup then TracePart(g, inp) else ZERO
    ensures SumsSoFar(g, inp, ops[..2], h, 0, start, base)
  {
    hide QuotientAt, EMul, EAdd, EPow, Pow2, ChunksOpened, RoInput.InRange, RoSum, AtHeight, ShapesFit;
    var a, b := ops[0], ops[1];
    assert ops[..2] == [a, b];
    assert |inp.traceOpened| > 0 && |inp.traceOpened[0]| == inp.traceWidth && inp.zetaNext.Some? && inp.traceNext.Some? by { TraceShapes(inp); }
    EAddZero(base);
    if h == inp.traceLogSize + inp.logBlowup {
      TwoOpenings(inp.alpha, a, b, h);
      SquareOfPower(inp.alpha, inp.traceWidth);
      assert [a, b][..1] == [a] && [a][..0] == [];
      assert TotalWidth([a]) == TotalWidth([]) + a.width;
      assert TotalWidth([a, b]) == TotalWidth([a]) + b.width;
    } else {
      NoneThere(inp.alpha, a, b, h);
    }
  }

  lemma TraceShapes(inp: RoInput)
    requires ShapesFit(inp)
    ensures |inp.traceOpened| > 0 && |inp.traceOpened[0]| == inp.traceWidth && inp.zetaNext.Some? && inp.traceNext.Some?
  {
    hide Pow2;
  }

  lemma SquareOfPower(alpha: Ef, w: nat)
    ensures ESquare(EPow(alpha, w)) == EPow(alpha, 2 * w)
  {
    hide EMul;
    EPowAdd(alpha, w, w);
  }

  lemma NoneThere(alpha: Ef, a: DeepOpening, b: DeepOpening, h: nat)
    requires a.logHeight != h && b.logHeight != h
    ensures AtHeight([a, b], h) == [] && RoSum(alpha, []) == ZERO && TotalWidth([]) == 0
  {
    assert [a, b][..1] == [a] && [a][..0] == [];
    assert AtHeight([a], h) == AtHeight([], h);
  }

  /** No other chunk has the size of chunk i, and the trace has not either. */
  predicate AloneAt(inp: RoInput, i: nat) {
    && i < |inp.quotLogSizes| && inp.quotLogSizes[i] != inp.traceLogSize
    && forall j :: 0 <= j < |inp.quotLogSizes| && j != i ==> inp.quotLogSizes[j] != inp.quotLogSizes[i]
  }

  /** q is the quotient of chunk i against its own value at zeta. */
  ghost predicate ChunkIs(g: Tower, inp: RoInput, i: nat, q: Ef) {
    hide QuotientAt, Pow2;
    && inp.InRange(g) && i < |inp.quotOpened| == |inp.quotChunks|
    && QuotientAt(g, inp, inp.quotLogSizes[i] + inp.logBlowup, inp.zeta, inp.quotOpened[i], inp.quotChunks[i]) == Some(q)
  }

  /** One chunk alone at a height: the sum there is its quotient. */
  lemma ChunkAloneIsQuotient(g: Tower, inp: RoInput, ops: seq<DeepOpening>, i: nat)
    requires inp.InRange(g) && Visited(g, inp) == RoOk(ops) && AloneAt(inp, i)
    ensures ChunkIs(g, inp, i, RoSum(inp.alpha, AtHeight(ops, inp.quotLogSizes[i] + inp.logBlowup)))
  {
    hide RoInput.InRange, AtHeight, RoSum, EMul, EAdd, EPow, Pow2, Visited, ChunkSum, ShapesFit, ChunkOpens, AllOpened, ChunkPower, QuotientAt;
    SizesCount(g, inp);
    var h := inp.quotLogSizes[i] + inp.logBlowup;
    HeightSum(g, inp, ops, h);
    OpeningsVisited(g, inp);
    assert ChunkOpens(g, inp, i);
    var q := ChunkQuotient(g, inp, i);
    OnlyChunk(g, inp, i, q, |inp.quotOpened|);
  }

  lemma {:induction false} OnlyChunk(g: Tower, inp: RoInput, i: nat, q: Ef, n: nat)
    requires ChunkIs(g, inp, i, q) && AloneAt(inp, i) && n <= |inp.quotOpened|
    ensures |inp.quotLogSizes| == |inp.quotChunks|
    ensures var h := inp.quotLogSizes[i] + inp.logBlowup;
      && ChunkSum(g, inp, h, 0, n) == (if i < n then q else ZERO)
      && ChunkPower(inp, h, n) == if i < n then 2 * |inp.quotOpened[i]| else 0
  {
    hide EMul, EAdd, Pow2, RoInput.InRange, ChunkSum, ChunkPower, QuotientAt;
    SizesCount(g, inp);
    SumUnfolds(g, inp, inp.quotLogSizes[i] + inp.logBlowup, n, i, q);
    if n > 0 {
      OnlyChunk(g, inp, i, q, n - 1);
      if i == n - 1 {
        EMulOne(q);
        EAddZero(q);
      }
    }
  }

  lemma ChunkQuotient(g: Tower, inp: RoInput, i: nat) returns (q: Ef)
    requires inp.InRange(g) && i < |inp.quotOpened| == |inp.quotChunks| && ChunkOpens(g, inp, i)
    ensures ChunkIs(g, inp, i, q)
  {
    hide QuotientAt, Pow2;
    q := QuotientAt(g, inp, inp.quotLogSizes[i] + inp.logBlowup, inp.zeta, inp.quotOpened[i], inp.quotChunks[i]).value;
  }

  lemma SumUnfolds(g: Tower, inp: RoInput, h: nat, n: nat, i: nat, q: Ef)
    requires ChunkIs(g, inp, i, q) && n <= |inp.quotOpened|
    ensures |inp.quotLogSizes| == |inp.quotChunks|
    ensures n == 0 ==> ChunkSum(g, inp, h, 0, n) == ZERO && ChunkPower(inp, h, n) == 0
    ensures n > 0 && inp.quotLogSizes[n - 1] + inp.logBlowup != h ==>
      ChunkSum(g, inp, h, 0, n) == ChunkSum(g, inp, h, 0, n - 1) && ChunkPower(inp, h, n) == ChunkPower(inp, h, n - 1)
    ensures n == i + 1 && inp.quotLogSizes[i] + inp.logBlowup == h && ChunkPower(inp, h, i) == 0 ==>
      && ChunkSum(g, inp, h, 0, n) == EAdd(ChunkSum(g, inp, h, 0, i), EMul(ONE, q))
      && ChunkPower(inp, h, n) == 2 * |inp.quotOpened[i]|
  {
    hide QuotientAt, EMul, EAdd, Pow2, RoInput.InRange;
    SizesCount(g, inp);
  }
}
