/** The fold steps of all queries: building the bundle and binding it to a proof. */
module FriFoldBind {

  import opened Options
  import opened M31
  import opened Ef3
  import opened Ef3Field
  import opened Primality
  import opened Fermat
  import opened PowersOfTwo
  import opened Circle
  import opened FoldGeometry
  import opened FoldRows
  import opened FoldWalk
  import opened DeepNative
  import opened ReducedOpenings
  import opened FriFoldGroup

  const LEAF_FRI_PROVEN_QUERIES: nat := 40
  const AGG_FRI_MAX_FOLD_YS_PER_QUERY: nat := 4

  /** What one query gives: its first-layer and its commit-phase witnesses; None where the
      reconstruction or the walk fails. */
  datatype QueryFolds = QueryFolds(ys: seq<FoldWitness>, xs: seq<FoldWitness>)

  type Queries = seq<Option<QueryFolds>>

  /** The heights and indices the walk produces. */
  ghost predicate InDomainWitness(g: Tower, w: FoldWitness) {
    w.logFolded + 3 < |g.pts| && w.index < Pow2(w.logFolded)
  }

  ghost predicate QueriesInDomain(g: Tower, qs: Queries) {
    && MAX_LOG_FOLDED + 3 < |g.pts|
    && (forall q, i :: 0 <= q < |qs| && qs[q].Some? && 0 <= i < |qs[q].value.ys| ==> InDomainWitness(g, qs[q].value.ys[i]))
    && (forall q, i :: 0 <= q < |qs| && qs[q].Some? && 0 <= i < |qs[q].value.xs| ==> InDomainWitness(g, qs[q].value.xs[i]))
  }

  /** The y (or x) witnesses of the first n queries, in order. */
  function Gathered(qs: Queries, onX: bool, n: nat): seq<FoldWitness>
    requires n <= |qs|
  {
    if n == 0 then []
    else Gathered(qs, onX, n - 1)
         + (match qs[n - 1] case None => [] case Some(f) => if onX then f.xs else f.ys)
  }

  /** The step publishes the witness and its fold; the twiddle is not compared. */
  predicate Matches(g: Tower, s: FriFoldStep, w: FoldWitness, onX: bool)
    requires w.logFolded + 3 < |g.pts| && w.index < Pow2(w.logFolded)
  {
    hide FoldXRow, FoldYRow;
    && s.index == w.index && s.logFolded == w.logFolded && s.beta == w.beta && s.v0 == w.v0 && s.v1 == w.v1
    && s.out == (if onX then FoldXRow(g, w.index, w.logFolded, w.beta, w.v0, w.v1)
                 else FoldYRow(g, w.index, w.logFolded, w.beta, w.v0, w.v1))
  }

  ghost predicate MatchesAt(g: Tower, s: FriFoldStep, w: FoldWitness, onX: bool) {
    w.logFolded + 3 < |g.pts| && w.index < Pow2(w.logFolded) && Matches(g, s, w, onX)
  }

  /** The first n steps publish the first n witnesses. */
  ghost predicate AllMatch(g: Tower, steps: seq<FriFoldStep>, ws: seq<FoldWitness>, onX: bool) {
    |ws| <= |steps| && forall i :: 0 <= i < |ws| ==> MatchesAt(g, steps[i], ws[i], onX)
  }

  ghost predicate QueriesOk(qs: Queries) {
    0 < |qs| <= LEAF_FRI_PROVEN_QUERIES && forall q :: 0 <= q < |qs| ==> qs[q].Some?
  }

  /** Exactly what binding accepts. */
  ghost predicate Bound(g: Tower, qs: Queries, ys: seq<FriFoldStep>, xs: seq<FriFoldStep>) {
    && QueriesOk(qs)
    && |ys| == |Gathered(qs, false, |qs|)| && AllMatch(g, ys, Gathered(qs, false, |qs|), false)
    && |xs| == |Gathered(qs, true, |qs|)| && AllMatch(g, xs, Gathered(qs, true, |qs|), true)
  }

  lemma {:induction false} GatheredPrefix(qs: Queries, onX: bool, k: nat, n: nat)
    requires k <= n <= |qs|
    ensures Gathered(qs, onX, k) <= Gathered(qs, onX, n)
    decreases n
  {
    if k < n {
      GatheredPrefix(qs, onX, k, n - 1);
    }
  }

  // ---- Binding ----

  /** Compares the witnesses of one query with the steps from off on. */
  method MatchRun(g: Tower, steps: seq<FriFoldStep>, ws: seq<FoldWitness>, off: nat, onX: bool, ghost before: seq<FoldWitness>)
    returns (ok: bool)
    requires off == |before| && AllMatch(g, steps, before, onX)
    requires forall i :: 0 <= i < |ws| ==> InDomainWitness(g, ws[i])
    ensures ok <==> AllMatch(g, steps, before + ws, onX)
  {
    hide Matches;
    for i := 0 to |ws|
      invariant AllMatch(g, steps, before + ws[..i], onX)
    {
      assert ws[..i + 1] == ws[..i] + [ws[i]];
      assert (before + ws)[off + i] == ws[i];
      if off + i >= |steps| {
        return false;
      }
      if !Matches(g, steps[off + i], ws[i], onX) {
        return false;
      }
      assert before + ws[..i + 1] == before + ws[..i] + [ws[i]];
    }
    assert ws[..|ws|] == ws;
    return true;
  }

  method BindFriFoldBundle(g: Tower, qs: Queries, ys: seq<FriFoldStep>, xs: seq<FriFoldStep>) returns (ok: bool)
    requires QueriesInDomain(g, qs)
    ensures ok <==> Bound(g, qs, ys, xs)
  {
    hide MatchesAt;
    if |qs| == 0 || |qs| > LEAF_FRI_PROVEN_QUERIES {
      return false;
    }
    var yOff, xOff := 0, 0;
    for q := 0 to |qs|
      invariant forall p :: 0 <= p < q ==> qs[p].Some?
      invariant yOff == |Gathered(qs, false, q)| && AllMatch(g, ys, Gathered(qs, false, q), false)
      invariant xOff == |Gathered(qs, true, q)| && AllMatch(g, xs, Gathered(qs, true, q), true)
    {
      GatheredPrefix(qs, false, q + 1, |qs|);
      GatheredPrefix(qs, true, q + 1, |qs|);
      if qs[q].None? {
        return false;
      }
      var f := qs[q].value;
      var yOk := MatchRun(g, ys, f.ys, yOff, false, Gathered(qs, false, q));
      if !yOk {
        NotBound(g, qs, ys, xs, q + 1);
        return false;
      }
      yOff := yOff + |f.ys|;
      var xOk := MatchRun(g, xs, f.xs, xOff, true, Gathered(qs, true, q));
      if !xOk {
        NotBound(g, qs, ys, xs, q + 1);
        return false;
      }
      xOff := xOff + |f.xs|;
    }
    return yOff == |ys| && xOff == |xs|;
  }

  lemma NotBound(g: Tower, qs: Queries, ys: seq<FriFoldStep>, xs: seq<FriFoldStep>, n: nat)
    requires n <= |qs|
    requires !AllMatch(g, ys, Gathered(qs, false, n), false) || !AllMatch(g, xs, Gathered(qs, true, n), true)
    ensures !Bound(g, qs, ys, xs)
  {
    hide MatchesAt, Gathered;
    GatheredPrefix(qs, false, n, |qs|);
    GatheredPrefix(qs, true, n, |qs|);
  }

  // ---- Building ----

  /** Each step is the one built for its witness. */
  ghost predicate BuiltFrom(g: Tower, steps: seq<FriFoldStep>, ws: seq<FoldWitness>, onX: bool)
    requires MAX_LOG_FOLDED + 3 < |g.pts|
  {
    hide StepLimbs;
    && |steps| == |ws|
    && forall i :: 0 <= i < |ws| ==>
         StepLimbs(g, ws[i].index, ws[i].logFolded, ws[i].beta, ws[i].v0, ws[i].v1, onX) == Some(steps[i])
  }

  /** Heights a step can be built for. */
  ghost predicate HeightsSupported(ws: seq<FoldWitness>) {
    forall i :: 0 <= i < |ws| ==> 1 <= ws[i].logFolded <= MAX_LOG_FOLDED
  }

  ghost predicate QueryBuildable(q: Option<QueryFolds>) {
    && q.Some? && |q.value.ys| <= AGG_FRI_MAX_FOLD_YS_PER_QUERY
    && HeightsSupported(q.value.ys) && HeightsSupported(q.value.xs)
  }

  /** When the builder succeeds: the query count is in range, no query failed, none has
      too many y steps, and every height is between 1 and 16. */
  ghost predicate Buildable(qs: Queries) {
    0 < |qs| <= LEAF_FRI_PROVEN_QUERIES && forall q :: 0 <= q < |qs| ==> QueryBuildable(qs[q])
  }

  lemma GatheredStep(qs: Queries, onX: bool, n: nat)
    requires n <= |qs|
    ensures n == 0 ==> Gathered(qs, onX, n) == []
    ensures n > 0 && qs[n - 1].Some? ==>
      Gathered(qs, onX, n) == Gathered(qs, onX, n - 1) + (if onX then qs[n - 1].value.xs else qs[n - 1].value.ys)
  {
  }

  method BuildRun(g: Tower, steps0: seq<FriFoldStep>, ws: seq<FoldWitness>, onX: bool, ghost before: seq<FoldWitness>)
    returns (r: Option<seq<FriFoldStep>>)
    requires MAX_LOG_FOLDED + 3 < |g.pts| && BuiltFrom(g, steps0, before, onX)
    requires forall i :: 0 <= i < |ws| ==> InDomainWitness(g, ws[i])
    ensures r.Some? <==> HeightsSupported(ws)
    ensures r.Some? ==> BuiltFrom(g, r.value, before + ws, onX)
  {
    hide StepLimbs, FoldHolds, FoldXNativeOk, FoldYNativeOk, InDomain, Pow2;
    var steps := steps0;
    for i := 0 to |ws|
      invariant BuiltFrom(g, steps, before + ws[..i], onX)
      invariant forall j :: 0 <= j < i ==> 1 <= ws[j].logFolded <= MAX_LOG_FOLDED
    {
      BuiltStepPasses(g, ws[i].index, ws[i].logFolded, ws[i].beta, ws[i].v0, ws[i].v1, onX);
      var step := StepLimbs(g, ws[i].index, ws[i].logFolded, ws[i].beta, ws[i].v0, ws[i].v1, onX);
      if step.None? {
        return None;
      }
      assert before + ws[..i + 1] == before + ws[..i] + [ws[i]];
      steps := steps + [step.value];
    }
    assert ws[..|ws|] == ws;
    return Some(steps);
  }

  /** Builds the fold steps of every query. */
  method FriFoldBundleFromProof(g: Tower, qs: Queries) returns (r: Option<(seq<FriFoldStep>, seq<FriFoldStep>)>)
    requires QueriesInDomain(g, qs)
    ensures r.Some? <==> Buildable(qs)
    ensures r.Some? ==> BuiltFrom(g, r.value.0, Gathered(qs, false, |qs|), false)
    ensures r.Some? ==> BuiltFrom(g, r.value.1, Gathered(qs, true, |qs|), true)
  {
    hide BuiltFrom, Gathered, HeightsSupported;
    if |qs| == 0 || |qs| > LEAF_FRI_PROVEN_QUERIES {
      return None;
    }
    var ys, xs := [], [];
    NothingBuilt(g);
    GatheredStep(qs, false, 0);
    GatheredStep(qs, true, 0);
    for q := 0 to |qs|
      invariant forall p :: 0 <= p < q ==> QueryBuildable(qs[p])
      invariant BuiltFrom(g, ys, Gathered(qs, false, q), false) && BuiltFrom(g, xs, Gathered(qs, true, q), true)
    {
      if qs[q].None? {
        return None;
      }
      GatheredStep(qs, false, q + 1);
      GatheredStep(qs, true, q + 1);
      var f := qs[q].value;
      if |f.ys| > AGG_FRI_MAX_FOLD_YS_PER_QUERY {
        return None;
      }
      var newYs := BuildRun(g, ys, f.ys, false, Gathered(qs, false, q));
      if newYs.None? {
        return None;
      }
      var newXs := BuildRun(g, xs, f.xs, true, Gathered(qs, true, q));
      if newXs.None? {
        return None;
      }
      ys, xs := newYs.value, newXs.value;
    }
    return Some((ys, xs));
  }

  lemma NothingBuilt(g: Tower)
    requires MAX_LOG_FOLDED + 3 < |g.pts|
    ensures BuiltFrom(g, [], [], false) && BuiltFrom(g, [], [], true)
  {
  }

  /** What the builder produces binds to the same proof, and every step of it satisfies
      the group circuit's fold equation. */
  lemma BuiltBundleBinds(g: Tower, qs: Queries, ys: seq<FriFoldStep>, xs: seq<FriFoldStep>)
    requires MAX_LOG_FOLDED + 3 < |g.pts| && Buildable(qs)
    requires BuiltFrom(g, ys, Gathered(qs, false, |qs|), false) && BuiltFrom(g, xs, Gathered(qs, true, |qs|), true)
    ensures Bound(g, qs, ys, xs)
    ensures forall i :: 0 <= i < |ys| ==> FoldHolds(ys[i])
    ensures forall i :: 0 <= i < |xs| ==> FoldHolds(xs[i])
  {
    hide Gathered, FoldHolds;
    BuiltMatches(g, ys, Gathered(qs, false, |qs|), false);
    BuiltMatches(g, xs, Gathered(qs, true, |qs|), true);
  }

  lemma BuiltMatches(g: Tower, steps: seq<FriFoldStep>, ws: seq<FoldWitness>, onX: bool)
    requires MAX_LOG_FOLDED + 3 < |g.pts| && BuiltFrom(g, steps, ws, onX)
    ensures |steps| == |ws| && AllMatch(g, steps, ws, onX)
    ensures forall i :: 0 <= i < |steps| ==> FoldHolds(steps[i])
  {
    hide StepLimbs, FoldHolds, Matches;
    forall i | 0 <= i < |ws|
      ensures MatchesAt(g, steps[i], ws[i], onX) && FoldHolds(steps[i])
    {
      var w := ws[i];
      assert StepLimbs(g, w.index, w.logFolded, w.beta, w.v0, w.v1, onX) == Some(steps[i]);
      StepMatches(g, steps[i], w, onX);
    }
  }

  lemma StepMatches(g: Tower, s: FriFoldStep, w: FoldWitness, onX: bool)
    requires MAX_LOG_FOLDED + 3 < |g.pts|
    requires StepLimbs(g, w.index, w.logFolded, w.beta, w.v0, w.v1, onX) == Some(s)
    ensures MatchesAt(g, s, w, onX) && FoldHolds(s)
  {
    hide FoldXTwiddleInv, FoldYTwiddleInv, FoldXRow, FoldYRow, FoldHolds, Pow2;
    BuiltStepPasses(g, w.index, w.logFolded, w.beta, w.v0, w.v1, onX);
  }

  // ---- The twiddle a bound step carries ----

  /** The step carries the domain's inverse twiddle of its kind. */
  predicate OwnTwiddle(g: Tower, s: FriFoldStep, onX: bool)
    requires InDomain(g, s)
  {
    hide FoldXTwiddleInv, FoldYTwiddleInv;
    s.tInv == if onX then FoldXTwiddleInv(g, s.index, s.logFolded) else FoldYTwiddleInv(g, s.index, s.logFolded)
  }

  /** beta (v0 - v1) vanishes, so that the fold does not depend on the twiddle. */
  predicate Degenerate(s: FriFoldStep) { EMul(s.beta, ESub(s.v0, s.v1)) == ZERO }

  /** Binding does not compare the inverse twiddle. A bound step satisfies the circuit's
      equation exactly when it carries the domain's, or its fold does not depend on it. */
  lemma BoundStepFoldsIff(g: Tower, s: FriFoldStep, w: FoldWitness, onX: bool)
    requires MatchesAt(g, s, w, onX)
    ensures InDomain(g, s) && (FoldHolds(s) <==> OwnTwiddle(g, s, onX) || Degenerate(s))
  {
    hide FoldXTwiddleInv, FoldYTwiddleInv, FoldFormula, Degenerate;
    FormulaDetermines(s.tInv, if onX then FoldXTwiddleInv(g, s.index, s.logFolded) else FoldYTwiddleInv(g, s.index, s.logFolded), s);
  }

  /** Two twiddles give one fold exactly when they agree or the step is degenerate. */
  lemma FormulaDetermines(t: Fp, t': Fp, s: FriFoldStep)
    ensures FoldFormula(t, s.beta, s.v0, s.v1) == FoldFormula(t', s.beta, s.v0, s.v1) <==> t == t' || Degenerate(s)
  {
    hide EMul, EAdd, ESub, EHalve, Embed;
    var sum, diff := EAdd(s.v0, s.v1), ESub(s.v0, s.v1);
    var a, b := EMul(s.beta, EMul(diff, Embed(t))), EMul(s.beta, EMul(diff, Embed(t')));
    HalveInjective(EAdd(sum, a), EAdd(sum, b));
    ESubAdd(EAdd(sum, a), sum, a);
    ESubAdd(EAdd(sum, b), sum, b);
    assert FoldFormula(t, s.beta, s.v0, s.v1) == FoldFormula(t', s.beta, s.v0, s.v1) <==> a == b;
    EMulAssoc(s.beta, diff, Embed(t));
    EMulAssoc(s.beta, diff, Embed(t'));
    EMulSub(EMul(s.beta, diff), Embed(t), Embed(t'));
    SubIsZero(a, b);
    SubIsZero(Embed(t), Embed(t'));
    EmbedInjective(t, t');
    NoZeroDivisorsEf(EMul(s.beta, diff), ESub(Embed(t), Embed(t')));
  }

  lemma EmbedInjective(t: Fp, t': Fp)
    ensures Embed(t) == Embed(t') <==> t == t'
  {
  }

  lemma HalveInjective(a: Ef, b: Ef)
    ensures EHalve(a) == EHalve(b) <==> a == b
  {
    hide Mul;
    if EHalve(a) == EHalve(b) {
      MulComm(a.c0, HALF); MulComm(a.c1, HALF); MulComm(a.c2, HALF);
      MulComm(b.c0, HALF); MulComm(b.c1, HALF); MulComm(b.c2, HALF);
      Cancel(HALF, a.c0, b.c0); Cancel(HALF, a.c1, b.c1); Cancel(HALF, a.c2, b.c2);
    }
  }

  // ---- Binding together with the native check ----

  predicate YOk(g: Tower, s: FriFoldStep) {
    hide FoldYNativeOk;
    InDomain(g, s) && FoldYNativeOk(g, s)
  }

  predicate XOk(g: Tower, s: FriFoldStep) {
    hide FoldXNativeOk;
    InDomain(g, s) && FoldXNativeOk(g, s)
  }

  function YCheck(g: Tower): FriFoldStep -> bool { (s: FriFoldStep) => YOk(g, s) }

  function XCheck(g: Tower): FriFoldStep -> bool { (s: FriFoldStep) => XOk(g, s) }

  /** What the greedy split check accepts, on steps judged in their domain. */
  ghost predicate SplitAccepts(g: Tower, steps: seq<FriFoldStep>) {
    && (exists n: nat :: SplitsAt(YCheck(g), XCheck(g), steps, n))
    && !(forall i :: 0 <= i < |steps| ==> YOk(g, steps[i]))
  }

  /** The native check of a mixed group, on steps judged in their domain. */
  method NativeCheckYx(g: Tower, steps: seq<FriFoldStep>) returns (ok: bool)
    ensures ok <==> SplitAccepts(g, steps)
    ensures ok <==>
      && steps != [] && YOk(g, steps[0]) && (exists j :: 0 <= j < |steps| && !YOk(g, steps[j]))
      && (forall j, i :: 0 <= j <= i < |steps| && !YOk(g, steps[j]) ==> XOk(g, steps[i]))
  {
    hide YOk, XOk, SplitsAt;
    ok := NativeCheckYxSplit(YCheck(g), XCheck(g), steps);
  }

  /** Every step whose fold does not depend on its twiddle carries the right one. */
  ghost predicate DegenerateOwn(g: Tower, steps: seq<FriFoldStep>, onX: bool) {
    forall i :: 0 <= i < |steps| ==> InDomain(g, steps[i]) && (Degenerate(steps[i]) ==> OwnTwiddle(g, steps[i], onX))
  }

  /** A bound bundle that the native split accepts is the builder's exactly when its
      degenerate steps carry the twiddle of their own kind; the others always do. */
  lemma BoundNativeIsBuilt(g: Tower, qs: Queries, ys: seq<FriFoldStep>, xs: seq<FriFoldStep>)
    requires MAX_LOG_FOLDED + 3 < |g.pts| && Buildable(qs)
    requires Bound(g, qs, ys, xs) && SplitAccepts(g, ys + xs)
    ensures BuiltFrom(g, ys, Gathered(qs, false, |qs|), false) && BuiltFrom(g, xs, Gathered(qs, true, |qs|), true)
            <==> DegenerateOwn(g, ys, false) && DegenerateOwn(g, xs, true)
  {
    hide Gathered, Buildable, YOk, XOk, BuiltFrom, DegenerateOwn, AllMatch;
    var n: nat :| SplitsAt(YCheck(g), XCheck(g), ys + xs, n);
    forall i | 0 <= i < |ys + xs|
      ensures FoldHolds((ys + xs)[i])
    {
      EitherFolds(g, (ys + xs)[i]);
    }
    forall i | 0 <= i < |ys|
      ensures FoldHolds(ys[i])
    {
      assert (ys + xs)[i] == ys[i];
    }
    forall i | 0 <= i < |xs|
      ensures FoldHolds(xs[i])
    {
      assert (ys + xs)[|ys| + i] == xs[i];
    }
    GatheredSupported(qs, false, |qs|);
    GatheredSupported(qs, true, |qs|);
    FoldingIsBuilt(g, ys, Gathered(qs, false, |qs|), false);
    FoldingIsBuilt(g, xs, Gathered(qs, true, |qs|), true);
  }

  lemma EitherFolds(g: Tower, s: FriFoldStep)
    requires YOk(g, s) || XOk(g, s)
    ensures FoldHolds(s)
  {
    hide FoldHolds, FoldYNativeOk, FoldXNativeOk;
    NativeOkFolds(g, s);
  }

  lemma {:induction false} GatheredSupported(qs: Queries, onX: bool, n: nat)
    requires n <= |qs| && Buildable(qs)
    ensures HeightsSupported(Gathered(qs, onX, n))
  {
    GatheredStep(qs, onX, n);
    if n > 0 {
      GatheredSupported(qs, onX, n - 1);
      assert QueryBuildable(qs[n - 1]);
    }
  }

  lemma FoldingIsBuilt(g: Tower, steps: seq<FriFoldStep>, ws: seq<FoldWitness>, onX: bool)
    requires MAX_LOG_FOLDED + 3 < |g.pts| && |steps| == |ws| && AllMatch(g, steps, ws, onX) && HeightsSupported(ws)
    requires forall i :: 0 <= i < |steps| ==> FoldHolds(steps[i])
    ensures BuiltFrom(g, steps, ws, onX) <==> DegenerateOwn(g, steps, onX)
  {
    hide FoldHolds, Matches, StepLimbs, OwnTwiddle, Degenerate;
    forall i | 0 <= i < |ws|
      ensures InDomain(g, steps[i])
      ensures StepLimbs(g, ws[i].index, ws[i].logFolded, ws[i].beta, ws[i].v0, ws[i].v1, onX) == Some(steps[i])
              <==> (Degenerate(steps[i]) ==> OwnTwiddle(g, steps[i], onX))
    {
      BoundStepFoldsIff(g, steps[i], ws[i], onX);
      StepBuiltIff(g, steps[i], ws[i], onX);
    }
  }

  /** A bound step in the supported range is the one built exactly when its twiddle is. */
  lemma StepBuiltIff(g: Tower, s: FriFoldStep, w: FoldWitness, onX: bool)
    requires MAX_LOG_FOLDED + 3 < |g.pts| && MatchesAt(g, s, w, onX) && 1 <= w.logFolded <= MAX_LOG_FOLDED
    ensures InDomain(g, s)
    ensures StepLimbs(g, w.index, w.logFolded, w.beta, w.v0, w.v1, onX) == Some(s) <==> OwnTwiddle(g, s, onX)
  {
    hide FoldXTwiddleInv, FoldYTwiddleInv, FoldXRow, FoldYRow, Pow2;
  }

  /** The builder's bundle passes the split at its own seam, if neither part is empty. */
  lemma BuiltSplits(g: Tower, qs: Queries, ys: seq<FriFoldStep>, xs: seq<FriFoldStep>)
    requires MAX_LOG_FOLDED + 3 < |g.pts| && |ys| > 0 && |xs| > 0
    requires BuiltFrom(g, ys, Gathered(qs, false, |qs|), false) && BuiltFrom(g, xs, Gathered(qs, true, |qs|), true)
    ensures SplitsAt(YCheck(g), XCheck(g), ys + xs, |ys|)
  {
    hide Gathered, StepLimbs, YOk, XOk;
    var wy, wx := Gathered(qs, false, |qs|), Gathered(qs, true, |qs|);
    forall i | 0 <= i < |ys|
      ensures YOk(g, ys[i])
    {
      BuiltStepOk(g, wy[i], ys[i], false);
    }
    forall i | 0 <= i < |xs|
      ensures XOk(g, xs[i])
    {
      BuiltStepOk(g, wx[i], xs[i], true);
    }
  }

  lemma BuiltStepOk(g: Tower, w: FoldWitness, s: FriFoldStep, onX: bool)
    requires MAX_LOG_FOLDED + 3 < |g.pts|
    requires StepLimbs(g, w.index, w.logFolded, w.beta, w.v0, w.v1, onX) == Some(s)
    ensures if onX then XOk(g, s) else YOk(g, s)
  {
    hide StepLimbs, FoldXNativeOk, FoldYNativeOk, FoldHolds;
    BuiltStepPasses(g, w.index, w.logFolded, w.beta, w.v0, w.v1, onX);
  }

  // ---- The two twiddles of one pair ----

  /** The x and y twiddles at index 0 of height 1 differ on every tower: otherwise the point
      of order 16 would have y == 1/2, and its multiples never reach the half turn. */
  lemma TwiddlesDiffer(g: Tower)
    requires g.Valid() && 4 < |g.pts|
    ensures FoldXTwiddleInv(g, 0, 1) != FoldYTwiddleInv(g, 0, 1)
  {
    hide OnCircle, Times, PAdd, FoldXTwiddleInv, FoldYTwiddleInv, Mul;
    if FoldXTwiddleInv(g, 0, 1) == FoldYTwiddleInv(g, 0, 1) {
      var x, y := FoldXTwiddlePoint(g, 0, 1).x, FoldYTwiddlePoint(g, 0, 1).y;
      FoldXTwiddleInverts(g, 0, 1);
      FoldYTwiddleInverts(g, 0, 1);
      var inv := FoldXTwiddleInv(g, 0, 1);
      MulComm(x, inv); MulComm(y, inv);
      InverseUnique(inv, x, y);
      FoldXGeometry(g, 1, 0);
      FoldYGeometry(g, 1, 0);
      HalfHeight(g, FoldXTwiddlePoint(g, 0, 1));
    }
  }

  /** A point p of the layer with y of 2 p equal to x of p and p's multiple 8 the half
      turn cannot exist. */
  lemma HalfHeight(g: Tower, p: Point)
    requires g.Valid() && 4 < |g.pts| && p == LayerPoint(g, 2, 0)
    ensures PAdd(p, p).y != p.x
  {
    LayerPointOnCircle(g, 2, 0);
    LayerPointOrder(g, 2, 0);
    hide Times, PAdd, LayerPoint, Mul;
    if PAdd(p, p).y == p.x {
      XInvertible(p, 3);
      EightIsHalfTurn(p);
      YIsHalf(p);
      XOfMultiples(p);
    }
  }

  lemma EightIsHalfTurn(p: Point)
    requires Times(p, Pow2(3)) == HALF_TURN && OnCircle(p)
    ensures DoubleX(DoubleX(DoubleX(p.x))) == P - 1
  {
    hide Times, OnCircle;
    PointVnIsMultiple(p, 3);
    assert IterDoubleX(p.x, 3) == DoubleX(DoubleX(DoubleX(p.x))) by {
      assert IterDoubleX(p.x, 3) == IterDoubleX(DoubleX(p.x), 2);
      assert IterDoubleX(DoubleX(p.x), 2) == IterDoubleX(DoubleX(DoubleX(p.x)), 1);
    }
  }

  lemma YIsHalf(p: Point)
    requires Invertible(p.x) && PAdd(p, p).y == p.x
    ensures p.y == HALF
  {
    hide Mul, Sub, Invertible;
    YOfDouble(p);
    var twice := Add(p.y, p.y);
    MulAdd(p.x, p.y, p.y);
    MulOne(p.x);
    var inv := Inverse(p.x);
    if p.x == 0 { MulZero(inv); }
    Cancel(p.x, twice, 1);
    HalfOfOne(p.y);
  }

  lemma HalfOfOne(y: Fp)
    requires Add(y, y) == 1
    ensures y == HALF
  {
  }

  lemma XOfMultiples(p: Point)
    requires OnCircle(p) && p.y == HALF
    ensures DoubleX(DoubleX(DoubleX(p.x))) != P - 1
  {
    hide Mul, Square, Double, Add, Sub;
    SquareOf(HALF, 536870912, 536870912);
    QuarterLeft(Square(p.x));
    SquareOf(1073741823, 536870911, 536870912);
    DoubledQuarter();
  }

  lemma QuarterLeft(xx: Fp)
    ensures Add(xx, 536870912) == 1 ==> Sub(Double(xx), 1) == HALF
  {
  }

  lemma DoubledQuarter()
    ensures Sub(Double(536870912), 1) == 1073741823
  {
  }

  // ---- The queries of a proof are in domain ----

  function OfFirstLayer(w: FoldYWitness): FoldWitness { FoldWitness(w.index, w.logFolded, w.beta, w.v0, w.v1) }

  /** What reconstruction and walk of one query contribute. */
  function QueryOf(ys: seq<FoldYWitness>, xs: seq<FoldWitness>): QueryFolds {
    QueryFolds(seq(|ys|, k requires 0 <= k < |ys| => OfFirstLayer(ys[k])), xs)
  }

  lemma {:induction false} RoundsInDomain(fold: RowFold, st: WalkState, sibs: seq<Ef>, betas: seq<Ef>)
    requires |sibs| == |betas| <= st.logCurrent && st.index < Pow2(st.logCurrent)
    ensures forall w :: w in Rounds(fold, st, sibs, betas) ==> w.logFolded < st.logCurrent && w.index < Pow2(w.logFolded)
    decreases |sibs|
  {
    hide EAdd;
    if sibs != [] {
      HalfPower(st.logCurrent);
      RoundsInDomain(fold, Advance(fold, st, betas[0], sibs[0]), sibs[1..], betas[1..]);
    }
  }

  /** A query index drawn below the global size keeps every witness of both passes in the
      domain of its height, as building and binding demand. */
  lemma QueryInDomain(g: Tower, inp: RoInput, ops: seq<DeepOpening>, ros: seq<Reduced>, ys: seq<FoldYWitness>,
                      openings: seq<Opening>, betas: seq<Ef>, finalPoly: Ef, maxRounds: nat, xs: seq<FoldWitness>)
    requires inp.InRange(g) && MAX_LOG_FOLDED + 3 < |g.pts| && inp.LogGlobalMax() + 2 < |g.pts|
    requires Reconstructs(g, inp, ops, ros, ys) && |betas| == inp.commitRounds
    requires Extracted(XFold(g), openings, betas, inp.queryIndex, 1, inp.logBlowup, finalPoly, ros, maxRounds) == Ok(xs)
    ensures QueriesInDomain(g, [Some(QueryOf(ys, xs))])
  {
    hide EAdd, Shr, Pow2, Rounds, Finish, FirstLayer, RoSum, AtHeight, Ascending, FoldYRow, FoldXRow, FirstLayerReduced, FirstBadSibling;
    ShrBound(inp.queryIndex, 1, inp.commitRounds + inp.logBlowup);
    RoundsInDomain(XFold(g), Start(inp.queryIndex, 1, |openings| + inp.logBlowup, ros), Siblings(openings), betas);
    var hs := Ascending(HeightSet(ops), inp.LogGlobalMax() + 1);
    forall t | 0 <= t < |ys|
      ensures InDomainWitness(g, OfFirstLayer(ys[t]))
    {
      FirstLayerShape(g, inp, hs[t], RoSum(inp.alpha, AtHeight(ops, hs[t])), inp.siblings[t], inp.lambdas[t]);
    }
  }
}
