/** Where the steps of a bundle stand: query by query, each step the fold of its witness. */
module BundlePositions {

  import opened Options
  import opened M31
  import opened Ef3
  import opened PowersOfTwo
  import opened Circle
  import opened FoldGeometry
  import opened FoldRows
  import opened FoldWalk
  import opened ReducedOpenings
  import opened FriFoldGroup
  import opened FriFoldBind

  function Sum(lens: seq<nat>, n: nat): nat
    requires n <= |lens|
  { if n == 0 then 0 else Sum(lens, n - 1) + lens[n - 1] }

  /** How many y steps each query has. */
  function YLens(qs: Queries): (lens: seq<nat>)
    ensures |lens| == |qs|
  {
    seq(|qs|, q requires 0 <= q < |qs| => match qs[q] case None => 0 case Some(f) => |f.ys|)
  }

  function XLens(qs: Queries): (lens: seq<nat>)
    ensures |lens| == |qs|
  {
    seq(|qs|, q requires 0 <= q < |qs| => match qs[q] case None => 0 case Some(f) => |f.xs|)
  }

  predicate NoneFailed(qs: Queries) { forall q :: 0 <= q < |qs| ==> qs[q].Some? }

  lemma YLensAt(qs: Queries, q: nat)
    requires q < |qs| && NoneFailed(qs)
    ensures YLens(qs)[q] == |qs[q].value.ys|
  {
  }

  lemma XLensAt(qs: Queries, q: nat)
    requires q < |qs| && NoneFailed(qs)
    ensures XLens(qs)[q] == |qs[q].value.xs|
  {
  }

  // ---- Positions in the gathered list ----

  ghost predicate StandsAt(ws: seq<FoldWitness>, off: nat, run: seq<FoldWitness>) {
    off + |run| <= |ws| && forall i :: 0 <= i < |run| ==> ws[off + i] == run[i]
  }

  lemma StandsExtended(ws: seq<FoldWitness>, off: nat, run: seq<FoldWitness>, more: seq<FoldWitness>)
    requires StandsAt(ws, off, run)
    ensures StandsAt(ws + more, off, run)
  {
  }

  lemma StandsLast(ws: seq<FoldWitness>, run: seq<FoldWitness>)
    ensures StandsAt(ws + run, |ws|, run)
  {
  }

  /** The y witnesses of query q start behind those of the queries before it. */
  lemma {:induction false} YsStand(qs: Queries, n: nat, q: nat)
    requires q <= n <= |qs| && NoneFailed(qs)
    ensures |Gathered(qs, false, n)| == Sum(YLens(qs), n)
    ensures q < n ==> StandsAt(Gathered(qs, false, n), Sum(YLens(qs), q), qs[q].value.ys)
    decreases n
  {
    hide Gathered, YLens, StandsAt;
    if n == 0 {
      GatheredStep(qs, false, 0);
    } else {
      YLensAt(qs, n - 1);
      StandsLast(Gathered(qs, false, n - 1), qs[n - 1].value.ys);
      GatheredStep(qs, false, n);
      YsStand(qs, n - 1, if q < n - 1 then q else 0);
      if q < n - 1 {
        StandsExtended(Gathered(qs, false, n - 1), Sum(YLens(qs), q), qs[q].value.ys, qs[n - 1].value.ys);
      }
    }
  }

  lemma {:induction false} XsStand(qs: Queries, n: nat, q: nat)
    requires q <= n <= |qs| && NoneFailed(qs)
    ensures |Gathered(qs, true, n)| == Sum(XLens(qs), n)
    ensures q < n ==> StandsAt(Gathered(qs, true, n), Sum(XLens(qs), q), qs[q].value.xs)
    decreases n
  {
    hide Gathered, XLens, StandsAt;
    if n == 0 {
      GatheredStep(qs, true, 0);
    } else {
      XLensAt(qs, n - 1);
      StandsLast(Gathered(qs, true, n - 1), qs[n - 1].value.xs);
      GatheredStep(qs, true, n);
      XsStand(qs, n - 1, if q < n - 1 then q else 0);
      if q < n - 1 {
        StandsExtended(Gathered(qs, true, n - 1), Sum(XLens(qs), q), qs[q].value.xs, qs[n - 1].value.xs);
      }
    }
  }

  /** Every position belongs to one query. */
  lemma {:induction false} Located(lens: seq<nat>, n: nat, at: nat) returns (q: nat, i: nat)
    requires n <= |lens| && at < Sum(lens, n)
    ensures q < n && i < lens[q] && at == Sum(lens, q) + i
  {
    if at < Sum(lens, n - 1) {
      q, i := Located(lens, n - 1, at);
    } else {
      q, i := n - 1, at - Sum(lens, n - 1);
    }
  }

  /** What holds of every gathered y witness at its position holds of every query's at its
      own, and conversely. */
  lemma YPositions(qs: Queries, ok: (nat, FoldWitness) -> bool)
    requires NoneFailed(qs)
    ensures (forall at :: 0 <= at < |Gathered(qs, false, |qs|)| ==> ok(at, Gathered(qs, false, |qs|)[at])) <==>
      forall q: nat, i: nat :: q < |qs| && i < |qs[q].value.ys| ==> ok(Sum(YLens(qs), q) + i, qs[q].value.ys[i])
  {
    hide Gathered, Sum, YLens;
    var ws := Gathered(qs, false, |qs|);
    YsStand(qs, |qs|, 0);
    forall q: nat, i: nat | q < |qs| && i < |qs[q].value.ys|
      ensures Sum(YLens(qs), q) + i < |ws| && ws[Sum(YLens(qs), q) + i] == qs[q].value.ys[i]
    {
      YsStand(qs, |qs|, q);
    }
    if forall q: nat, i: nat :: q < |qs| && i < |qs[q].value.ys| ==> ok(Sum(YLens(qs), q) + i, qs[q].value.ys[i]) {
      forall at | 0 <= at < |ws|
        ensures ok(at, ws[at])
      {
        var q, i := Located(YLens(qs), |qs|, at);
        YLensAt(qs, q);
        assert ok(Sum(YLens(qs), q) + i, qs[q].value.ys[i]);
      }
    }
  }

  lemma XPositions(qs: Queries, ok: (nat, FoldWitness) -> bool)
    requires NoneFailed(qs)
    ensures (forall at :: 0 <= at < |Gathered(qs, true, |qs|)| ==> ok(at, Gathered(qs, true, |qs|)[at])) <==>
      forall q: nat, i: nat :: q < |qs| && i < |qs[q].value.xs| ==> ok(Sum(XLens(qs), q) + i, qs[q].value.xs[i])
  {
    hide Gathered, Sum, XLens;
    var ws := Gathered(qs, true, |qs|);
    XsStand(qs, |qs|, 0);
    forall q: nat, i: nat | q < |qs| && i < |qs[q].value.xs|
      ensures Sum(XLens(qs), q) + i < |ws| && ws[Sum(XLens(qs), q) + i] == qs[q].value.xs[i]
    {
      XsStand(qs, |qs|, q);
    }
    if forall q: nat, i: nat :: q < |qs| && i < |qs[q].value.xs| ==> ok(Sum(XLens(qs), q) + i, qs[q].value.xs[i]) {
      forall at | 0 <= at < |ws|
        ensures ok(at, ws[at])
      {
        var q, i := Located(XLens(qs), |qs|, at);
        XLensAt(qs, q);
        assert ok(Sum(XLens(qs), q) + i, qs[q].value.xs[i]);
      }
    }
  }

  // ---- Binding ----

  /** The step at this position publishes the witness and its y fold, whatever its twiddle. */
  ghost predicate PublishesY(g: Tower, steps: seq<FriFoldStep>, at: nat, w: FoldWitness) {
    hide FoldYRow, Pow2;
    && at < |steps| && w.logFolded + 3 < |g.pts| && w.index < Pow2(w.logFolded)
    && steps[at] == FriFoldStep(w.index, w.logFolded, steps[at].tInv, w.beta, w.v0, w.v1,
                                FoldYRow(g, w.index, w.logFolded, w.beta, w.v0, w.v1))
  }

  ghost predicate PublishesX(g: Tower, steps: seq<FriFoldStep>, at: nat, w: FoldWitness) {
    hide FoldXRow, Pow2;
    && at < |steps| && w.logFolded + 3 < |g.pts| && w.index < Pow2(w.logFolded)
    && steps[at] == FriFoldStep(w.index, w.logFolded, steps[at].tInv, w.beta, w.v0, w.v1,
                                FoldXRow(g, w.index, w.logFolded, w.beta, w.v0, w.v1))
  }

  /** Binding accepts exactly the bundles of 1 to 40 queries, none failed, that hold one
      step for every witness: the y steps of query q behind those of the queries before
      it, in order, and likewise the x steps. */
  lemma BoundIff(g: Tower, qs: Queries, ys: seq<FriFoldStep>, xs: seq<FriFoldStep>)
    ensures Bound(g, qs, ys, xs) <==>
      && 1 <= |qs| <= 40 && (forall q :: 0 <= q < |qs| ==> qs[q].Some?)
      && |ys| == Sum(YLens(qs), |qs|) && |xs| == Sum(XLens(qs), |qs|)
      && (forall q: nat, i: nat :: q < |qs| && i < |qs[q].value.ys| ==> PublishesY(g, ys, Sum(YLens(qs), q) + i, qs[q].value.ys[i]))
      && (forall q: nat, i: nat :: q < |qs| && i < |qs[q].value.xs| ==> PublishesX(g, xs, Sum(XLens(qs), q) + i, qs[q].value.xs[i]))
  {
    hide Gathered, PublishesY, PublishesX, MatchesAt, Sum, YLens, XLens;
    if NoneFailed(qs) {
      YsStand(qs, |qs|, 0);
      XsStand(qs, |qs|, 0);
      YPositions(qs, (at: nat, w: FoldWitness) => PublishesY(g, ys, at, w));
      XPositions(qs, (at: nat, w: FoldWitness) => PublishesX(g, xs, at, w));
      forall at: nat, w: FoldWitness
        ensures at < |ys| ==> (MatchesAt(g, ys[at], w, false) <==> PublishesY(g, ys, at, w))
        ensures at < |xs| ==> (MatchesAt(g, xs[at], w, true) <==> PublishesX(g, xs, at, w))
      {
        MatchIsPublished(g, ys, xs, at, w);
      }
    }
  }

  lemma MatchIsPublished(g: Tower, ys: seq<FriFoldStep>, xs: seq<FriFoldStep>, at: nat, w: FoldWitness)
    ensures at < |ys| ==> (MatchesAt(g, ys[at], w, false) <==> PublishesY(g, ys, at, w))
    ensures at < |xs| ==> (MatchesAt(g, xs[at], w, true) <==> PublishesX(g, xs, at, w))
  {
    hide FoldXRow, FoldYRow, Pow2;
  }

  // ---- Building ----

  /** The step at this position is built from the witness: heights 1 to 16, the domain's
      inverse twiddle and the y fold. */
  ghost predicate BuildsY(g: Tower, steps: seq<FriFoldStep>, at: nat, w: FoldWitness) {
    hide FoldYRow, FoldYTwiddleInv, Pow2;
    && at < |steps| && 1 <= w.logFolded <= 16 && w.logFolded + 3 < |g.pts| && w.index < Pow2(w.logFolded)
    && steps[at] == FriFoldStep(w.index, w.logFolded, FoldYTwiddleInv(g, w.index, w.logFolded), w.beta, w.v0, w.v1,
                                FoldYRow(g, w.index, w.logFolded, w.beta, w.v0, w.v1))
  }

  ghost predicate BuildsX(g: Tower, steps: seq<FriFoldStep>, at: nat, w: FoldWitness) {
    hide FoldXRow, FoldXTwiddleInv, Pow2;
    && at < |steps| && 1 <= w.logFolded <= 16 && w.logFolded + 3 < |g.pts| && w.index < Pow2(w.logFolded)
    && steps[at] == FriFoldStep(w.index, w.logFolded, FoldXTwiddleInv(g, w.index, w.logFolded), w.beta, w.v0, w.v1,
                                FoldXRow(g, w.index, w.logFolded, w.beta, w.v0, w.v1))
  }

  /** The builder's bundle is the one of 1 to 40 queries, none failed and none with more
      than four y steps, whose step at every position is built from its query's witness. */
  lemma BuiltIff(g: Tower, qs: Queries, ys: seq<FriFoldStep>, xs: seq<FriFoldStep>)
    requires MAX_LOG_FOLDED + 3 < |g.pts|
    ensures Buildable(qs) && BuiltFrom(g, ys, Gathered(qs, false, |qs|), false) && BuiltFrom(g, xs, Gathered(qs, true, |qs|), true) <==>
      && 1 <= |qs| <= 40 && (forall q :: 0 <= q < |qs| ==> qs[q].Some? && |qs[q].value.ys| <= 4)
      && |ys| == Sum(YLens(qs), |qs|) && |xs| == Sum(XLens(qs), |qs|)
      && (forall q: nat, i: nat :: q < |qs| && i < |qs[q].value.ys| ==> BuildsY(g, ys, Sum(YLens(qs), q) + i, qs[q].value.ys[i]))
      && (forall q: nat, i: nat :: q < |qs| && i < |qs[q].value.xs| ==> BuildsX(g, xs, Sum(XLens(qs), q) + i, qs[q].value.xs[i]))
  {
    hide Gathered, BuildsY, BuildsX, StepLimbs, Sum, YLens, XLens;
    if NoneFailed(qs) {
      YsStand(qs, |qs|, 0);
      XsStand(qs, |qs|, 0);
      YPositions(qs, (at: nat, w: FoldWitness) => BuildsY(g, ys, at, w));
      XPositions(qs, (at: nat, w: FoldWitness) => BuildsX(g, xs, at, w));
      forall at: nat, w: FoldWitness
        ensures BuildsY(g, ys, at, w) ==> 1 <= w.logFolded <= 16
        ensures BuildsX(g, xs, at, w) ==> 1 <= w.logFolded <= 16
        ensures at < |ys| ==> (StepLimbs(g, w.index, w.logFolded, w.beta, w.v0, w.v1, false) == Some(ys[at]) <==> BuildsY(g, ys, at, w))
        ensures at < |xs| ==> (StepLimbs(g, w.index, w.logFolded, w.beta, w.v0, w.v1, true) == Some(xs[at]) <==> BuildsX(g, xs, at, w))
      {
        BuiltIsStep(g, ys, xs, at, w);
      }
    }
  }

  lemma BuiltIsStep(g: Tower, ys: seq<FriFoldStep>, xs: seq<FriFoldStep>, at: nat, w: FoldWitness)
    requires MAX_LOG_FOLDED + 3 < |g.pts|
    ensures BuildsY(g, ys, at, w) ==> 1 <= w.logFolded <= 16
    ensures BuildsX(g, xs, at, w) ==> 1 <= w.logFolded <= 16
    ensures at < |ys| ==> (StepLimbs(g, w.index, w.logFolded, w.beta, w.v0, w.v1, false) == Some(ys[at]) <==> BuildsY(g, ys, at, w))
    ensures at < |xs| ==> (StepLimbs(g, w.index, w.logFolded, w.beta, w.v0, w.v1, true) == Some(xs[at]) <==> BuildsX(g, xs, at, w))
  {
    hide FoldXRow, FoldYRow, FoldXTwiddleInv, FoldYTwiddleInv, Pow2;
  }

  // ---- The y steps and the walk ----

  /** What a bound y step publishes as its fold is the reduced opening the commit-phase
      walk takes in at that height. */
  lemma YStepFeedsWalk(g: Tower, inp: RoInput, ops: seq<DeepOpening>, ros: seq<Reduced>, ys: seq<FoldYWitness>, xs: seq<FoldWitness>,
                       steps: seq<FriFoldStep>, at: nat, t: nat)
    requires inp.InRange(g) && Reconstructs(g, inp, ops, ros, ys) && t < |ys|
    requires PublishesY(g, steps, at, QueryOf(ys, xs).ys[t])
    ensures Reduced(steps[at].logFolded, steps[at].out) == ros[|ros| - 1 - t]
  {
    hide FoldYRow, Pow2, FirstLayer, RoSum, AtHeight, Ascending, HeightSet;
    var hs := Ascending(HeightSet(ops), inp.LogGlobalMax() + 1);
    assert |hs| - 1 - (|hs| - 1 - t) == t;
  }
}
