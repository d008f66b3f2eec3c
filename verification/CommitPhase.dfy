/** The commit-phase check of one query against committed layers. */
module CommitPhase {

  import opened Options
  import opened M31
  import opened Ef3
  import opened PowersOfTwo
  import opened Circle
  import opened FoldGeometry
  import opened FoldRows
  import opened FoldWalk
  import opened FoldRefinement

  /** verifyBatch(round, log height, index, row). */
  type BatchCheck = (nat, nat, nat, seq<Ef>) -> bool

  /** Row j of the committed layer of round k: its slots 2 j and 2 j + 1. */
  ghost function PairOfLayer(fold: RowFold, top: nat, betas: seq<Ef>, ro: RoLayers, k: nat, j: nat): (row: seq<Ef>)
    requires k < |betas| <= top && WellSized(ro) && j < Pow2(top - k - 1)
    ensures |row| == 2
  {
    hide LayerAt, Pow2;
    HalfPower(top - k);
    var layer := LayerAt(fold, top, betas, Zeros(top), ro, k);
    [layer[2 * j], layer[2 * j + 1]]
  }

  /** At every round and index exactly the pair of the whole layer opens. */
  ghost predicate CommittedExactly(check: BatchCheck, fold: RowFold, top: nat, betas: seq<Ef>, ro: RoLayers)
    requires |betas| <= top && WellSized(ro)
  {
    hide PairOfLayer, Pow2;
    forall k: nat, h: nat, j: nat, row: seq<Ef> :: k < |betas| && h == top - k - 1 && j < Pow2(h) ==>
      (check(k, h, j, row) <==> row == PairOfLayer(fold, top, betas, ro, k, j))
  }

  // ---- What a round opens ----

  /** Witness k of any walk: its place, and the sibling in the slot beside the index. */
  ghost predicate PlacedAt(w: FoldWitness, i: nat, m: nat, sibling: Ef) {
    && m > 0 && w.index == i / 2 && w.logFolded == m - 1
    && sibling == if i % 2 == 0 then w.v1 else w.v0
  }

  lemma {:induction false} RoundsPlaced(fold: RowFold, st: WalkState, sibs: seq<Ef>, betas: seq<Ef>, k: nat)
    requires |sibs| == |betas| <= st.logCurrent && k < |sibs|
    ensures PlacedAt(Rounds(fold, st, sibs, betas)[k], Shr(st.index, k), st.logCurrent - k, sibs[k])
    decreases k
  {
    hide EAdd;
    if k > 0 {
      RoundsPlaced(fold, Advance(fold, st, betas[0], sibs[0]), sibs[1..], betas[1..], k - 1);
    }
  }

  /** A round that opens the pair of the layer has the layer's slot for sibling. */
  lemma OpenedSibling(fold: RowFold, top: nat, betas: seq<Ef>, ro: RoLayers, i: nat, k: nat, w: FoldWitness, sibling: Ef)
    requires k < |betas| <= top && WellSized(ro) && i < Pow2(top)
    requires PlacedAt(w, Shr(i, k), top - k, sibling)
    ensures w.index < Pow2(top - k - 1)
    ensures [w.v0, w.v1] == PairOfLayer(fold, top, betas, ro, k, w.index) ==> sibling == SiblingAt(fold, top, betas, Zeros(top), ro, i, k)
  {
    hide LayerAt, Pow2, Shr;
    ShrBound(i, k, top - k);
    HalfIndex(Shr(i, k), top - k);
    HalfPower(top - k);
  }

  /** And a round that shows the pair of the layer opens it. */
  lemma ShownPairOpens(fold: RowFold, top: nat, betas: seq<Ef>, ro: RoLayers, i: nat, k: nat, w: FoldWitness)
    requires k < |betas| <= top && WellSized(ro) && i < Pow2(top)
    requires ShowsPair(w, LayerAt(fold, top, betas, Zeros(top), ro, k), betas[k], top - k, Shr(i, k))
    ensures w.logFolded == top - k - 1 && w.index < Pow2(top - k - 1) && w.index == Shr(i, k) / 2
    ensures [w.v0, w.v1] == PairOfLayer(fold, top, betas, ro, k, w.index)
  {
    hide LayerAt, Pow2, Shr;
    HalfIndex(Shr(i, k), top - k);
    HalfPower(top - k);
  }

  // ---- Acceptance ----

  /** Every round's pair opens. */
  ghost predicate RoundsOpen(check: BatchCheck, ws: seq<FoldWitness>) {
    forall k :: 0 <= k < |ws| ==> check(k, ws[k].logFolded, ws[k].index, [ws[k].v0, ws[k].v1])
  }

  /** Inputs of one query: its openings, challenges and commitments' check. */
  datatype CommitQuery = CommitQuery(openings: seq<Opening>, betas: seq<Ef>, query: nat, extra: nat, logBlowup: nat, finalPoly: Ef)
  {
    function Top(): nat { |betas| + logBlowup }

    function Index(): nat { Shr(query, extra) }

    ghost predicate InRange() { Index() < Pow2(Top()) }

    /** What the walk returns on the reduced openings its index reads. */
    ghost function Walk(fold: RowFold, ro: RoLayers): Result<seq<FoldWitness>>
      requires InRange() && WellSized(ro)
    {
      hide Extracted, Reading, Pow2, Shr;
      Extracted(fold, openings, betas, query, extra, logBlowup, finalPoly, Reading(ro, Top(), Index()), AGG_FRI_MAX_ROUNDS)
    }

    /** At most four rounds, honest siblings, and a last layer that holds the final
        polynomial at the query with nothing injected at or below the final height. */
    ghost predicate Honest(fold: RowFold, ro: RoLayers)
      requires InRange() && WellSized(ro)
    {
      hide FinalLayer, HonestQuery, Pow2, Shr;
      var j := Shr(query, extra + |betas|);
      && |betas| <= 4 && HonestQuery(openings, fold, Top(), betas, ro, Index())
      && j < Pow2(logBlowup) && FinalLayer(fold, betas, logBlowup, ro)[j] == finalPoly && NoneAtOrBelow(ro, logBlowup)
    }
  }

  /** Round k shows the pair of the committed layer at its own index. */
  ghost predicate ShowsCommitted(fold: RowFold, top: nat, betas: seq<Ef>, ro: RoLayers, k: nat, w: FoldWitness) {
    hide PairOfLayer, Pow2;
    && k < |betas| <= top && WellSized(ro) && w.index < Pow2(top - k - 1)
    && [w.v0, w.v1] == PairOfLayer(fold, top, betas, ro, k, w.index)
  }

  /** An accepted walk whose rounds show committed pairs has honest siblings. */
  lemma ShownIsHonest(q: CommitQuery, fold: RowFold, ro: RoLayers)
    requires q.InRange() && WellSized(ro) && q.Walk(fold, ro).Ok?
    requires forall k: nat :: k < |q.Walk(fold, ro).value| ==> ShowsCommitted(fold, q.Top(), q.betas, ro, k, q.Walk(fold, ro).value[k])
    ensures HonestQuery(q.openings, fold, q.Top(), q.betas, ro, q.Index())
  {
    hide Reading, Finish, Rounds, PairOfLayer, SiblingAt, Pow2, Shr, EAdd, WellSized;
    var top, i := q.Top(), q.Index();
    var st := Start(q.query, q.extra, top, Reading(ro, top, i));
    var sibs, ws := Siblings(q.openings), q.Walk(fold, ro).value;
    forall k | 0 <= k < |q.betas|
      ensures sibs[k] == SiblingAt(fold, top, q.betas, Zeros(top), ro, i, k)
    {
      RoundsPlaced(fold, st, sibs, q.betas, k);
      OpenedSibling(fold, top, q.betas, ro, i, k, ws[k], sibs[k]);
      assert ShowsCommitted(fold, top, q.betas, ro, k, ws[k]);
    }
  }

  /** Round k of an accepted walk is at height top - k - 1 and at an index in range. */
  lemma RoundInRange(q: CommitQuery, fold: RowFold, ro: RoLayers, k: nat)
    requires q.InRange() && WellSized(ro) && q.Walk(fold, ro).Ok? && k < |q.Walk(fold, ro).value|
    ensures |q.Walk(fold, ro).value| == |q.betas|
    ensures var w := q.Walk(fold, ro).value[k];
      w.logFolded == q.Top() - k - 1 && w.index == Shr(q.Index(), k) / 2 && w.index < Pow2(w.logFolded)
  {
    hide Reading, Finish, Rounds, Pow2, Shr, EAdd, WellSized;
    var top, i := q.Top(), q.Index();
    var sibs := Siblings(q.openings);
    RoundsPlaced(fold, Start(q.query, q.extra, top, Reading(ro, top, i)), sibs, q.betas, k);
    ShrBound(i, k, top - k);
    HalfIndex(Shr(i, k), top - k);
  }

  lemma OpenedIsHonest(q: CommitQuery, fold: RowFold, ro: RoLayers, check: BatchCheck)
    requires q.InRange() && WellSized(ro) && CommittedExactly(check, fold, q.Top(), q.betas, ro)
    requires q.Walk(fold, ro).Ok? && RoundsOpen(check, q.Walk(fold, ro).value)
    ensures HonestQuery(q.openings, fold, q.Top(), q.betas, ro, q.Index())
  {
    hide PairOfLayer, Pow2, Shr, WellSized, HonestQuery, CommitQuery.Walk;
    var ws := q.Walk(fold, ro).value;
    forall k: nat | k < |ws|
      ensures ShowsCommitted(fold, q.Top(), q.betas, ro, k, ws[k])
    {
      RoundInRange(q, fold, ro, k);
      assert check(k, ws[k].logFolded, ws[k].index, [ws[k].v0, ws[k].v1]);
    }
    ShownIsHonest(q, fold, ro);
  }

  /** Round k of an honest accepted walk shows the committed pair. */
  lemma HonestShows(q: CommitQuery, fold: RowFold, ro: RoLayers, k: nat)
    requires q.InRange() && WellSized(ro) && q.Walk(fold, ro).Ok? && k < |q.Walk(fold, ro).value|
    requires HonestQuery(q.openings, fold, q.Top(), q.betas, ro, q.Index())
    ensures ShowsCommitted(fold, q.Top(), q.betas, ro, k, q.Walk(fold, ro).value[k])
  {
    hide Reading, Extracted, PairOfLayer, LayerAt, Pow2, Shr, WellSized, HonestQuery, ShowsPair;
    var ws := q.Walk(fold, ro).value;
    RoundInRange(q, fold, ro, k);
    HonestWalkShowsPair(fold, q.openings, q.betas, q.query, q.extra, q.Index(), q.logBlowup, q.finalPoly, ro, AGG_FRI_MAX_ROUNDS, ws, k);
    ShownPairOpens(fold, q.Top(), q.betas, ro, q.Index(), k, ws[k]);
  }

  /** The rounds of an honest accepted walk open. */
  lemma HonestOpens(q: CommitQuery, fold: RowFold, ro: RoLayers, check: BatchCheck)
    requires q.InRange() && WellSized(ro) && CommittedExactly(check, fold, q.Top(), q.betas, ro)
    requires q.Walk(fold, ro).Ok? && HonestQuery(q.openings, fold, q.Top(), q.betas, ro, q.Index())
    ensures RoundsOpen(check, q.Walk(fold, ro).value)
  {
    hide PairOfLayer, Pow2, Shr, WellSized, HonestQuery, CommitQuery.Walk;
    var ws := q.Walk(fold, ro).value;
    forall k | 0 <= k < |ws|
      ensures check(k, ws[k].logFolded, ws[k].index, [ws[k].v0, ws[k].v1])
    {
      RoundInRange(q, fold, ro, k);
      HonestShows(q, fold, ro, k);
    }
  }

  lemma FifthRoundFails(q: CommitQuery, fold: RowFold, ro: RoLayers)
    requires q.InRange() && WellSized(ro) && |q.betas| > 4
    ensures q.Walk(fold, ro).Err?
  {
    hide Reading, Pow2, Shr, WellSized, Rounds, Finish;
  }

  /** With honest siblings the walk is accepted exactly when its end is right. */
  lemma WalkIffHonest(q: CommitQuery, fold: RowFold, ro: RoLayers)
    requires q.InRange() && WellSized(ro)
    ensures HonestQuery(q.openings, fold, q.Top(), q.betas, ro, q.Index()) ==> (q.Walk(fold, ro).Ok? <==> q.Honest(fold, ro))
    ensures q.Honest(fold, ro) ==> HonestQuery(q.openings, fold, q.Top(), q.betas, ro, q.Index())
  {
    hide HonestQuery, Reading, Pow2, Shr, WellSized, Extracted, FinalLayer;
    if |q.betas| > 4 {
      FifthRoundFails(q, fold, ro);
    } else if HonestQuery(q.openings, fold, q.Top(), q.betas, ro, q.Index()) {
      HonestWalkAccepts(fold, q.openings, q.betas, q.query, q.extra, q.Index(), Shr(q.query, q.extra + |q.betas|), q.logBlowup, q.finalPoly,
                        ro, AGG_FRI_MAX_ROUNDS);
    }
  }

  /** With commitments that open exactly the pairs of the whole layers, the walk is
      accepted with all its rounds opened exactly when there are at most four rounds, the
      siblings are those of the layers and the last layer meets the final polynomial. */
  lemma AcceptedIffHonest(q: CommitQuery, fold: RowFold, ro: RoLayers, check: BatchCheck)
    requires q.InRange() && WellSized(ro) && CommittedExactly(check, fold, q.Top(), q.betas, ro)
    ensures (q.Walk(fold, ro).Ok? && RoundsOpen(check, q.Walk(fold, ro).value)) <==> q.Honest(fold, ro)
  {
    hide CommittedExactly, RoundsOpen, HonestQuery, Pow2, Shr, WellSized, FinalLayer, CommitQuery.Walk, CommitQuery.Honest;
    WalkIffHonest(q, fold, ro);
    if q.Walk(fold, ro).Ok? && RoundsOpen(check, q.Walk(fold, ro).value) {
      OpenedIsHonest(q, fold, ro, check);
    }
    if q.Honest(fold, ro) {
      HonestOpens(q, fold, ro, check);
    }
  }

  /** So the commit-phase check accepts exactly the honest openings. */
  method CheckCommittedQuery(g: Tower, q: CommitQuery, ghost ro: RoLayers, commits: nat, check: BatchCheck, reduced: seq<Reduced>)
    returns (r: Result<()>)
    requires |q.openings| + q.logBlowup + 2 < |g.pts| && q.InRange() && WellSized(ro)
    requires reduced == Reading(ro, q.Top(), q.Index()) && CommittedExactly(check, XFold(g), q.Top(), q.betas, ro)
    ensures r.Ok? <==> |q.openings| == commits && q.Honest(XFold(g), ro)
  {
    hide Reading, Extracted, CommittedExactly, Pow2, Shr, WellSized, CommitQuery.Honest;
    AcceptedIffHonest(q, XFold(g), ro, check);
    r := VerifyCommitPhaseMmcs(g, q.openings, q.betas, commits, check, q.query, q.extra, q.logBlowup, q.finalPoly, reduced);
  }
}
