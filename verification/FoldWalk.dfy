/** The commit-phase walk of one FRI query, in the three places that have it. */
module FoldWalk {

  import opened Options
  import opened M31
  import opened Ef3
  import opened PowersOfTwo
  import opened Circle
  import opened FoldGeometry
  import opened Multilinears
  import opened FoldRows

  datatype Opening = Opening(logArity: nat, siblingValues: seq<Ef>)

  datatype FoldWitness = FoldWitness(index: nat, logFolded: nat, beta: Ef, v0: Ef, v1: Ef)

  /** A reduced opening: the height it joins at, and its value. */
  datatype Reduced = Reduced(logHeight: nat, ro: Ef)

  datatype WalkError =
    | LengthMismatch
    | TooManyRounds
    | UnsupportedArity
    | SiblingCount(round: nat)
    | FinalHeight
    | PathRejected(round: nat)
    | FinalPolyMismatch
    | UnusedReduced

  datatype Result<+T> = Ok(value: T) | Err(error: WalkError)

  /** fold(index, logFolded, beta, v0, v1): the fold of one pair. */
  type RowFold = (nat, nat, Ef, Ef, Ef) -> Ef

  /** fold_x_row over a tower that reaches the heights in use. */
  function XFold(g: Tower): RowFold {
    (index: nat, logFolded: nat, beta: Ef, v0: Ef, v1: Ef) =>
      if logFolded + 3 < |g.pts| then FoldXRow(g, index, logFolded, beta, v0, v1) else ZERO
  }

  // ---- The walk as a function of its state, for any row fold ----

  datatype WalkState = WalkState(index: nat, logCurrent: nat, folded: Ef, ros: seq<Reduced>)

  function Start(queryIndex: nat, extraBits: nat, logCurrent: nat, reduced: seq<Reduced>): WalkState {
    WalkState(Shr(queryIndex, extraBits), logCurrent, ZERO, reduced)
  }

  /** Adds the next reduced opening when it belongs to the current height. */
  function Absorb(st: WalkState): WalkState {
    if st.ros != [] && st.ros[0].logHeight == st.logCurrent then
      st.(folded := EAdd(st.folded, st.ros[0].ro), ros := st.ros[1..])
    else st
  }

  function Witness(st: WalkState, beta: Ef, sibling: Ef): FoldWitness
    requires st.logCurrent > 0
  {
    var a := Absorb(st);
    if a.index % 2 == 0 then FoldWitness(a.index / 2, a.logCurrent - 1, beta, a.folded, sibling)
    else FoldWitness(a.index / 2, a.logCurrent - 1, beta, sibling, a.folded)
  }

  function Advance(fold: RowFold, st: WalkState, beta: Ef, sibling: Ef): WalkState
    requires 0 < st.logCurrent
  {
    var w := Witness(st, beta, sibling);
    WalkState(w.index, w.logFolded, fold(w.index, w.logFolded, w.beta, w.v0, w.v1), Absorb(st).ros)
  }

  /** The witnesses of all rounds from st on. */
  function Rounds(fold: RowFold, st: WalkState, sibs: seq<Ef>, betas: seq<Ef>): (r: seq<FoldWitness>)
    requires |sibs| == |betas| <= st.logCurrent
    ensures |r| == |sibs|
    decreases |sibs|
  {
    if sibs == [] then []
    else [Witness(st, betas[0], sibs[0])] + Rounds(fold, Advance(fold, st, betas[0], sibs[0]), sibs[1..], betas[1..])
  }

  /** The state after all rounds from st on. */
  function Finish(fold: RowFold, st: WalkState, sibs: seq<Ef>, betas: seq<Ef>): (r: WalkState)
    requires |sibs| == |betas| <= st.logCurrent
    ensures r.logCurrent == st.logCurrent - |betas|
    decreases |sibs|
  {
    if sibs == [] then st
    else Finish(fold, Advance(fold, st, betas[0], sibs[0]), sibs[1..], betas[1..])
  }

  function FirstBadSibling(openings: seq<Opening>, from: nat): (r: nat)
    requires from <= |openings|
    ensures from <= r <= |openings|
    ensures forall k :: from <= k < r ==> |openings[k].siblingValues| == 1
    ensures r < |openings| ==> |openings[r].siblingValues| != 1
    decreases |openings| - from
  {
    if from == |openings| || |openings[from].siblingValues| != 1 then from
    else FirstBadSibling(openings, from + 1)
  }

  /** The first sibling of every round. */
  function Siblings(openings: seq<Opening>): (r: seq<Ef>)
    requires forall o :: o in openings ==> |o.siblingValues| >= 1
    ensures |r| == |openings|
  {
    seq(|openings|, k requires 0 <= k < |openings| => openings[k].siblingValues[0])
  }

  /** What the forward walk returns. */
  function Extracted(fold: RowFold, openings: seq<Opening>, betas: seq<Ef>, queryIndex: nat, extraBits: nat,
                     logBlowup: nat, finalPoly: Ef, reduced: seq<Reduced>, maxRounds: nat): Result<seq<FoldWitness>>
  {
    if |openings| != |betas| then Err(LengthMismatch)
    else if |openings| > maxRounds then Err(TooManyRounds)
    else if exists o :: o in openings && o.logArity != 1 then Err(UnsupportedArity)
    else
      var bad := FirstBadSibling(openings, 0);
      if bad < |openings| then Err(SiblingCount(bad))
      else
        var start := Start(queryIndex, extraBits, |openings| + logBlowup, reduced);
        var sibs := Siblings(openings);
        var last := Finish(fold, start, sibs, betas);
        if last.folded != finalPoly then Err(FinalPolyMismatch)
        else if last.ros != [] then Err(UnusedReduced)
        else Ok(Rounds(fold, start, sibs, betas))
  }

  lemma RoundsUnfold(fold: RowFold, st: WalkState, sibs: seq<Ef>, betas: seq<Ef>, k: nat)
    requires |sibs| == |betas| <= st.logCurrent
    requires k < |sibs|
    ensures var mid := Finish(fold, st, sibs[..k], betas[..k]);
      && Rounds(fold, st, sibs, betas)[k] == Witness(mid, betas[k], sibs[k])
      && Finish(fold, st, sibs[..k + 1], betas[..k + 1]) == Advance(fold, mid, betas[k], sibs[k])
    decreases k
  {
    hide EAdd;
    if k == 0 {
      assert sibs[..0] == [] && betas[..0] == [];
      assert sibs[..1][1..] == [] && betas[..1][1..] == [];
    } else {
      RoundsUnfold(fold, Advance(fold, st, betas[0], sibs[0]), sibs[1..], betas[1..], k - 1);
      assert sibs[..k][1..] == sibs[1..][..k - 1] && betas[..k][1..] == betas[1..][..k - 1];
      assert sibs[..k + 1][1..] == sibs[1..][..k] && betas[..k + 1][1..] == betas[1..][..k];
    }
  }

  lemma FinishNone(fold: RowFold, st: WalkState)
    ensures Finish(fold, st, [], []) == st
  {
  }

  /** One loop iteration, with the lists cut at the first malformed round. */
  lemma WalkStep(fold: RowFold, st: WalkState, sibs: seq<Ef>, betas: seq<Ef>, bad: nat, k: nat)
    requires |sibs| == bad <= |betas| && bad <= st.logCurrent
    requires k < bad
    ensures var mid := Finish(fold, st, sibs[..k], betas[..k]);
      && Rounds(fold, st, sibs, betas[..bad])[k] == Witness(mid, betas[k], sibs[k])
      && Finish(fold, st, sibs[..k + 1], betas[..k + 1]) == Advance(fold, mid, betas[k], sibs[k])
  {
    hide Finish, Rounds, Advance, Witness;
    RoundsUnfold(fold, st, sibs, betas[..bad], k);
    assert betas[..bad][..k] == betas[..k] && betas[..bad][..k + 1] == betas[..k + 1];
  }

  // ---- First copy: extract_query_fold_chain_forward ----

  method ExtractQueryFoldChainForward(g: Tower, openings: seq<Opening>, betas: seq<Ef>, queryIndex: nat,
                                      extraBits: nat, logBlowup: nat, finalPoly: Ef, reduced: seq<Reduced>,
                                      maxRounds: nat)
    returns (r: Result<seq<FoldWitness>>)
    requires |openings| + logBlowup + 2 < |g.pts|
    ensures r == Extracted(XFold(g), openings, betas, queryIndex, extraBits, logBlowup, finalPoly, reduced, maxRounds)
  {
    hide EAdd, FoldXRow, Finish, Rounds, FirstBadSibling, Shr;
    if |openings| != |betas| {
      return Err(LengthMismatch);
    }
    if |openings| > maxRounds {
      return Err(TooManyRounds);
    }
    if exists o :: o in openings && o.logArity != 1 {
      return Err(UnsupportedArity);
    }
    var index := Shr(queryIndex, extraBits);
    var logCurrent := |openings| + logBlowup;
    var foldedEval := ZERO;
    var roPos := 0;
    var witnesses := [];
    ghost var bad := FirstBadSibling(openings, 0);
    ghost var start := Start(queryIndex, extraBits, |openings| + logBlowup, reduced);
    ghost var sibs := Siblings(openings[..bad]);
    FinishNone(XFold(g), start);
    assert sibs[..0] == [] && betas[..0] == [];
    for round := 0 to |openings|
      invariant round <= bad
      invariant roPos <= |reduced|
      invariant logCurrent == |openings| + logBlowup - round
      invariant WalkState(index, logCurrent, foldedEval, reduced[roPos..])
                == Finish(XFold(g), start, sibs[..round], betas[..round])
      invariant witnesses == Rounds(XFold(g), start, sibs, betas[..bad])[..round]
    {
      ghost var mid := WalkState(index, logCurrent, foldedEval, reduced[roPos..]);
      if roPos < |reduced| && reduced[roPos].logHeight == logCurrent {
        foldedEval := EAdd(foldedEval, reduced[roPos].ro);
        roPos := roPos + 1;
      }
      if |openings[round].siblingValues| != 1 {
        return Err(SiblingCount(round));
      }
      assert round < bad;
      var sibling := openings[round].siblingValues[0];
      assert WalkState(index, logCurrent, foldedEval, reduced[roPos..]) == Absorb(mid);
      var v0, v1 := foldedEval, sibling;
      if index % 2 != 0 {
        v0, v1 := sibling, foldedEval;
      }
      var logFolded := logCurrent - 1;
      index := index / 2;
      var w := FoldWitness(index, logFolded, betas[round], v0, v1);
      assert w == Witness(mid, betas[round], sibs[round]);
      WalkStep(XFold(g), start, sibs, betas, bad, round);
      witnesses := witnesses + [w];
      foldedEval := FoldXRow(g, index, logFolded, betas[round], v0, v1);
      logCurrent := logFolded;
    }
    assert openings[..bad] == openings && betas[..|openings|] == betas && sibs[..|openings|] == sibs;
    assert sibs == Siblings(openings);
    if logCurrent != logBlowup {
      return Err(FinalHeight);
    }
    if foldedEval != finalPoly {
      return Err(FinalPolyMismatch);
    }
    if roPos < |reduced| {
      return Err(UnusedReduced);
    }
    assert witnesses == Rounds(XFold(g), start, sibs, betas);
    return Ok(witnesses);
  }

  // ---- Second copy: verify_commit_phase_mmcs ----

  const AGG_FRI_MAX_ROUNDS := 4

  /** verifyBatch(round, log height, index, row) stands for the commitment scheme's
      check of that round's opening. */
  method VerifyCommitPhaseMmcs(g: Tower, openings: seq<Opening>, betas: seq<Ef>, commits: nat,
                               verifyBatch: (nat, nat, nat, seq<Ef>) -> bool,
                               queryIndex: nat, extraBits: nat, logBlowup: nat, finalPoly: Ef,
                               reduced: seq<Reduced>)
    returns (r: Result<()>)
    requires |openings| + logBlowup + 2 < |g.pts|
    ensures r.Ok? <==>
      var walk := Extracted(XFold(g), openings, betas, queryIndex, extraBits, logBlowup, finalPoly, reduced, AGG_FRI_MAX_ROUNDS);
      && |openings| == commits && walk.Ok?
      && forall k :: 0 <= k < |walk.value| ==>
           var w := walk.value[k]; verifyBatch(k, w.logFolded, w.index, [w.v0, w.v1])
  {
    hide EAdd, FoldXRow, Finish, Rounds, FirstBadSibling, Shr;
    if |openings| != |betas| || |openings| != commits {
      return Err(LengthMismatch);
    }
    if |openings| > AGG_FRI_MAX_ROUNDS {
      return Err(TooManyRounds);
    }
    if exists o :: o in openings && o.logArity != 1 {
      return Err(UnsupportedArity);
    }
    var index := Shr(queryIndex, extraBits);
    var logCurrent := |openings| + logBlowup;
    var foldedEval := ZERO;
    var roPos := 0;
    ghost var bad := FirstBadSibling(openings, 0);
    ghost var start := Start(queryIndex, extraBits, |openings| + logBlowup, reduced);
    ghost var sibs := Siblings(openings[..bad]);
    FinishNone(XFold(g), start);
    assert sibs[..0] == [] && betas[..0] == [];
    ghost var ws := Rounds(XFold(g), start, sibs, betas[..bad]);
    for round := 0 to |openings|
      invariant round <= bad
      invariant roPos <= |reduced|
      invariant logCurrent == |openings| + logBlowup - round
      invariant WalkState(index, logCurrent, foldedEval, reduced[roPos..])
                == Finish(XFold(g), start, sibs[..round], betas[..round])
      invariant forall k :: 0 <= k < round ==> verifyBatch(k, ws[k].logFolded, ws[k].index, [ws[k].v0, ws[k].v1])
    {
      ghost var mid := WalkState(index, logCurrent, foldedEval, reduced[roPos..]);
      if roPos < |reduced| && reduced[roPos].logHeight == logCurrent {
        foldedEval := EAdd(foldedEval, reduced[roPos].ro);
        roPos := roPos + 1;
      }
      if |openings[round].siblingValues| != 1 {
        return Err(SiblingCount(round));
      }
      assert round < bad;
      var sibling := openings[round].siblingValues[0];
      assert WalkState(index, logCurrent, foldedEval, reduced[roPos..]) == Absorb(mid);
      var evals := [ZERO, ZERO];
      evals := evals[index % 2 := foldedEval];
      evals := evals[1 - index % 2 := sibling];
      var logFolded := logCurrent - 1;
      index := index / 2;
      ghost var w := Witness(mid, betas[round], sibs[round]);
      assert w.index == index && w.logFolded == logFolded && evals == [w.v0, w.v1];
      WalkStep(XFold(g), start, sibs, betas, bad, round);
      assert w == ws[round];
      if !verifyBatch(round, logFolded, index, evals) {
        assert bad == |openings| ==> betas[..bad] == betas && sibs == Siblings(openings) by {
          assert bad == |openings| ==> openings[..bad] == openings;
        }
        return Err(PathRejected(round));
      }
      foldedEval := FoldXRow(g, index, logFolded, betas[round], evals[0], evals[1]);
      logCurrent := logFolded;
    }
    assert openings[..bad] == openings && betas[..|openings|] == betas && sibs[..|openings|] == sibs;
    assert sibs == Siblings(openings);
    if logCurrent != logBlowup {
      return Err(FinalHeight);
    }
    if foldedEval != finalPoly {
      return Err(FinalPolyMismatch);
    }
    if roPos < |reduced| {
      return Err(UnusedReduced);
    }
    return Ok(());
  }

  // ---- Third copy: the commit-phase walk of the challenge-Mmcs bundle ----

  function FlattenPair(v0: Ef, v1: Ef): seq<Fp> {
    [v0.c0, v0.c1, v0.c2, v1.c0, v1.c1, v1.c2]
  }

  /** The bundle walk makes no check of its own; its only failure is a failing path. It
      reads one beta a round, so betas past the openings stay unread.
      genPath(round, row, index) stands for the Merkle path generator. */
  method CommitPhaseBundle<Path>(g: Tower, openings: seq<Opening>, betas: seq<Ef>,
                                 genPath: (nat, seq<Fp>, nat) -> Option<Path>,
                                 queryIndex: nat, extraBits: nat, logBlowup: nat, reduced: seq<Reduced>)
    returns (r: Option<(seq<nat>, seq<Path>)>)
    requires |openings| + logBlowup + 2 < |g.pts|
    requires |openings| <= |betas|
    requires forall o :: o in openings ==> |o.siblingValues| >= 1
    ensures var ws := Rounds(XFold(g), Start(queryIndex, extraBits, |openings| + logBlowup, reduced), Siblings(openings), betas[..|openings|]);
      && (r.Some? <==> forall k :: 0 <= k < |ws| ==> genPath(k, FlattenPair(ws[k].v0, ws[k].v1), ws[k].index).Some?)
      && (r.Some? ==>
            && |r.value.0| == |r.value.1| == |ws|
            && (forall k :: 0 <= k < |ws| ==> r.value.0[k] == ws[k].index)
            && (forall k :: 0 <= k < |ws| ==>
                  genPath(k, FlattenPair(ws[k].v0, ws[k].v1), ws[k].index) == Some(r.value.1[k])))
  {
    hide EAdd, FoldXRow, Finish, Rounds, FirstBadSibling, Shr;
    var commitIndices, commitPaths := [], [];
    var index := Shr(queryIndex, extraBits);
    var logCurrent := |openings| + logBlowup;
    var foldedEval := ZERO;
    var roPos := 0;
    ghost var start := Start(queryIndex, extraBits, |openings| + logBlowup, reduced);
    ghost var sibs := Siblings(openings);
    FinishNone(XFold(g), start);
    assert sibs[..0] == [] && betas[..0] == [] && sibs[..|openings|] == sibs;
    ghost var ws := Rounds(XFold(g), start, sibs, betas[..|openings|]);
    for round := 0 to |openings|
      invariant roPos <= |reduced|
      invariant logCurrent == |openings| + logBlowup - round
      invariant WalkState(index, logCurrent, foldedEval, reduced[roPos..])
                == Finish(XFold(g), start, sibs[..round], betas[..round])
      invariant |commitIndices| == |commitPaths| == round
      invariant forall k :: 0 <= k < round ==> commitIndices[k] == ws[k].index
      invariant forall k :: 0 <= k < round ==>
        genPath(k, FlattenPair(ws[k].v0, ws[k].v1), ws[k].index) == Some(commitPaths[k])
    {
      ghost var mid := WalkState(index, logCurrent, foldedEval, reduced[roPos..]);
      if roPos < |reduced| && reduced[roPos].logHeight == logCurrent {
        foldedEval := EAdd(foldedEval, reduced[roPos].ro);
        roPos := roPos + 1;
      }
      var sibling := openings[round].siblingValues[0];
      assert WalkState(index, logCurrent, foldedEval, reduced[roPos..]) == Absorb(mid);
      var evals := [ZERO, ZERO];
      evals := evals[index % 2 := foldedEval];
      evals := evals[1 - index % 2 := sibling];
      var logFolded := logCurrent - 1;
      index := index / 2;
      ghost var w := Witness(mid, betas[round], sibs[round]);
      assert w.index == index && w.logFolded == logFolded && evals == [w.v0, w.v1];
      WalkStep(XFold(g), start, sibs, betas, |openings|, round);
      var path := genPath(round, FlattenPair(evals[0], evals[1]), index);
      if path.None? {
        return None;
      }
      commitIndices := commitIndices + [index];
      commitPaths := commitPaths + [path.value];
      foldedEval := FoldXRow(g, index, logFolded, betas[round], evals[0], evals[1]);
      logCurrent := logFolded;
    }
    return Some((commitIndices, commitPaths));
  }
}
