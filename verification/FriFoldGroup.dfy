/** Many fold steps packed into one statement. */
module FriFoldGroup {

  import opened Options
  import opened M31
  import opened Ef3
  import opened EfLimbs
  import opened PowersOfTwo
  import opened Circle
  import opened FoldGeometry
  import opened FoldRows

  const EF_LIMBS: nat := 3
  const FRI_FOLD_GROUP_STEP_PUBLIC: nat := 10

  datatype FriFoldStep = FriFoldStep(index: nat, logFolded: nat, tInv: Fp, beta: Ef, v0: Ef, v1: Ef, out: Ef)

  /** The fold equation of one step. */
  predicate FoldHolds(s: FriFoldStep) { s.out == FoldFormula(s.tInv, s.beta, s.v0, s.v1) }

  // ---- Layout of the public values ----

  function HeaderLen(shared: bool): nat { if shared then 1 + EF_LIMBS else 1 }

  function PvStride(shared: bool): nat { if shared then FRI_FOLD_GROUP_STEP_PUBLIC else FRI_FOLD_GROUP_STEP_PUBLIC + EF_LIMBS }

  function NumPublic(count: nat, shared: bool): nat { HeaderLen(shared) + count * PvStride(shared) }

  lemma StrideEnds(count: nat, i: nat, stride: nat)
    requires i < count
    ensures i * stride + stride <= count * stride
  {
    assert (i + 1) * stride <= count * stride;
  }

  /** The step that the public values show at position i. */
  function StepAt(pv: seq<Fp>, count: nat, shared: bool, i: nat): FriFoldStep
    requires |pv| == NumPublic(count, shared) && i < count
  {
    StrideEnds(count, i, PvStride(shared));
    var base := HeaderLen(shared) + i * PvStride(shared);
    var betaBase, valsBase := if shared then 1 else base + 1, if shared then base + 1 else base + 1 + EF_LIMBS;
    FriFoldStep(0, 0, pv[base], EfAt(pv, betaBase), EfAt(pv, valsBase), EfAt(pv, valsBase + 3), EfAt(pv, valsBase + 6))
  }

  function StepPublics(s: FriFoldStep, shared: bool): (r: seq<Fp>)
    ensures |r| == PvStride(shared)
  {
    [s.tInv] + (if shared then [] else Limbs(s.beta)) + Limbs(s.v0) + Limbs(s.v1) + Limbs(s.out)
  }

  // ---- The circuit ----

  /** The fold equation as the circuit computes it, limb by limb. */
  predicate StepConstraint(s: FriFoldStep) {
    var sum, diff := EAdd(s.v0, s.v1), ESub(s.v0, s.v1);
    AssertEq(EHalve(EAdd(sum, EfMulLimbs(s.beta, EScale(diff, s.tInv)))), s.out)
  }

  /** All constraints on the one-column trace and the public values. */
  ghost predicate Satisfies(count: nat, shared: bool, trace: seq<Fp>, pv: seq<Fp>) {
    && |pv| == NumPublic(count, shared) && |trace| > 0
    && (forall t :: 0 <= t < |trace| ==> Mul(trace[t], Sub(trace[t], 1)) == 0 && Sub(trace[t], 1) == 0)
    && (forall t :: 0 < t < |trace| ==> Sub(trace[t], trace[t - 1]) == 0)
    && Sub(pv[0], Red(count)) == 0
    && (forall i: nat :: i < count ==> StepConstraint(StepAt(pv, count, shared, i)))
  }

  lemma ConstraintIsFold(s: FriFoldStep)
    ensures StepConstraint(s) <==> FoldHolds(s)
  {
    hide EAdd, ESub, EHalve, EScale, EMul, EfMulLimbs, AssertEq, Embed;
    var diff := ESub(s.v0, s.v1);
    EScaleIsMul(diff, s.tInv);
    LimbsAreProduct(s.beta, EScale(diff, s.tInv));
    AssertEqIff(FoldFormula(s.tInv, s.beta, s.v0, s.v1), s.out);
  }

  /** Soundness: every step shown by satisfying public values folds correctly. */
  lemma SatisfiedFolds(count: nat, shared: bool, trace: seq<Fp>, pv: seq<Fp>, i: nat)
    requires Satisfies(count, shared, trace, pv) && i < count
    ensures FoldHolds(StepAt(pv, count, shared, i))
  {
    hide StepConstraint, FoldHolds, StepAt;
    ConstraintIsFold(StepAt(pv, count, shared, i));
  }

  /** Exactly what the circuit asks of any trace and public values: a trace of ones, the
      length of the layout, the count, and a correct fold at every position. */
  lemma SatisfiesIff(count: nat, shared: bool, trace: seq<Fp>, pv: seq<Fp>)
    ensures Satisfies(count, shared, trace, pv) <==>
      && |pv| == (if shared then 4 + 10 * count else 1 + 13 * count)
      && trace != [] && (forall t :: 0 <= t < |trace| ==> trace[t] == 1)
      && pv[0] == count % P
      && (forall i: nat :: i < count ==> FoldHolds(StepAt(pv, count, shared, i)))
  {
    hide StepConstraint, FoldHolds, StepAt, Mul;
    if |pv| == NumPublic(count, shared) {
      forall i: nat | i < count
        ensures StepConstraint(StepAt(pv, count, shared, i)) <==> FoldHolds(StepAt(pv, count, shared, i))
      {
        ConstraintIsFold(StepAt(pv, count, shared, i));
      }
    }
    if forall t :: 0 <= t < |trace| ==> trace[t] == 1 {
      OnesHold(trace);
    }
  }

  // ---- Packing ----

  /** True when there are several steps and all share one challenge. */
  predicate BetasAreShared(steps: seq<FriFoldStep>) {
    |steps| > 1 && forall i :: 0 <= i < |steps| ==> steps[i].beta == steps[0].beta
  }

  function Header(steps: seq<FriFoldStep>): (r: seq<Fp>)
    ensures |r| == HeaderLen(BetasAreShared(steps))
  {
    [Red(|steps|)] + (if BetasAreShared(steps) then Limbs(steps[0].beta) else [])
  }

  method BuildGroupPublicValues(steps: seq<FriFoldStep>) returns (pv: seq<Fp>)
    ensures |pv| == NumPublic(|steps|, BetasAreShared(steps))
    ensures Packs(pv, steps)
  {
    hide Red, StepPublics, Limbs, PackedAt;
    var shared := BetasAreShared(steps);
    pv := [Red(|steps|)];
    if shared {
      pv := pv + Limbs(steps[0].beta);
    }
    assert pv == Header(steps);
    for i := 0 to |steps|
      invariant |pv| == NumPublic(i, shared) && pv[..HeaderLen(shared)] == Header(steps)
      invariant forall j: nat :: j < i ==> PackedAt(pv, steps[j], shared, HeaderLen(shared) + j * PvStride(shared))
    {
      ghost var before := pv;
      pv := PushStep(pv, steps[i], shared);
      assert pv[..HeaderLen(shared)] == before[..HeaderLen(shared)];
      PackedLast(before, steps[i], shared);
      forall j: nat | j < i
        ensures PackedAt(pv, steps[j], shared, HeaderLen(shared) + j * PvStride(shared))
      {
        PackedGrows(before, pv, steps[j], shared, HeaderLen(shared) + j * PvStride(shared));
      }
    }
  }

  /** The publics of one step. */
  method PushStep(pv0: seq<Fp>, s: FriFoldStep, shared: bool) returns (pv: seq<Fp>)
    ensures pv == pv0 + StepPublics(s, shared)
  {
    pv := pv0 + [s.tInv];
    if !shared {
      pv := pv + Limbs(s.beta);
    }
    pv := pv + Limbs(s.v0);
    pv := pv + Limbs(s.v1);
    pv := pv + Limbs(s.out);
    assert pv == pv0 + StepPublics(s, shared);
  }

  lemma PackedLast(before: seq<Fp>, s: FriFoldStep, shared: bool)
    ensures PackedAt(before + StepPublics(s, shared), s, shared, |before|)
  {
    hide StepPublics;
  }

  /** The publics of one step stand at off. */
  ghost predicate PackedAt(pv: seq<Fp>, s: FriFoldStep, shared: bool, off: nat) {
    off + PvStride(shared) <= |pv| && pv[off..off + PvStride(shared)] == StepPublics(s, shared)
  }

  lemma PackedGrows(pv: seq<Fp>, more: seq<Fp>, s: FriFoldStep, shared: bool, off: nat)
    requires PackedAt(pv, s, shared, off) && pv <= more
    ensures PackedAt(more, s, shared, off)
  {
    hide StepPublics;
    var end := off + PvStride(shared);
    assert more[off..end] == pv[off..end];
  }

  ghost predicate Packs(pv: seq<Fp>, steps: seq<FriFoldStep>) {
    var shared := BetasAreShared(steps);
    && |pv| == NumPublic(|steps|, shared) && pv[..HeaderLen(shared)] == Header(steps)
    && forall j: nat :: j < |steps| ==> PackedAt(pv, steps[j], shared, HeaderLen(shared) + j * PvStride(shared))
  }

  /** At least two steps, no two with different challenges. */
  ghost predicate OneChallenge(steps: seq<FriFoldStep>) {
    |steps| >= 2 && forall i, j :: 0 <= i < |steps| && 0 <= j < |steps| ==> steps[i].beta == steps[j].beta
  }

  lemma SharedIff(steps: seq<FriFoldStep>)
    ensures BetasAreShared(steps) <==> OneChallenge(steps)
  {
  }

  /** The challenge is written once exactly when there are at least two steps and no two
      differ in it: then 4 + 10 n values, else 1 + 13 n. */
  lemma PackedLength(pv: seq<Fp>, steps: seq<FriFoldStep>)
    requires Packs(pv, steps)
    ensures pv != [] && pv[0] == |steps| % P
    ensures |pv| == if OneChallenge(steps) then 4 + 10 * |steps| else 1 + 13 * |steps|
  {
    hide PackedAt, BetasAreShared, OneChallenge;
    SharedIff(steps);
    assert pv[0] == pv[..HeaderLen(BetasAreShared(steps))][0];
  }

  /** The values of step i, one by one, in either layout. */
  lemma PackedFields(pv: seq<Fp>, steps: seq<FriFoldStep>, i: nat)
    requires Packs(pv, steps) && i < |steps|
    ensures var s, v0, v1, out := steps[i], steps[i].v0, steps[i].v1, steps[i].out;
      if OneChallenge(steps) then
        && 14 + 10 * i <= |pv| && pv[1..4] == [s.beta.c0, s.beta.c1, s.beta.c2]
        && pv[4 + 10 * i..14 + 10 * i] == [s.tInv, v0.c0, v0.c1, v0.c2, v1.c0, v1.c1, v1.c2, out.c0, out.c1, out.c2]
      else
        && 14 + 13 * i <= |pv|
        && pv[1 + 13 * i..14 + 13 * i] == [s.tInv, s.beta.c0, s.beta.c1, s.beta.c2, v0.c0, v0.c1, v0.c2, v1.c0, v1.c1, v1.c2, out.c0, out.c1, out.c2]
  {
    hide Red, StepPublics, BetasAreShared, OneChallenge;
    var shared := BetasAreShared(steps);
    SharedIff(steps);
    assert PackedAt(pv, steps[i], shared, HeaderLen(shared) + i * PvStride(shared));
    StepPublicsAre(steps[i], shared);
    if shared {
      HeaderBeta(pv, steps, i);
    }
  }

  lemma StepPublicsAre(s: FriFoldStep, shared: bool)
    ensures StepPublics(s, shared) ==
            [s.tInv] + (if shared then [] else [s.beta.c0, s.beta.c1, s.beta.c2])
            + [s.v0.c0, s.v0.c1, s.v0.c2, s.v1.c0, s.v1.c1, s.v1.c2, s.out.c0, s.out.c1, s.out.c2]
  {
  }

  lemma HeaderBeta(pv: seq<Fp>, steps: seq<FriFoldStep>, i: nat)
    requires Packs(pv, steps) && i < |steps| && BetasAreShared(steps)
    ensures |pv| >= 4 && pv[1..4] == [steps[i].beta.c0, steps[i].beta.c1, steps[i].beta.c2]
  {
    hide Red, PackedAt;
    SharedBeta(pv, steps, i);
  }

  /** Unpacking gives each step back, its index and height aside. */
  lemma UnpackPacked(pv: seq<Fp>, steps: seq<FriFoldStep>, i: nat)
    requires Packs(pv, steps) && i < |steps|
    ensures StepAt(pv, |steps|, BetasAreShared(steps), i) == steps[i].(index := 0, logFolded := 0)
  {
    hide Red, StepPublics, BetasAreShared;
    var shared := BetasAreShared(steps);
    StrideEnds(|steps|, i, PvStride(shared));
    var base, s := HeaderLen(shared) + i * PvStride(shared), steps[i];
    assert PackedAt(pv, s, shared, base);
    WindowLimbs(pv, base, s, shared);
    if shared {
      SharedBeta(pv, steps, i);
    }
  }

  /** The limbs of a packed step, one by one. */
  lemma WindowLimbs(pv: seq<Fp>, base: nat, s: FriFoldStep, shared: bool)
    requires PackedAt(pv, s, shared, base)
    ensures var vals := if shared then base + 1 else base + 1 + EF_LIMBS;
      && vals + 9 <= |pv| && pv[base] == s.tInv && (!shared ==> EfAt(pv, base + 1) == s.beta)
      && EfAt(pv, vals) == s.v0 && EfAt(pv, vals + 3) == s.v1 && EfAt(pv, vals + 6) == s.out
  {
    var n := PvStride(shared);
    var window := pv[base..base + n];
    assert window == StepPublics(s, shared);
    forall k | 0 <= k < n
      ensures pv[base + k] == window[k]
    {
    }
    var v := if shared then 1 else 4;
    assert window[0] == pv[base] && window[v] == pv[base + v] && window[v + 1] == pv[base + v + 1] && window[v + 2] == pv[base + v + 2];
    assert window[v + 3] == pv[base + v + 3] && window[v + 4] == pv[base + v + 4] && window[v + 5] == pv[base + v + 5];
    assert window[v + 6] == pv[base + v + 6] && window[v + 7] == pv[base + v + 7] && window[v + 8] == pv[base + v + 8];
    if !shared {
      assert window[1] == pv[base + 1] && window[2] == pv[base + 2] && window[3] == pv[base + 3];
    }
  }

  lemma SharedBeta(pv: seq<Fp>, steps: seq<FriFoldStep>, i: nat)
    requires Packs(pv, steps) && i < |steps| && BetasAreShared(steps)
    ensures |pv| >= 4 && EfAt(pv, 1) == steps[i].beta
  {
    hide Red, PackedAt;
    assert pv[..4] == Header(steps);
    assert pv[1] == pv[..4][1] && pv[2] == pv[..4][2] && pv[3] == pv[..4][3];
  }

  /** The packed publics satisfy the circuit exactly when every step folds correctly,
      with the challenge shared or not. */
  lemma GroupHoldsIffAllFold(steps: seq<FriFoldStep>, pv: seq<Fp>, trace: seq<Fp>)
    requires Packs(pv, steps) && |trace| > 0 && forall t :: 0 <= t < |trace| ==> trace[t] == 1
    ensures Satisfies(|steps|, BetasAreShared(steps), trace, pv) <==> forall i :: 0 <= i < |steps| ==> FoldHolds(steps[i])
  {
    hide StepConstraint, StepAt, PackedAt, FoldFormula, Red, Mul;
    var shared := BetasAreShared(steps);
    OnesHold(trace);
    assert pv[0] == pv[..HeaderLen(shared)][0];
    forall i: nat | i < |steps|
      ensures StepConstraint(StepAt(pv, |steps|, shared, i)) <==> FoldHolds(steps[i])
    {
      UnpackPacked(pv, steps, i);
      ConstraintIsFold(StepAt(pv, |steps|, shared, i));
    }
  }

  lemma OnesHold(trace: seq<Fp>)
    requires forall t :: 0 <= t < |trace| ==> trace[t] == 1
    ensures forall t :: 0 <= t < |trace| ==> Mul(trace[t], Sub(trace[t], 1)) == 0 && Sub(trace[t], 1) == 0
    ensures forall t :: 0 < t < |trace| ==> Sub(trace[t], trace[t - 1]) == 0
  {
    MulZero(1);
  }

  // ---- Native checks ----

  const MAX_LOG_FOLDED: nat := 16

  predicate InDomain(g: Tower, s: FriFoldStep) {
    s.logFolded + 3 < |g.pts| && s.index < Pow2(s.logFolded)
  }

  predicate FoldXNativeOk(g: Tower, s: FriFoldStep)
    requires InDomain(g, s)
  {
    hide FoldXTwiddleInv, FoldXRow;
    s.tInv == FoldXTwiddleInv(g, s.index, s.logFolded) && s.out == FoldXRow(g, s.index, s.logFolded, s.beta, s.v0, s.v1)
  }

  predicate FoldYNativeOk(g: Tower, s: FriFoldStep)
    requires InDomain(g, s)
  {
    hide FoldYTwiddleInv, FoldYRow;
    s.tInv == FoldYTwiddleInv(g, s.index, s.logFolded) && s.out == FoldYRow(g, s.index, s.logFolded, s.beta, s.v0, s.v1)
  }

  /** A natively checked step meets the circuit's fold equation. */
  lemma NativeOkFolds(g: Tower, s: FriFoldStep)
    requires InDomain(g, s) && (FoldXNativeOk(g, s) || FoldYNativeOk(g, s))
    ensures FoldHolds(s)
  {
    hide FoldXTwiddleInv, FoldYTwiddleInv, FoldFormula;
  }

  function StepLimbs(g: Tower, index: nat, logFolded: nat, beta: Ef, v0: Ef, v1: Ef, onX: bool): Option<FriFoldStep>
    requires MAX_LOG_FOLDED + 3 < |g.pts|
  {
    hide FoldXTwiddleInv, FoldYTwiddleInv, FoldXRow, FoldYRow;
    if logFolded == 0 || logFolded > MAX_LOG_FOLDED then None
    else if index >= Pow2(logFolded) then None
    else if onX then
      Some(FriFoldStep(index, logFolded, FoldXTwiddleInv(g, index, logFolded), beta, v0, v1, FoldXRow(g, index, logFolded, beta, v0, v1)))
    else
      Some(FriFoldStep(index, logFolded, FoldYTwiddleInv(g, index, logFolded), beta, v0, v1, FoldYRow(g, index, logFolded, beta, v0, v1)))
  }

  /** A step is built exactly within the supported range, and then passes its own native
      check and the circuit. */
  lemma BuiltStepPasses(g: Tower, index: nat, logFolded: nat, beta: Ef, v0: Ef, v1: Ef, onX: bool)
    requires MAX_LOG_FOLDED + 3 < |g.pts|
    ensures var r := StepLimbs(g, index, logFolded, beta, v0, v1, onX);
      && (r.Some? <==> 1 <= logFolded <= MAX_LOG_FOLDED && index < Pow2(logFolded))
      && (r.Some? ==> InDomain(g, r.value) && FoldHolds(r.value) && (r.value.beta, r.value.v0, r.value.v1) == (beta, v0, v1)
                      && (if onX then FoldXNativeOk(g, r.value) else FoldYNativeOk(g, r.value)))
  {
    hide FoldXTwiddleInv, FoldYTwiddleInv, FoldFormula;
  }

  /** A proper split: some y steps, then some x steps. */
  ghost predicate SplitsAt(yOk: FriFoldStep -> bool, xOk: FriFoldStep -> bool, steps: seq<FriFoldStep>, n: nat) {
    && 0 < n < |steps|
    && (forall i :: 0 <= i < n ==> yOk(steps[i]))
    && (forall i :: n <= i < |steps| ==> xOk(steps[i]))
  }

  /** Greedy check: it accepts exactly when some proper split exists and not every step
      passes as a y step. */
  method NativeCheckYxSplit(yOk: FriFoldStep -> bool, xOk: FriFoldStep -> bool, steps: seq<FriFoldStep>) returns (ok: bool)
    ensures ok <==> (exists n: nat :: SplitsAt(yOk, xOk, steps, n)) && !(forall i :: 0 <= i < |steps| ==> yOk(steps[i]))
    ensures ok <==>
      && steps != [] && yOk(steps[0]) && (exists j :: 0 <= j < |steps| && !yOk(steps[j]))
      && (forall j, i :: 0 <= j <= i < |steps| && !yOk(steps[j]) ==> xOk(steps[i]))
  {
    if |steps| < 2 {
      return false;
    }
    var nY := 0;
    while nY < |steps| && yOk(steps[nY])
      invariant nY <= |steps| && forall i :: 0 <= i < nY ==> yOk(steps[i])
    {
      nY := nY + 1;
    }
    if nY == 0 || nY == |steps| {
      return false;
    }
    for i := nY to |steps|
      invariant forall j :: nY <= j < i ==> xOk(steps[j])
    {
      if !xOk(steps[i]) {
        forall n: nat
          ensures !SplitsAt(yOk, xOk, steps, n)
        {
          if n > nY {
            assert !yOk(steps[nY]);
          }
        }
        return false;
      }
    }
    assert SplitsAt(yOk, xOk, steps, nY);
    return true;
  }
}
