/** The streaming Born circuit: constraints over a whole trace. */
module BornAir {

  import opened M31
  import opened Primality

  const BORN_ZK_MAX_OUTCOMES: nat := 64
  const BORN_ZK_SCALE: Fp := 10_000
  const COL_RE: nat := 0
  const COL_IM: nat := 1

  type Row = seq<Fp>

  /** Columns: re, im, sel[K], mass[K], claim[K], is_pad. */
  datatype DistributionAir = DistributionAir(dim: nat, numOutcomes: nat) {

    function Width(): nat { 2 + 3 * numOutcomes + 1 }

    function ColSel(k: nat): nat { 2 + k }

    function ColMass(k: nat): nat { 2 + numOutcomes + k }

    function ColClaim(k: nat): nat { 2 + 2 * numOutcomes + k }

    function ColIsPad(): nat { 2 + 3 * numOutcomes }

    // Entries of a row.

    predicate Shaped(row: Row) { |row| == Width() }

    function Sel(row: Row, k: nat): Fp
      requires Shaped(row) && k < numOutcomes
    { row[ColSel(k)] }

    function Mass(row: Row, k: nat): Fp
      requires Shaped(row) && k < numOutcomes
    { row[ColMass(k)] }

    function Claim(row: Row, k: nat): Fp
      requires Shaped(row) && k < numOutcomes
    { row[ColClaim(k)] }

    function IsPad(row: Row): Fp
      requires Shaped(row)
    { row[ColIsPad()] }

    function Active(row: Row): Fp
      requires Shaped(row)
    { Sub(1, IsPad(row)) }

    function Amp2(row: Row): Fp
      requires Shaped(row)
    { Add(Square(row[COL_RE]), Square(row[COL_IM])) }

    /** The sum of the first n selectors. */
    function SelSum(row: Row, n: nat): Fp
      requires Shaped(row) && n <= numOutcomes
    { if n == 0 then 0 else Add(SelSum(row, n - 1), Sel(row, n - 1)) }

    // The constraints, each a product of its conditions and an expression that must
    // vanish.

    predicate AssertBool(cond: Fp, x: Fp) { Mul(cond, Mul(x, Sub(x, 1))) == 0 }

    ghost predicate RowHolds(row: Row)
      requires Shaped(row)
    {
      && AssertBool(1, IsPad(row))
      && (forall k: nat :: k < numOutcomes ==> AssertBool(Active(row), Sel(row, k)))
      && Mul(Active(row), Sub(SelSum(row, numOutcomes), 1)) == 0
      && Mul(IsPad(row), row[COL_RE]) == 0
      && Mul(IsPad(row), row[COL_IM]) == 0
      && (forall k: nat :: k < numOutcomes ==> Mul(IsPad(row), Sel(row, k)) == 0)
    }

    ghost predicate FirstHolds(row: Row)
      requires Shaped(row)
    {
      forall k: nat :: k < numOutcomes ==> Mul(Active(row), Sub(Mass(row, k), Mul(Sel(row, k), Amp2(row)))) == 0
    }

    ghost predicate TransitionHolds(curr: Row, next: Row)
      requires Shaped(curr) && Shaped(next)
    {
      forall k: nat :: k < numOutcomes ==> TransitionHoldsAt(curr, next, k)
    }

    predicate TransitionHoldsAt(curr: Row, next: Row, k: nat)
      requires Shaped(curr) && Shaped(next) && k < numOutcomes
    {
      && Sub(Claim(next, k), Claim(curr, k)) == 0
      && Mul(Active(next), Sub(Sub(Mass(next, k), Mass(curr, k)), Mul(Sel(next, k), Amp2(next)))) == 0
      && Mul(IsPad(next), Sub(Mass(next, k), Mass(curr, k))) == 0
      && Mul(Mul(IsPad(next), Active(curr)), Sub(Mass(curr, k), Mul(Claim(curr, k), BORN_ZK_SCALE))) == 0
    }

    ghost predicate LastHolds(row: Row)
      requires Shaped(row)
    {
      forall k: nat :: k < numOutcomes ==> Mul(Active(row), Sub(Mass(row, k), Mul(Claim(row, k), BORN_ZK_SCALE))) == 0
    }

    /** Every constraint of the circuit holds of the trace. */
    ghost predicate Satisfies(trace: seq<Row>) {
      && |trace| > 0
      && (forall t :: 0 <= t < |trace| ==> Shaped(trace[t]) && RowHolds(trace[t]))
      && FirstHolds(trace[0])
      && (forall t :: 0 < t < |trace| ==> TransitionHolds(trace[t - 1], trace[t]))
      && LastHolds(trace[|trace| - 1])
    }

    // What a trace adds up to.

    function Contribution(row: Row, k: nat): Fp
      requires Shaped(row) && k < numOutcomes
    { Mul(Sel(row, k), Amp2(row)) }

    /** The sum of sel_k (re^2 + im^2) over the first n rows. */
    function Total(trace: seq<Row>, k: nat, n: nat): Fp
      requires n <= |trace| && k < numOutcomes && forall t :: 0 <= t < |trace| ==> Shaped(trace[t])
    { if n == 0 then 0 else Add(Total(trace, k, n - 1), Contribution(trace[n - 1], k)) }

    /** Outcome j is the one selected. */
    ghost predicate OneHot(row: Row, j: nat)
      requires Shaped(row)
    {
      && j < numOutcomes && Sel(row, j) == 1
      && forall k: nat :: k < numOutcomes && k != j ==> Sel(row, k) == 0
    }
  }

  // ---- Small field facts ----

  lemma SubSub(a: Fp, b: Fp, c: Fp)
    ensures Sub(Sub(a, b), c) == 0 <==> a == Add(b, c)
  {
  }

  lemma OneMinus(x: Fp)
    requires x == 0 || x == 1
    ensures Sub(1, x) == 1 - x
  {
  }

  lemma BoolUnder(cond: Fp, x: Fp)
    ensures Mul(cond, Mul(x, Sub(x, 1))) == 0 <==> cond == 0 || x == 0 || x == 1
  {
    hide Mul;
    ZeroProduct(cond, Mul(x, Sub(x, 1)));
    BooleanIff(x);
  }

  // ---- What the constraints mean ----

  /** A row's constraints, read over the integers. */
  ghost predicate RowMeans(air: DistributionAir, row: Row)
    requires air.Shaped(row)
  {
    && (air.IsPad(row) == 0 || air.IsPad(row) == 1)
    && (air.IsPad(row) == 0 ==>
          (air.SelSum(row, air.numOutcomes) == 1
           && forall k: nat :: k < air.numOutcomes ==> air.Sel(row, k) == 0 || air.Sel(row, k) == 1))
    && (air.IsPad(row) == 1 ==>
          (row[COL_RE] == 0 && row[COL_IM] == 0 && forall k: nat :: k < air.numOutcomes ==> air.Sel(row, k) == 0))
  }

  lemma RowMeaning(air: DistributionAir, row: Row)
    requires air.Shaped(row)
    ensures air.RowHolds(row) <==> RowMeans(air, row)
  {
    hide Mul, Sub;
    var p := air.IsPad(row);
    BoolUnder(1, p);
    if p == 0 || p == 1 {
      OneMinus(p);
      ZeroProduct(p, row[COL_RE]);
      ZeroProduct(p, row[COL_IM]);
      ZeroProduct(air.Active(row), Sub(air.SelSum(row, air.numOutcomes), 1));
      SubZero(air.SelSum(row, air.numOutcomes), 1);
      forall k: nat | k < air.numOutcomes
        ensures Mul(p, air.Sel(row, k)) == 0 <==> p == 0 || air.Sel(row, k) == 0
        ensures air.AssertBool(air.Active(row), air.Sel(row, k)) <==> p == 1 || air.Sel(row, k) == 0 || air.Sel(row, k) == 1
      {
        ZeroProduct(p, air.Sel(row, k));
        BoolUnder(air.Active(row), air.Sel(row, k));
      }
    }
  }

  /** A transition's constraints for outcome k, between rows whose pad flags are bits. */
  ghost predicate TransitionMeans(air: DistributionAir, curr: Row, next: Row, k: nat)
    requires air.Shaped(curr) && air.Shaped(next) && k < air.numOutcomes
  {
    && air.Claim(next, k) == air.Claim(curr, k)
    && (air.IsPad(next) == 0 ==> air.Mass(next, k) == Add(air.Mass(curr, k), air.Contribution(next, k)))
    && (air.IsPad(next) == 1 ==> air.Mass(next, k) == air.Mass(curr, k))
    && (air.IsPad(next) == 1 && air.IsPad(curr) == 0 ==> air.Mass(curr, k) == Mul(air.Claim(curr, k), BORN_ZK_SCALE))
  }

  lemma TransitionMeaning(air: DistributionAir, curr: Row, next: Row, k: nat)
    requires air.Shaped(curr) && air.Shaped(next) && k < air.numOutcomes
    requires air.IsPad(curr) == 0 || air.IsPad(curr) == 1
    requires air.IsPad(next) == 0 || air.IsPad(next) == 1
    ensures air.TransitionHoldsAt(curr, next, k) <==> TransitionMeans(air, curr, next, k)
  {
    hide Mul, Sub, Add;
    OneMinus(air.IsPad(curr)); OneMinus(air.IsPad(next));
    SubZero(air.Claim(next, k), air.Claim(curr, k));
    ZeroProduct(air.Active(next), Sub(Sub(air.Mass(next, k), air.Mass(curr, k)), air.Contribution(next, k)));
    SubSub(air.Mass(next, k), air.Mass(curr, k), air.Contribution(next, k));
    ZeroProduct(air.IsPad(next), Sub(air.Mass(next, k), air.Mass(curr, k)));
    SubZero(air.Mass(next, k), air.Mass(curr, k));
    var claimed := Mul(air.Claim(curr, k), BORN_ZK_SCALE);
    ZeroProduct(Mul(air.IsPad(next), air.Active(curr)), Sub(air.Mass(curr, k), claimed));
    ZeroProduct(air.IsPad(next), air.Active(curr));
    SubZero(air.Mass(curr, k), claimed);
  }

  lemma EdgeMeaning(air: DistributionAir, row: Row, k: nat, expr: Fp)
    requires air.Shaped(row) && k < air.numOutcomes && (air.IsPad(row) == 0 || air.IsPad(row) == 1)
    ensures Mul(air.Active(row), Sub(air.Mass(row, k), expr)) == 0 <==> air.IsPad(row) == 1 || air.Mass(row, k) == expr
  {
    hide Mul, Sub;
    OneMinus(air.IsPad(row));
    ZeroProduct(air.Active(row), Sub(air.Mass(row, k), expr));
    SubZero(air.Mass(row, k), expr);
  }

  /** Number of selectors set among the first n. */
  function SetCount(air: DistributionAir, row: Row, n: nat): nat
    requires air.Shaped(row) && n <= air.numOutcomes
  {
    if n == 0 then 0 else SetCount(air, row, n - 1) + (if air.Sel(row, n - 1) == 1 then 1 else 0)
  }

  lemma {:induction false} SelSumCounts(air: DistributionAir, row: Row, n: nat)
    requires air.Shaped(row) && n <= air.numOutcomes < P
    requires forall k: nat :: k < air.numOutcomes ==> air.Sel(row, k) == 0 || air.Sel(row, k) == 1
    ensures SetCount(air, row, n) <= n && air.SelSum(row, n) == SetCount(air, row, n)
    ensures SetCount(air, row, n) == 0 ==> forall k: nat :: k < n ==> air.Sel(row, k) == 0
    ensures SetCount(air, row, n) == 1 ==>
      exists j: nat :: j < n && air.Sel(row, j) == 1 && forall k: nat :: k < n && k != j ==> air.Sel(row, k) == 0
  {
    if n > 0 {
      SelSumCounts(air, row, n - 1);
      if SetCount(air, row, n) == 1 && SetCount(air, row, n - 1) == 0 {
        assert air.Sel(row, n - 1) == 1;
      }
    }
  }

  /** On an active row exactly one selector is 1 and all others are 0. */
  lemma ActiveRowsOneHot(air: DistributionAir, row: Row) returns (j: nat)
    requires air.Shaped(row) && air.RowHolds(row) && air.IsPad(row) == 0 && air.numOutcomes < P
    ensures air.OneHot(row, j)
  {
    RowMeaning(air, row);
    SelSumCounts(air, row, air.numOutcomes);
    j :| j < air.numOutcomes && air.Sel(row, j) == 1 && forall k: nat :: k < air.numOutcomes && k != j ==> air.Sel(row, k) == 0;
  }

  // ---- Soundness over whole traces ----

  lemma PadContributesNothing(air: DistributionAir, row: Row, k: nat)
    requires air.Shaped(row) && air.RowHolds(row) && k < air.numOutcomes && air.IsPad(row) == 1
    ensures air.Contribution(row, k) == 0
  {
    hide Mul;
    RowMeaning(air, row);
    MulZero(air.Amp2(row));
  }

  /** Mass at row t: what the first row started with, plus the contributions since. A pad
      row reached from an active one has mass equal to the scaled claim. */
  lemma {:induction false} MassRuns(air: DistributionAir, trace: seq<Row>, k: nat, t: nat, base: Fp)
    requires air.Satisfies(trace) && k < air.numOutcomes && t < |trace|
    requires base == if air.IsPad(trace[0]) == 0 then 0 else air.Mass(trace[0], k)
    ensures air.Mass(trace[t], k) == Add(base, air.Total(trace, k, t + 1))
    ensures air.Claim(trace[t], k) == air.Claim(trace[0], k)
    ensures air.IsPad(trace[t]) == 1 && (exists s :: 0 <= s <= t && air.IsPad(trace[s]) == 0) ==>
      air.Mass(trace[t], k) == Mul(air.Claim(trace[t], k), BORN_ZK_SCALE)
  {
    hide Mul, Add;
    RowMeaning(air, trace[t]);
    if t == 0 {
      var row := trace[0];
      EdgeMeaning(air, row, k, air.Contribution(row, k));
      assert air.Total(trace, k, 1) == Add(air.Total(trace, k, 0), air.Contribution(row, k));
      AddZero(air.Contribution(row, k));
      AddZero(base);
      if air.IsPad(row) == 1 {
        PadContributesNothing(air, row, k);
      }
    } else {
      var curr, next := trace[t - 1], trace[t];
      MassRuns(air, trace, k, t - 1, base);
      RowMeaning(air, curr);
      assert air.TransitionHolds(curr, next);
      TransitionMeaning(air, curr, next, k);
      AddAssoc(base, air.Total(trace, k, t), air.Contribution(next, k));
      if air.IsPad(next) == 1 {
        PadContributesNothing(air, next, k);
        AddZero(air.Total(trace, k, t));
      }
    }
  }

  /** In a satisfying trace of any height whose first row is active, every claim times
      the scale is the sum of its selected squared amplitudes, however pad and active
      rows interleave. */
  lemma Soundness(air: DistributionAir, trace: seq<Row>, k: nat, t: nat)
    requires air.Satisfies(trace) && k < air.numOutcomes && t < |trace|
    requires air.IsPad(trace[0]) == 0
    ensures Mul(air.Claim(trace[t], k), BORN_ZK_SCALE) == air.Total(trace, k, |trace|)
  {
    hide Mul, Add;
    FinalMass(air, trace, k, 0, 0);
    MassRuns(air, trace, k, t, 0);
    AddZero(air.Total(trace, k, |trace|));
  }

  /** With an active row s, the final mass is the scaled claim. */
  lemma FinalMass(air: DistributionAir, trace: seq<Row>, k: nat, s: nat, base: Fp)
    requires air.Satisfies(trace) && k < air.numOutcomes && s < |trace| && air.IsPad(trace[s]) == 0
    requires base == if air.IsPad(trace[0]) == 0 then 0 else air.Mass(trace[0], k)
    ensures Mul(air.Claim(trace[0], k), BORN_ZK_SCALE) == Add(base, air.Total(trace, k, |trace|))
  {
    hide Mul, Add;
    var last := |trace| - 1;
    MassRuns(air, trace, k, last, base);
    RowMeaning(air, trace[last]);
    EdgeMeaning(air, trace[last], k, Mul(air.Claim(trace[last], k), BORN_ZK_SCALE));
  }

  /** Nothing makes the first row active. When it is a pad row and some later row is
      active, the claim meets the sum exactly when the mass it starts from is zero. */
  lemma PadStart(air: DistributionAir, trace: seq<Row>, k: nat, s: nat)
    requires air.Satisfies(trace) && k < air.numOutcomes && s < |trace|
    requires air.IsPad(trace[0]) != 0 && air.IsPad(trace[s]) == 0
    ensures Mul(air.Claim(trace[0], k), BORN_ZK_SCALE) == air.Total(trace, k, |trace|) <==> air.Mass(trace[0], k) == 0
  {
    hide Mul, Add, DistributionAir.Total;
    FinalMass(air, trace, k, s, air.Mass(trace[0], k));
    AddKeeps(air.Mass(trace[0], k), air.Total(trace, k, |trace|));
  }

  lemma AddKeeps(a: Fp, b: Fp)
    ensures Add(a, b) == b <==> a == 0
  {
  }

  /** With pad rows only, the sum is zero and the claims are whatever the first row says. */
  lemma AllPad(air: DistributionAir, trace: seq<Row>, k: nat)
    requires air.Satisfies(trace) && k < air.numOutcomes
    requires forall t :: 0 <= t < |trace| ==> air.IsPad(trace[t]) != 0
    ensures Mul(air.Claim(trace[0], k), BORN_ZK_SCALE) == air.Total(trace, k, |trace|) <==> air.Claim(trace[0], k) == 0
  {
    hide Mul, Add;
    NothingTotals(air, trace, k, |trace|);
    ZeroProduct(air.Claim(trace[0], k), BORN_ZK_SCALE);
  }

  lemma {:induction false} NothingTotals(air: DistributionAir, trace: seq<Row>, k: nat, n: nat)
    requires air.Satisfies(trace) && k < air.numOutcomes && n <= |trace|
    requires forall t :: 0 <= t < |trace| ==> air.IsPad(trace[t]) != 0
    ensures air.Total(trace, k, n) == 0
  {
    hide Mul, Add;
    if n > 0 {
      NothingTotals(air, trace, k, n - 1);
      RowMeaning(air, trace[n - 1]);
      PadContributesNothing(air, trace[n - 1], k);
      AddZero(0);
    }
  }

  // ---- Traces of the least height that start with padding ----

  /** A row of the one-outcome circuit. */
  function OneOutcomeRow(re: Fp, sel: Fp, mass: Fp, claim: Fp, pad: Fp): Row { [re, 0, sel, mass, claim, pad] }

  ghost predicate StepMeans(air: DistributionAir, curr: Row, next: Row)
    requires air.Shaped(curr) && air.Shaped(next)
  { forall k: nat :: k < air.numOutcomes ==> TransitionMeans(air, curr, next, k) }

  /** A trace between two pad rows holds when its rows and transitions mean what they should. */
  lemma HoldsByMeaning(air: DistributionAir, trace: seq<Row>)
    requires |trace| > 0 && forall t :: 0 <= t < |trace| ==> air.Shaped(trace[t]) && RowMeans(air, trace[t])
    requires air.IsPad(trace[0]) == 1 && air.IsPad(trace[|trace| - 1]) == 1
    requires forall t :: 0 < t < |trace| ==> StepMeans(air, trace[t - 1], trace[t])
    ensures air.Satisfies(trace)
  {
    hide Mul, Add, RowMeans, StepMeans, DistributionAir.RowHolds, DistributionAir.TransitionHolds;
    forall t | 0 <= t < |trace|
      ensures air.RowHolds(trace[t]) && (air.IsPad(trace[t]) == 0 || air.IsPad(trace[t]) == 1)
    {
      RowMeaning(air, trace[t]);
      PadFlagIsBit(air, trace[t]);
    }
    forall t | 0 < t < |trace|
      ensures air.TransitionHolds(trace[t - 1], trace[t])
    {
      StepHolds(air, trace[t - 1], trace[t]);
    }
    var first, last := trace[0], trace[|trace| - 1];
    forall k: nat | k < air.numOutcomes
      ensures Mul(air.Active(first), Sub(air.Mass(first, k), Mul(air.Sel(first, k), air.Amp2(first)))) == 0
      ensures Mul(air.Active(last), Sub(air.Mass(last, k), Mul(air.Claim(last, k), BORN_ZK_SCALE))) == 0
    {
      EdgeMeaning(air, first, k, Mul(air.Sel(first, k), air.Amp2(first)));
      EdgeMeaning(air, last, k, Mul(air.Claim(last, k), BORN_ZK_SCALE));
    }
  }

  lemma StepHolds(air: DistributionAir, curr: Row, next: Row)
    requires air.Shaped(curr) && air.Shaped(next) && RowMeans(air, curr) && RowMeans(air, next) && StepMeans(air, curr, next)
    ensures air.TransitionHolds(curr, next)
  {
    hide Mul, Add, Sub;
    forall k: nat | k < air.numOutcomes
      ensures air.TransitionHoldsAt(curr, next, k)
    {
      TransitionMeaning(air, curr, next, k);
    }
  }

  lemma PadFlagIsBit(air: DistributionAir, row: Row)
    requires air.Shaped(row) && RowMeans(air, row)
    ensures air.IsPad(row) == 0 || air.IsPad(row) == 1
  {
  }

  lemma OneOutcomeMeans(re: Fp, sel: Fp, mass: Fp, claim: Fp, pad: Fp)
    requires (pad == 0 && sel == 1) || (pad == 1 && sel == 0 && re == 0)
    ensures DistributionAir(1, 1).Shaped(OneOutcomeRow(re, sel, mass, claim, pad))
    ensures RowMeans(DistributionAir(1, 1), OneOutcomeRow(re, sel, mass, claim, pad))
  {
    var air, row := DistributionAir(1, 1), OneOutcomeRow(re, sel, mass, claim, pad);
    assert air.SelSum(row, 1) == Add(air.SelSum(row, 0), sel);
    AddZero(sel);
  }

  /** Four pad rows, the least height a circuit is padded to, satisfy every constraint
      with any claim at all. */
  lemma PadRowsClaimAnything(claim: Fp)
    ensures var air, row := DistributionAir(1, 1), OneOutcomeRow(0, 0, 0, claim, 1); var trace := [row, row, row, row];
      && air.Satisfies(trace) && air.Claim(trace[0], 0) == claim
      && (Mul(claim, BORN_ZK_SCALE) == air.Total(trace, 0, 4) <==> claim == 0)
  {
    hide Mul, Add, Sub;
    var air, row := DistributionAir(1, 1), OneOutcomeRow(0, 0, 0, claim, 1);
    var trace: seq<Row> := [row, row, row, row];
    OneOutcomeMeans(0, 0, 0, claim, 1);
    HoldsByMeaning(air, trace);
    AllPad(air, trace, 0);
  }

  /** A pad row that starts with mass 9999, one active row of amplitude 1, two pad rows:
      the claim 1 scales to 10000, the active rows add up to 1. */
  lemma PadStartClaimsMore()
    ensures var air := DistributionAir(1, 1);
      var trace := [OneOutcomeRow(0, 0, 9999, 1, 1), OneOutcomeRow(1, 1, 10000, 1, 0),
                    OneOutcomeRow(0, 0, 10000, 1, 1), OneOutcomeRow(0, 0, 10000, 1, 1)];
      && air.Satisfies(trace) && air.IsPad(trace[0]) == 1 && air.IsPad(trace[1]) == 0 && air.Mass(trace[0], 0) != 0
      && Mul(air.Claim(trace[0], 0), BORN_ZK_SCALE) != air.Total(trace, 0, 4)
  {
    hide DistributionAir.Total, DistributionAir.Satisfies, RowMeans, StepMeans, Mul;
    var air := DistributionAir(1, 1);
    var trace: seq<Row> := [OneOutcomeRow(0, 0, 9999, 1, 1), OneOutcomeRow(1, 1, 10000, 1, 0),
                            OneOutcomeRow(0, 0, 10000, 1, 1), OneOutcomeRow(0, 0, 10000, 1, 1)];
    OneOutcomeMeans(0, 0, 9999, 1, 1);
    OneOutcomeMeans(1, 1, 10000, 1, 0);
    OneOutcomeMeans(0, 0, 10000, 1, 1);
    ActiveStep();
    PadStep(1, 1, 0);
    PadStep(0, 0, 1);
    HoldsByMeaning(air, trace);
    PadStart(air, trace, 0, 1);
  }

  lemma ActiveStep()
    ensures StepMeans(DistributionAir(1, 1), OneOutcomeRow(0, 0, 9999, 1, 1), OneOutcomeRow(1, 1, 10000, 1, 0))
  {
    hide Mul;
    MulOne(1); MulZero(0);
  }

  lemma PadStep(re: Fp, sel: Fp, pad: Fp)
    ensures StepMeans(DistributionAir(1, 1), OneOutcomeRow(re, sel, 10000, 1, pad), OneOutcomeRow(0, 0, 10000, 1, 1))
  {
    hide Mul;
    MulOne(BORN_ZK_SCALE);
  }
}
