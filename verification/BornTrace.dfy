/** The trace builder: two passes over the state vector, then padding. */
module BornTrace {

  import opened Options
  import opened M31
  import opened Primality
  import opened PowersOfTwo
  import opened BornAir

  const MIN_UNI_STARK_HEIGHT: nat := 4

  /** The state vector, its conversion to the field, and the outcome of each basis. */
  datatype Source = Source(stateVector: seq<(real, real)>, convert: real -> Fp, outcomeOf: nat -> Option<nat>) {

    function Re(t: nat): Fp
      requires t < |stateVector|
    { convert(stateVector[t].0) }

    function Im(t: nat): Fp
      requires t < |stateVector|
    { convert(stateVector[t].1) }

    function Amp2(t: nat): Fp
      requires t < |stateVector|
    { Add(Square(Re(t)), Square(Im(t))) }

    predicate Hits(t: nat, k: nat) { outcomeOf(t) == Some(k) }

    /** Mass of outcome k over the first n bases. */
    function MassUpTo(k: nat, n: nat): Fp
      requires n <= |stateVector|
    {
      if n == 0 then 0
      else if Hits(n - 1, k) then Add(MassUpTo(k, n - 1), Amp2(n - 1))
      else MassUpTo(k, n - 1)
    }

    predicate OutcomesBelow(numOutcomes: nat, n: nat) {
      forall t :: 0 <= t < n ==> outcomeOf(t).Some? && outcomeOf(t).value < numOutcomes
    }

    predicate Buildable(air: DistributionAir) {
      && air.dim > 0 && 0 < air.numOutcomes <= BORN_ZK_MAX_OUTCOMES && |stateVector| == air.dim
      && OutcomesBelow(air.numOutcomes, air.dim)
    }

    function ClaimOf(air: DistributionAir, k: nat): Fp {
      Mul(MassUpTo(k, |stateVector|), Inverse(BORN_ZK_SCALE))
    }

    /** Column c of the row with these amplitudes, selector, running masses and claims. */
    function ColumnOf(air: DistributionAir, re: Fp, im: Fp, sel: nat -> Fp, n: nat, pad: Fp, c: nat): Fp
      requires n <= |stateVector|
    {
      var K := air.numOutcomes;
      if c == COL_RE then re
      else if c == COL_IM then im
      else if c < 2 + K then sel(c - 2)
      else if c < 2 + 2 * K then MassUpTo(c - 2 - K, n)
      else if c < 2 + 3 * K then ClaimOf(air, c - 2 - 2 * K)
      else pad
    }

    function RowOf(air: DistributionAir, re: Fp, im: Fp, sel: nat -> Fp, n: nat, pad: Fp): Row
      requires n <= |stateVector|
    {
      seq(air.Width(), c requires 0 <= c < air.Width() => ColumnOf(air, re, im, sel, n, pad, c))
    }

    function ActiveRow(air: DistributionAir, t: nat): Row
      requires t < |stateVector|
    {
      RowOf(air, Re(t), Im(t), k => if Hits(t, k) then 1 else 0, t + 1, 0)
    }

    function PadRow(air: DistributionAir): Row {
      RowOf(air, 0, 0, k => 0, |stateVector|, 1)
    }

    /** Active rows for every basis, then pad rows up to the height. */
    function Trace(air: DistributionAir): seq<Row> {
      var n := |stateVector|;
      seq(UniStarkHeight(n), t requires 0 <= t < UniStarkHeight(n) => if t < n then ActiveRow(air, t) else PadRow(air))
    }
  }

  function UniStarkHeight(height: nat): (r: nat)
    ensures r >= height && r >= MIN_UNI_STARK_HEIGHT
  {
    var p := NextPowerOfTwo(height);
    if p >= MIN_UNI_STARK_HEIGHT then p else MIN_UNI_STARK_HEIGHT
  }

  /** The height is the least power of two that is at least 4 and the given height. */
  lemma HeightIsLeast(height: nat) returns (e: nat)
    ensures UniStarkHeight(height) == Pow2(e) && e >= 2
    ensures e > 2 ==> Pow2(e - 1) < height
  {
    e := NextPowerIsLeast(height);
    if e < 2 {
      e := 2;
    }
  }

  // ---- The host check of one row ----

  function LocalSum(air: DistributionAir, row: Row, n: nat): Fp
    requires air.Shaped(row) && n <= air.numOutcomes
  {
    if n == 0 then Mul(air.IsPad(row), Sub(air.IsPad(row), 1))
    else
      var sel := air.Sel(row, n - 1);
      Add(LocalSum(air, row, n - 1), Mul(Mul(air.Active(row), sel), Sub(sel, 1)))
  }

  method EvaluateActiveRowLocal(air: DistributionAir, row: Row) returns (acc: Fp)
    requires air.Shaped(row)
    ensures acc == Add(LocalSum(air, row, air.numOutcomes), Mul(air.Active(row), Sub(air.SelSum(row, air.numOutcomes), 1)))
  {
    hide Mul, Add, Sub;
    var isPad := air.IsPad(row);
    acc := Mul(isPad, Sub(isPad, 1));
    var active := air.Active(row);
    var selSum: Fp := 0;
    for k := 0 to air.numOutcomes
      invariant acc == LocalSum(air, row, k)
      invariant selSum == air.SelSum(row, k)
    {
      var sel := row[air.ColSel(k)];
      acc := Add(acc, Mul(Mul(active, sel), Sub(sel, 1)));
      selSum := Add(selSum, sel);
    }
    acc := Add(acc, Mul(active, Sub(selSum, 1)));
  }

  /** The check is zero on every active row the constraints accept. */
  lemma LocalCheckVanishes(air: DistributionAir, row: Row)
    requires air.Shaped(row) && RowMeans(air, row) && air.IsPad(row) == 0
    ensures Add(LocalSum(air, row, air.numOutcomes), Mul(air.Active(row), Sub(air.SelSum(row, air.numOutcomes), 1))) == 0
  {
    hide Mul, Add, Sub;
    LocalSumVanishes(air, row, air.numOutcomes);
    SubZero(air.SelSum(row, air.numOutcomes), 1);
    MulZero(air.Active(row));
    AddZero(0);
  }

  lemma {:induction false} LocalSumVanishes(air: DistributionAir, row: Row, n: nat)
    requires air.Shaped(row) && RowMeans(air, row) && air.IsPad(row) == 0 && n <= air.numOutcomes
    ensures LocalSum(air, row, n) == 0
  {
    hide Mul, Add, Sub;
    if n == 0 {
      MulZero(Sub(0, 1));
    } else {
      LocalSumVanishes(air, row, n - 1);
      var sel := air.Sel(row, n - 1);
      MulZero(air.Active(row)); MulZero(Sub(sel, 1)); MulZero(Mul(air.Active(row), sel));
      SubZero(sel, 1);
      AddZero(0);
    }
  }

  /** The sum of the squares of the first n selectors. */
  function SquareSum(air: DistributionAir, row: Row, n: nat): Fp
    requires air.Shaped(row) && n <= air.numOutcomes
  { if n == 0 then 0 else Add(SquareSum(air, row, n - 1), Square(air.Sel(row, n - 1))) }

  /** One selector's terms: a (q - t) + (a s)(s - 1) == a (q + s^2 - (t + s)). */
  lemma SelectorTerm(a: Fp, s: Fp, q: Fp, t: Fp, c: Fp)
    ensures Add(Add(c, Mul(a, Sub(q, t))), Mul(Mul(a, s), Sub(s, 1))) == Add(c, Mul(a, Sub(Add(q, Square(s)), Add(t, s))))
  {
    hide Mul, Add, Sub;
    MulAssoc(a, s, Sub(s, 1));
    MulSub(s, s, 1);
    MulOne(s);
    AddAssoc(c, Mul(a, Sub(q, t)), Mul(a, Sub(Square(s), s)));
    MulAdd(a, Sub(q, t), Sub(Square(s), s));
    DifferencesAdd(q, t, Square(s), s);
  }

  lemma DifferencesAdd(q: Fp, t: Fp, x: Fp, s: Fp)
    ensures Add(Sub(q, t), Sub(x, s)) == Sub(Add(q, x), Add(t, s))
  {
    hide Add, Sub, Red;
    RedCanonical(q); RedCanonical(t); RedCanonical(x); RedCanonical(s);
    RedSub(q, t); RedSub(x, s); RedAdd(q - t, x - s);
    RedAdd(q, x); RedAdd(t, s); RedSub(q + x, t + s);
  }

  lemma {:induction false} LocalSumIs(air: DistributionAir, row: Row, n: nat)
    requires air.Shaped(row) && n <= air.numOutcomes
    ensures LocalSum(air, row, n)
            == Add(Mul(air.IsPad(row), Sub(air.IsPad(row), 1)), Mul(air.Active(row), Sub(SquareSum(air, row, n), air.SelSum(row, n))))
  {
    hide Mul, Add, Sub;
    var p := air.IsPad(row);
    if n == 0 {
      SubZero(0, 0);
      MulZero(air.Active(row));
      AddZero(Mul(p, Sub(p, 1)));
    } else {
      LocalSumIs(air, row, n - 1);
      SelectorTerm(air.Active(row), air.Sel(row, n - 1), SquareSum(air, row, n - 1), air.SelSum(row, n - 1), Mul(p, Sub(p, 1)));
    }
  }

  /** p (p - 1) + (1 - p)(q - t) + (1 - p)(t - 1) == (1 - p)(q - (1 + p)). */
  lemma PadTerm(p: Fp, q: Fp, t: Fp)
    ensures Add(Add(Mul(p, Sub(p, 1)), Mul(Sub(1, p), Sub(q, t))), Mul(Sub(1, p), Sub(t, 1))) == Mul(Sub(1, p), Sub(q, Add(1, p)))
  {
    hide Mul, Add, Sub;
    var a := Sub(1, p);
    AddAssoc(Mul(p, Sub(p, 1)), Mul(a, Sub(q, t)), Mul(a, Sub(t, 1)));
    MulAdd(a, Sub(q, t), Sub(t, 1));
    MiddleCancels(q, t);
    FlippedProduct(p);
    MulAdd(a, Neg(p), Sub(q, 1));
    LastDifference(p, q);
  }

  lemma MiddleCancels(q: Fp, t: Fp)
    ensures Add(Sub(q, t), Sub(t, 1)) == Sub(q, 1)
  {
    hide Add, Sub, Red;
    RedCanonical(q); RedCanonical(t); RedCanonical(1);
    RedSub(q, t); RedSub(t, 1); RedAdd(q - t, t - 1); RedSub(q, 1);
  }

  lemma FlippedProduct(p: Fp)
    ensures Mul(p, Sub(p, 1)) == Mul(Sub(1, p), Neg(p))
  {
    hide Mul;
    MulNeg(p, Sub(1, p));
    MulNeg(Sub(1, p), p);
    MulComm(p, Sub(1, p));
    Flipped(p);
  }

  lemma Flipped(p: Fp)
    ensures Sub(p, 1) == Neg(Sub(1, p))
  {
  }

  lemma LastDifference(p: Fp, q: Fp)
    ensures Add(Neg(p), Sub(q, 1)) == Sub(q, Add(1, p))
  {
  }

  /** Whatever the row, the host check is zero exactly when the pad flag is one or the
      squares of the selectors add up to one more than the flag. */
  lemma LocalCheckIff(air: DistributionAir, row: Row)
    requires air.Shaped(row)
    ensures Add(LocalSum(air, row, air.numOutcomes), Mul(air.Active(row), Sub(air.SelSum(row, air.numOutcomes), 1))) == 0
            <==> air.IsPad(row) == 1 || SquareSum(air, row, air.numOutcomes) == Add(1, air.IsPad(row))
  {
    hide Mul, Add, Sub, LocalSum;
    var p, q := air.IsPad(row), SquareSum(air, row, air.numOutcomes);
    LocalSumIs(air, row, air.numOutcomes);
    PadTerm(p, q, air.SelSum(row, air.numOutcomes));
    ZeroProduct(Sub(1, p), Sub(q, Add(1, p)));
    SubZero(1, p);
    SubZero(q, Add(1, p));
  }

  lemma {:induction false} BitsSquare(air: DistributionAir, row: Row, n: nat)
    requires air.Shaped(row) && n <= air.numOutcomes
    requires forall k: nat :: k < air.numOutcomes ==> air.Sel(row, k) == 0 || air.Sel(row, k) == 1
    ensures SquareSum(air, row, n) == air.SelSum(row, n)
  {
    hide Mul, Add;
    if n > 0 {
      BitsSquare(air, row, n - 1);
      MulZero(0);
      MulOne(1);
    }
  }

  /** On an active row of selector bits it is zero exactly when one selector is set. */
  lemma LocalCheckOneHot(air: DistributionAir, row: Row)
    requires air.Shaped(row) && air.IsPad(row) == 0 && air.numOutcomes < P
    requires forall k: nat :: k < air.numOutcomes ==> air.Sel(row, k) == 0 || air.Sel(row, k) == 1
    ensures Add(LocalSum(air, row, air.numOutcomes), Mul(air.Active(row), Sub(air.SelSum(row, air.numOutcomes), 1))) == 0
            <==> exists j :: air.OneHot(row, j)
  {
    hide Mul, Add, Sub, LocalSum;
    LocalCheckIff(air, row);
    BitsSquare(air, row, air.numOutcomes);
    AddZero(1);
    SelSumCounts(air, row, air.numOutcomes);
    if SetCount(air, row, air.numOutcomes) == 1 {
      var j: nat :| j < air.numOutcomes && air.Sel(row, j) == 1 && forall k: nat :: k < air.numOutcomes && k != j ==> air.Sel(row, k) == 0;
      assert air.OneHot(row, j);
    }
    if j :| air.OneHot(row, j) {
      OneHotSums(air, row, j, air.numOutcomes);
    }
  }

  /** Not a bit and still zero: the single selector -1. */
  lemma NegativeSelectorPasses()
    ensures var air, row := DistributionAir(1, 1), [0, 0, P - 1, 0, 0, 0];
      && air.Shaped(row) && air.IsPad(row) == 0 && !RowMeans(air, row)
      && Add(LocalSum(air, row, 1), Mul(air.Active(row), Sub(air.SelSum(row, 1), 1))) == 0
  {
    hide Mul, LocalSum;
    var air, row := DistributionAir(1, 1), [0, 0, P - 1, 0, 0, 0];
    LocalCheckIff(air, row);
    MinusOneSquared();
    assert SquareSum(air, row, 1) == Add(SquareSum(air, row, 0), Square(P - 1));
  }

  lemma MinusOneSquared()
    ensures Mul(P - 1, P - 1) == 1
  {
    MulNeg(P - 1, 1);
    MulOne(P - 1);
  }

  // ---- The built rows satisfy the constraints ----

  lemma RowEntries(air: DistributionAir, src: Source, re: Fp, im: Fp, sel: nat -> Fp, n: nat, pad: Fp)
    requires n <= |src.stateVector|
    ensures var row := src.RowOf(air, re, im, sel, n, pad);
      && air.Shaped(row) && row[COL_RE] == re && row[COL_IM] == im && air.IsPad(row) == pad
      && (forall k: nat :: k < air.numOutcomes ==>
            air.Sel(row, k) == sel(k) && air.Mass(row, k) == src.MassUpTo(k, n) && air.Claim(row, k) == src.ClaimOf(air, k))
  {
    hide Source.ColumnOf, Source.MassUpTo, Source.ClaimOf;
    ColumnsAt(air, src, re, im, sel, n, pad);
  }

  lemma ColumnsAt(air: DistributionAir, src: Source, re: Fp, im: Fp, sel: nat -> Fp, n: nat, pad: Fp)
    requires n <= |src.stateVector|
    ensures src.ColumnOf(air, re, im, sel, n, pad, COL_RE) == re
    ensures src.ColumnOf(air, re, im, sel, n, pad, COL_IM) == im
    ensures src.ColumnOf(air, re, im, sel, n, pad, air.ColIsPad()) == pad
    ensures forall k: nat :: k < air.numOutcomes ==>
      && src.ColumnOf(air, re, im, sel, n, pad, air.ColSel(k)) == sel(k)
      && src.ColumnOf(air, re, im, sel, n, pad, air.ColMass(k)) == src.MassUpTo(k, n)
      && src.ColumnOf(air, re, im, sel, n, pad, air.ColClaim(k)) == src.ClaimOf(air, k)
  {
    hide Source.MassUpTo, Source.ClaimOf;
    forall k: nat | k < air.numOutcomes
      ensures src.ColumnOf(air, re, im, sel, n, pad, air.ColSel(k)) == sel(k)
      ensures src.ColumnOf(air, re, im, sel, n, pad, air.ColMass(k)) == src.MassUpTo(k, n)
      ensures src.ColumnOf(air, re, im, sel, n, pad, air.ColClaim(k)) == src.ClaimOf(air, k)
    {
      OutcomeColumns(air, src, re, im, sel, n, pad, k);
    }
  }

  lemma OutcomeColumns(air: DistributionAir, src: Source, re: Fp, im: Fp, sel: nat -> Fp, n: nat, pad: Fp, k: nat)
    requires n <= |src.stateVector| && k < air.numOutcomes
    ensures src.ColumnOf(air, re, im, sel, n, pad, air.ColSel(k)) == sel(k)
    ensures src.ColumnOf(air, re, im, sel, n, pad, air.ColMass(k)) == src.MassUpTo(k, n)
    ensures src.ColumnOf(air, re, im, sel, n, pad, air.ColClaim(k)) == src.ClaimOf(air, k)
  {
    hide Source.MassUpTo, Source.ClaimOf;
  }

  lemma {:induction false} OneHotSums(air: DistributionAir, row: Row, j: nat, n: nat)
    requires air.Shaped(row) && air.OneHot(row, j) && n <= air.numOutcomes
    ensures air.SelSum(row, n) == if j < n then 1 else 0
  {
    if n > 0 {
      OneHotSums(air, row, j, n - 1);
    }
  }

  lemma ActiveRowHolds(air: DistributionAir, src: Source, t: nat)
    requires src.Buildable(air) && t < air.dim
    ensures air.Shaped(src.ActiveRow(air, t)) && air.IsPad(src.ActiveRow(air, t)) == 0
    ensures air.OneHot(src.ActiveRow(air, t), src.outcomeOf(t).value)
    ensures RowMeans(air, src.ActiveRow(air, t))
  {
    hide Mul, Add, Sub;
    var row := src.ActiveRow(air, t);
    RowEntries(air, src, src.Re(t), src.Im(t), k => if src.Hits(t, k) then 1 else 0, t + 1, 0);
    OneHotSums(air, row, src.outcomeOf(t).value, air.numOutcomes);
  }

  lemma PadRowHolds(air: DistributionAir, src: Source)
    ensures air.Shaped(src.PadRow(air)) && air.IsPad(src.PadRow(air)) == 1 && RowMeans(air, src.PadRow(air))
    ensures forall k: nat :: k < air.numOutcomes ==>
      air.Mass(src.PadRow(air), k) == src.MassUpTo(k, |src.stateVector|) && air.Claim(src.PadRow(air), k) == src.ClaimOf(air, k)
  {
    hide Mul, Add, Sub;
    RowEntries(air, src, 0, 0, k => 0, |src.stateVector|, 1);
  }

  /** Claims times the scale give back the total mass. */
  lemma ClaimMeetsMass(air: DistributionAir, src: Source, k: nat)
    ensures Mul(src.ClaimOf(air, k), BORN_ZK_SCALE) == src.MassUpTo(k, |src.stateVector|)
  {
    hide Mul;
    var inv := NonzeroInvertible(BORN_ZK_SCALE);
    InverseIs(BORN_ZK_SCALE, inv);
    var m := src.MassUpTo(k, |src.stateVector|);
    MulAssoc(m, inv, BORN_ZK_SCALE);
    MulComm(inv, BORN_ZK_SCALE);
    MulOne(m);
  }

  /** The contribution of an active row is what the mass gains. */
  lemma ActiveGain(air: DistributionAir, src: Source, t: nat, k: nat)
    requires src.Buildable(air) && t < air.dim && k < air.numOutcomes
    ensures air.Shaped(src.ActiveRow(air, t))
    ensures air.Mass(src.ActiveRow(air, t), k) == Add(src.MassUpTo(k, t), air.Contribution(src.ActiveRow(air, t), k))
    ensures air.Claim(src.ActiveRow(air, t), k) == src.ClaimOf(air, k)
    ensures air.Mass(src.ActiveRow(air, t), k) == src.MassUpTo(k, t + 1)
  {
    hide Mul, Add, Sub;
    var row := src.ActiveRow(air, t);
    RowEntries(air, src, src.Re(t), src.Im(t), k => if src.Hits(t, k) then 1 else 0, t + 1, 0);
    MulOne(air.Amp2(row)); MulZero(air.Amp2(row));
    AddZero(src.MassUpTo(k, t));
  }

  /** What the constraints need of row t of the trace, for outcome k. */
  ghost predicate RowFacts(air: DistributionAir, src: Source, row: Row, t: nat, k: nat) {
    var n := |src.stateVector|;
    && air.Shaped(row) && k < air.numOutcomes && RowMeans(air, row)
    && air.IsPad(row) == (if t < n then 0 else 1)
    && air.Claim(row, k) == src.ClaimOf(air, k)
    && air.Mass(row, k) == src.MassUpTo(k, if t < n then t + 1 else n)
    && (t < n ==> air.Mass(row, k) == Add(src.MassUpTo(k, t), air.Contribution(row, k)))
  }

  lemma TraceFacts(air: DistributionAir, src: Source, t: nat, k: nat)
    requires src.Buildable(air) && t < |src.Trace(air)| && k < air.numOutcomes
    ensures RowFacts(air, src, src.Trace(air)[t], t, k)
  {
    hide Mul, Add, Sub, RowMeans, Source.ActiveRow, Source.PadRow, Source.MassUpTo, Source.ClaimOf, DistributionAir.Contribution;
    if t < air.dim {
      ActiveGain(air, src, t, k);
      ActiveRowHolds(air, src, t);
    } else {
      PadRowHolds(air, src);
    }
  }

  lemma TransitionFromFacts(air: DistributionAir, src: Source, curr: Row, next: Row, t: nat, k: nat)
    requires t > 0 && |src.stateVector| > 0 && RowFacts(air, src, curr, t - 1, k) && RowFacts(air, src, next, t, k)
    ensures TransitionMeans(air, curr, next, k)
    ensures air.TransitionHoldsAt(curr, next, k)
  {
    hide Mul, Add, Sub, RowMeans, Source.MassUpTo, Source.ClaimOf, DistributionAir.Contribution,
      DistributionAir.Mass, DistributionAir.Claim, DistributionAir.IsPad, DistributionAir.TransitionHoldsAt;
    ClaimMeetsMass(air, src, k);
    TransitionMeaning(air, curr, next, k);
  }

  /** Completeness: the built and padded trace satisfies every constraint, and its first
      row is active. */
  lemma Completeness(air: DistributionAir, src: Source)
    requires src.Buildable(air)
    ensures air.Satisfies(src.Trace(air))
    ensures air.IsPad(src.Trace(air)[0]) == 0
  {
    hide Mul, Add, Sub, RowFacts, RowMeans, Source.Trace, Source.MassUpTo, DistributionAir.IsPad, DistributionAir.TransitionHoldsAt,
      DistributionAir.FirstHolds, DistributionAir.LastHolds, DistributionAir.RowHolds;
    var trace := src.Trace(air);
    TraceHeight(air, src);
    forall t | 0 <= t < |trace|
      ensures air.Shaped(trace[t]) && air.RowHolds(trace[t])
    {
      TraceFacts(air, src, t, 0);
      RowFromFacts(air, src, trace[t], t, 0);
    }
    TraceFacts(air, src, 0, 0);
    RowFromFacts(air, src, trace[0], 0, 0);
    FirstRow(air, src, trace[0]);
    forall t | 0 < t < |trace|
      ensures air.TransitionHolds(trace[t - 1], trace[t])
    {
      TransitionAt(air, src, t, trace[t - 1], trace[t]);
    }
    LastRow(air, src, trace[|trace| - 1]);
  }

  lemma TransitionAt(air: DistributionAir, src: Source, t: nat, curr: Row, next: Row)
    requires src.Buildable(air) && 0 < t < |src.Trace(air)| && curr == src.Trace(air)[t - 1] && next == src.Trace(air)[t]
    requires air.Shaped(curr) && air.Shaped(next)
    ensures air.TransitionHolds(curr, next)
  {
    hide RowFacts, Source.Trace, DistributionAir.TransitionHoldsAt;
    TraceHeight(air, src);
    forall k: nat | k < air.numOutcomes
      ensures air.TransitionHoldsAt(curr, next, k)
    {
      TraceFacts(air, src, t - 1, k);
      TraceFacts(air, src, t, k);
      TransitionFromFacts(air, src, curr, next, t, k);
    }
  }

  lemma TraceHeight(air: DistributionAir, src: Source)
    requires src.Buildable(air)
    ensures |src.Trace(air)| == UniStarkHeight(air.dim) >= air.dim > 0
  {
  }

  lemma RowFromFacts(air: DistributionAir, src: Source, row: Row, t: nat, k: nat)
    requires RowFacts(air, src, row, t, k)
    ensures air.Shaped(row) && air.RowHolds(row)
    ensures t < |src.stateVector| ==> air.IsPad(row) == 0
  {
    hide Mul, Add, Sub, RowMeans, Source.MassUpTo, Source.ClaimOf, DistributionAir.Contribution, DistributionAir.RowHolds;
    RowMeaning(air, row);
  }

  lemma FirstRow(air: DistributionAir, src: Source, row: Row)
    requires src.Buildable(air) && 0 < |src.Trace(air)| && row == src.Trace(air)[0] && air.Shaped(row)
    ensures air.FirstHolds(row)
  {
    hide Mul, Add, Sub, RowMeans, Source.Trace, Source.ClaimOf, DistributionAir.Mass, DistributionAir.IsPad, DistributionAir.Contribution;
    forall k: nat | k < air.numOutcomes
      ensures Mul(air.Active(row), Sub(air.Mass(row, k), air.Contribution(row, k))) == 0
    {
      TraceFacts(air, src, 0, k);
      AddZero(air.Contribution(row, k));
      EdgeMeaning(air, row, k, air.Contribution(row, k));
    }
    FirstByContribution(air, row);
  }

  lemma FirstByContribution(air: DistributionAir, row: Row)
    requires air.Shaped(row)
    requires forall k: nat :: k < air.numOutcomes ==> Mul(air.Active(row), Sub(air.Mass(row, k), air.Contribution(row, k))) == 0
    ensures air.FirstHolds(row)
  {
    hide Mul, Sub, DistributionAir.Amp2;
  }

  lemma LastRow(air: DistributionAir, src: Source, row: Row)
    requires src.Buildable(air) && 0 < |src.Trace(air)| && row == src.Trace(air)[|src.Trace(air)| - 1] && air.Shaped(row)
    ensures air.LastHolds(row)
  {
    hide Mul, Add, Sub, RowMeans, Source.Trace, Source.MassUpTo, Source.ClaimOf, DistributionAir.Mass, DistributionAir.Claim,
      DistributionAir.IsPad, DistributionAir.Contribution;
    TraceHeight(air, src);
    forall k: nat | k < air.numOutcomes
      ensures Mul(air.Active(row), Sub(air.Mass(row, k), Mul(air.Claim(row, k), BORN_ZK_SCALE))) == 0
    {
      ClaimMeetsMass(air, src, k);
      TraceFacts(air, src, |src.Trace(air)| - 1, k);
      EdgeMeaning(air, row, k, Mul(air.Claim(row, k), BORN_ZK_SCALE));
    }
  }

  /** The sum of the masses over the first m outcomes. */
  function MassSum(src: Source, m: nat, n: nat): Fp
    requires n <= |src.stateVector|
  {
    if m == 0 then 0 else Add(MassSum(src, m - 1, n), src.MassUpTo(m - 1, n))
  }

  function Norm2(src: Source, n: nat): Fp
    requires n <= |src.stateVector|
  {
    if n == 0 then 0 else Add(Norm2(src, n - 1), src.Amp2(n - 1))
  }

  /** Nothing is lost: the masses of all outcomes add up to the total |psi|^2. */
  lemma {:induction false} MassesSumToNorm(air: DistributionAir, src: Source, n: nat)
    requires src.Buildable(air) && n <= air.dim
    ensures MassSum(src, air.numOutcomes, n) == Norm2(src, n)
  {
    hide Add, Mul;
    if n == 0 {
      NoMass(src, air.numOutcomes);
    } else {
      MassesSumToNorm(air, src, n - 1);
      OneGains(src, air.numOutcomes, n, src.outcomeOf(n - 1).value);
    }
  }

  lemma {:induction false} NoMass(src: Source, m: nat)
    ensures MassSum(src, m, 0) == 0
  {
    hide Add;
    if m > 0 {
      NoMass(src, m - 1);
      AddZero(0);
    }
  }

  lemma {:induction false} OneGains(src: Source, m: nat, n: nat, j: nat)
    requires 0 < n <= |src.stateVector| && src.outcomeOf(n - 1) == Some(j)
    ensures MassSum(src, m, n) == if j < m then Add(MassSum(src, m, n - 1), src.Amp2(n - 1)) else MassSum(src, m, n - 1)
  {
    hide Add, Mul;
    if m > 0 {
      OneGains(src, m - 1, n, j);
      var s, a, x := MassSum(src, m - 1, n - 1), src.MassUpTo(m - 1, n - 1), src.Amp2(n - 1);
      AddAssoc(s, a, x);
      AddAssoc(s, x, a);
      AddComm(a, x);
    }
  }

  // ---- The builder itself ----

  /** The columns of a row, given as sequences over the outcomes. */
  ghost predicate HasColumns(air: DistributionAir, row: Row, re: Fp, im: Fp, outcome: Option<nat>, mass: seq<Fp>, claims: seq<Fp>, pad: Fp) {
    && air.Shaped(row) && |mass| == |claims| == air.numOutcomes
    && row[COL_RE] == re && row[COL_IM] == im && air.IsPad(row) == pad
    && forall k: nat :: k < air.numOutcomes ==>
         air.Sel(row, k) == (if outcome == Some(k) then 1 else 0) && air.Mass(row, k) == mass[k] && air.Claim(row, k) == claims[k]
  }

  /** A row is determined by its columns. */
  lemma FromColumns(air: DistributionAir, src: Source, row: Row, re: Fp, im: Fp, outcome: Option<nat>, mass: seq<Fp>,
                    claims: seq<Fp>, pad: Fp, sel: nat -> Fp, n: nat)
    requires n <= |src.stateVector| && HasColumns(air, row, re, im, outcome, mass, claims, pad)
    requires forall k: nat :: k < air.numOutcomes ==>
      sel(k) == (if outcome == Some(k) then 1 else 0) && mass[k] == src.MassUpTo(k, n) && claims[k] == src.ClaimOf(air, k)
    ensures row == src.RowOf(air, re, im, sel, n, pad)
  {
    hide Source.ClaimOf, Source.MassUpTo;
    var K := air.numOutcomes;
    forall c | 0 <= c < |row|
      ensures row[c] == src.ColumnOf(air, re, im, sel, n, pad, c)
    {
      if 2 <= c < 2 + K {
        assert row[c] == air.Sel(row, c - 2);
      } else if 2 + K <= c < 2 + 2 * K {
        assert row[c] == air.Mass(row, c - 2 - K);
      } else if 2 + 2 * K <= c < 2 + 3 * K {
        assert row[c] == air.Claim(row, c - 2 - 2 * K);
      }
    }
  }

  /** Writes one row: amplitudes, one-hot selector, masses and claims. */
  method EmitRow(air: DistributionAir, re: Fp, im: Fp, outcome: Option<nat>, mass: seq<Fp>, claims: seq<Fp>, pad: Fp)
    returns (values: Row)
    requires |mass| == |claims| == air.numOutcomes && (outcome.Some? ==> outcome.value < air.numOutcomes)
    ensures HasColumns(air, values, re, im, outcome, mass, claims, pad)
  {
    var row := new Fp[air.Width()](_ => 0);
    row[COL_RE] := re;
    row[COL_IM] := im;
    if outcome.Some? {
      row[air.ColSel(outcome.value)] := 1;
    }
    for k := 0 to air.numOutcomes
      invariant row[COL_RE] == re && row[COL_IM] == im
      invariant forall j: nat :: j < air.numOutcomes ==> row[air.ColSel(j)] == if outcome == Some(j) then 1 else 0
      invariant forall j: nat :: j < k ==> row[air.ColMass(j)] == mass[j] && row[air.ColClaim(j)] == claims[j]
    {
      row[air.ColMass(k)] := mass[k];
      row[air.ColClaim(k)] := claims[k];
    }
    row[air.ColIsPad()] := pad;
    values := row[..];
  }

  lemma EmittedActive(air: DistributionAir, src: Source, row: Row, t: nat, outcome: nat, mass: seq<Fp>, claims: seq<Fp>)
    requires src.Buildable(air) && t < air.dim && src.outcomeOf(t) == Some(outcome)
    requires HasColumns(air, row, src.Re(t), src.Im(t), Some(outcome), mass, claims, 0)
    requires forall k: nat :: k < air.numOutcomes ==> mass[k] == src.MassUpTo(k, t + 1) && claims[k] == src.ClaimOf(air, k)
    ensures row == src.ActiveRow(air, t) && RowMeans(air, row) && air.IsPad(row) == 0
  {
    hide Source.ClaimOf, Source.MassUpTo, Source.RowOf, RowMeans, Source.Re, Source.Im;
    FromColumns(air, src, row, src.Re(t), src.Im(t), Some(outcome), mass, claims, 0, k => if src.Hits(t, k) then 1 else 0, t + 1);
    ActiveRowHolds(air, src, t);
  }

  lemma MassStart(src: Source)
    ensures forall k: nat :: src.MassUpTo(k, 0) == 0
  {
  }

  lemma MassStep(src: Source, t: nat, outcome: nat)
    requires t < |src.stateVector| && src.outcomeOf(t) == Some(outcome)
    ensures forall k: nat :: src.MassUpTo(k, t + 1)
                             == if k == outcome then Add(src.MassUpTo(k, t), src.Amp2(t)) else src.MassUpTo(k, t)
  {
    hide Add, Mul;
  }

  /** Pass 1: accumulated masses, amplitudes and outcomes; None on a missing outcome. */
  method AccumulateMasses(air: DistributionAir, src: Source) returns (r: Option<(seq<Fp>, seq<(Fp, Fp)>, seq<nat>)>)
    ensures r.Some? <==> src.OutcomesBelow(air.numOutcomes, |src.stateVector|)
    ensures r.Some? ==> var n := |src.stateVector|;
      && |r.value.0| == air.numOutcomes && |r.value.1| == |r.value.2| == n
      && (forall k: nat :: k < air.numOutcomes ==> r.value.0[k] == src.MassUpTo(k, n))
      && (forall t :: 0 <= t < n ==> r.value.1[t] == (src.Re(t), src.Im(t)) && src.outcomeOf(t) == Some(r.value.2[t]))
  {
    hide Mul, Add;
    var n, K := |src.stateVector|, air.numOutcomes;
    var mass := new Fp[K](_ => 0);
    var amps, outcomes := [], [];
    for basis := 0 to n
      invariant |amps| == |outcomes| == basis && src.OutcomesBelow(K, basis)
      invariant forall t :: 0 <= t < basis ==> amps[t] == (src.Re(t), src.Im(t)) && src.outcomeOf(t) == Some(outcomes[t])
      invariant forall k: nat :: k < K ==> mass[k] == src.MassUpTo(k, basis)
    {
      var outcome := src.outcomeOf(basis);
      if outcome.None? || outcome.value >= K {
        return None;
      }
      var re, im := src.Re(basis), src.Im(basis);
      MassStep(src, basis, outcome.value);
      mass[outcome.value] := Add(mass[outcome.value], Add(Square(re), Square(im)));
      amps, outcomes := amps + [(re, im)], outcomes + [outcome.value];
    }
    return Some((mass[..], amps, outcomes));
  }

  /** Pass 2: rows with running mass; the host check of each never fails. */
  method EmitRows(air: DistributionAir, src: Source, amps: seq<(Fp, Fp)>, outcomes: seq<nat>, claims: seq<Fp>)
    returns (r: Option<seq<Row>>)
    requires src.Buildable(air) && |amps| == |outcomes| == air.dim && |claims| == air.numOutcomes
    requires forall t :: 0 <= t < air.dim ==> amps[t] == (src.Re(t), src.Im(t)) && src.outcomeOf(t) == Some(outcomes[t])
    requires forall k: nat :: k < air.numOutcomes ==> claims[k] == src.ClaimOf(air, k)
    ensures r.Some? && |r.value| == air.dim && forall t :: 0 <= t < air.dim ==> r.value[t] == src.ActiveRow(air, t)
  {
    hide Mul, Add, Sub, RowMeans, LocalSum, Source.ActiveRow, HasColumns, Source.ClaimOf, Source.MassUpTo,
      DistributionAir.SelSum, DistributionAir.IsPad, DistributionAir.Active;
    var rows := [];
    MassStart(src);
    var running := new Fp[air.numOutcomes](_ => 0);
    for basis := 0 to air.dim
      invariant |rows| == basis
      invariant forall t :: 0 <= t < basis ==> rows[t] == src.ActiveRow(air, t)
      invariant forall k: nat :: k < air.numOutcomes ==> running[k] == src.MassUpTo(k, basis)
    {
      var (re, im) := amps[basis];
      var outcome := outcomes[basis];
      MassStep(src, basis, outcome);
      running[outcome] := Add(running[outcome], Add(Square(re), Square(im)));
      var row := EmitRow(air, re, im, Some(outcome), running[..], claims, 0);
      EmittedActive(air, src, row, basis, outcome, running[..], claims);
      LocalCheckVanishes(air, row);
      var check := EvaluateActiveRowLocal(air, row);
      if check != 0 {
        assert false;
        return None;
      }
      rows := rows + [row];
    }
    return Some(rows);
  }

  method BuildStreamingDistributionMatrix(air: DistributionAir, src: Source) returns (r: Option<seq<Row>>)
    ensures r.Some? <==>
      && 1 <= air.dim && 1 <= air.numOutcomes <= 64 && |src.stateVector| == air.dim
      && forall t :: 0 <= t < air.dim ==> src.outcomeOf(t).Some? && src.outcomeOf(t).value < air.numOutcomes
    ensures r.Some? ==> r.value == src.Trace(air)
  {
    hide Mul, Add, Sub, Inverse, Source.ActiveRow, Source.Trace, Source.MassUpTo;
    if air.dim == 0 || air.numOutcomes == 0 || air.numOutcomes > BORN_ZK_MAX_OUTCOMES || |src.stateVector| != air.dim {
      return None;
    }
    var scaleInv := Inverse(BORN_ZK_SCALE);
    var pass1 := AccumulateMasses(air, src);
    if pass1.None? {
      return None;
    }
    var (mass, amps, outcomes) := pass1.value;
    var claims := seq(|mass|, k requires 0 <= k < |mass| => Mul(mass[k], scaleInv));
    var rows := EmitRows(air, src, amps, outcomes, claims);
    if rows.None? {
      assert false;
      return None;
    }
    var padded := PadStreamingWithInactive(air, rows.value, src);
    return Some(padded);
  }

  lemma LastActiveColumns(air: DistributionAir, src: Source, row: Row)
    requires src.Buildable(air) && row == src.ActiveRow(air, air.dim - 1)
    ensures air.Shaped(row)
    ensures forall k: nat :: k < air.numOutcomes ==>
      air.Mass(row, k) == src.MassUpTo(k, air.dim) && air.Claim(row, k) == src.ClaimOf(air, k)
  {
    hide Source.ClaimOf, Source.MassUpTo, Source.RowOf;
    var t := air.dim - 1;
    RowEntries(air, src, src.Re(t), src.Im(t), k => if src.Hits(t, k) then 1 else 0, t + 1, 0);
  }

  lemma EmittedPad(air: DistributionAir, src: Source, row: Row, mass: seq<Fp>, claims: seq<Fp>)
    requires HasColumns(air, row, 0, 0, None, mass, claims, 1)
    requires forall k: nat :: k < air.numOutcomes ==> mass[k] == src.MassUpTo(k, |src.stateVector|) && claims[k] == src.ClaimOf(air, k)
    ensures row == src.PadRow(air)
  {
    hide Source.ClaimOf, Source.MassUpTo, Source.RowOf;
    FromColumns(air, src, row, 0, 0, None, mass, claims, 1, k => 0, |src.stateVector|);
  }

  /** Pads with rows that freeze mass and claim. */
  method PadStreamingWithInactive(air: DistributionAir, matrix: seq<Row>, ghost src: Source) returns (values: seq<Row>)
    requires src.Buildable(air) && |matrix| == air.dim
    requires forall t :: 0 <= t < |matrix| ==> matrix[t] == src.ActiveRow(air, t)
    ensures values == src.Trace(air)
  {
    hide Source.ActiveRow, Source.RowOf, Source.PadRow, Source.MassUpTo, Source.ClaimOf, HasColumns, UniStarkHeight;
    var height := |matrix|;
    var target := UniStarkHeight(height);
    if target == height {
      return matrix;
    }
    var lastActive := matrix[height - 1];
    LastActiveColumns(air, src, lastActive);
    var mass := seq(air.numOutcomes, k requires 0 <= k < air.numOutcomes => lastActive[air.ColMass(k)]);
    var claims := seq(air.numOutcomes, k requires 0 <= k < air.numOutcomes => lastActive[air.ColClaim(k)]);
    values := matrix;
    for t := height to target
      invariant |values| == t
      invariant forall u :: 0 <= u < height ==> values[u] == matrix[u]
      invariant forall u :: height <= u < t ==> values[u] == src.PadRow(air)
    {
      var row := EmitRow(air, 0, 0, None, mass, claims, 1);
      EmittedPad(air, src, row, mass, claims);
      values := values + [row];
    }
  }
}
