/** The Born circuit and its builder over the integers, column by column. */
module BornIntegers {

  import opened Options
  import opened M31
  import opened Primality
  import opened BornAir
  import opened BornTrace

  /** Columns 0 and 1 hold the amplitude, then come the selectors, masses and claims of the
      outcomes, and the pad flag. */
  predicate Readable(row: Row, outcomes: nat) { |row| == 3 + 3 * outcomes }

  /** s (re^2 + im^2). */
  function Weighted(s: int, re: int, im: int): int { s * (re * re + im * im) }

  /** sel_k (re^2 + im^2) summed over the first n rows, as integers. */
  function Selected(trace: seq<Row>, outcomes: nat, k: nat, n: nat): int
    requires n <= |trace| && k < outcomes && forall t :: 0 <= t < |trace| ==> Readable(trace[t], outcomes)
  {
    hide Weighted;
    if n == 0 then 0
    else
      var row := trace[n - 1];
      Selected(trace, outcomes, k, n - 1) + Weighted(row[2 + k], row[0], row[1])
  }

  lemma {:induction false} TotalIsSelected(air: DistributionAir, trace: seq<Row>, k: nat, n: nat)
    requires n <= |trace| && k < air.numOutcomes && forall t :: 0 <= t < |trace| ==> air.Shaped(trace[t])
    ensures forall t :: 0 <= t < |trace| ==> Readable(trace[t], air.numOutcomes)
    ensures air.Total(trace, k, n) == Selected(trace, air.numOutcomes, k, n) % P
  {
    hide Mul, Add, Red, Weighted;
    if n > 0 {
      var row := trace[n - 1];
      TotalIsSelected(air, trace, k, n - 1);
      ContributionIs(row[2 + k], row[0], row[1]);
      SumStep(Selected(trace, air.numOutcomes, k, n - 1), Weighted(row[2 + k], row[0], row[1]));
    }
  }

  lemma ContributionIs(s: Fp, re: Fp, im: Fp)
    ensures Mul(s, Add(Square(re), Square(im))) == Red(Weighted(s, re, im))
  {
    hide Mul, Add, Red;
    RedCanonical(s); RedCanonical(re); RedCanonical(im);
    RedMul(re, re); RedMul(im, im);
    RedAdd(re * re, im * im);
    RedMul(s, re * re + im * im);
  }

  lemma SumStep(a: int, b: int)
    ensures Add(a % P, Red(b)) == (a + b) % P
  {
    hide Add;
    RedAdd(a, b);
  }

  /** Soundness over the integers: in a satisfying trace whose first row is active, ten
      thousand times any row's claim is, modulo P, the sum of the selected re^2 + im^2. */
  lemma ClaimsAreSums(air: DistributionAir, trace: seq<Row>, k: nat, t: nat)
    requires air.Satisfies(trace) && k < air.numOutcomes && t < |trace|
    requires forall u :: 0 <= u < |trace| ==> Readable(trace[u], air.numOutcomes)
    requires trace[0][2 + 3 * air.numOutcomes] == 0
    ensures (trace[t][2 + 2 * air.numOutcomes + k] * 10000) % P == Selected(trace, air.numOutcomes, k, |trace|) % P
  {
    hide DistributionAir.Total, Selected;
    Soundness(air, trace, k, t);
    TotalIsSelected(air, trace, k, |trace|);
  }

  // ---- The builder ----

  /** Mass of outcome k over the first n bases, as an integer. */
  function MassOf(src: Source, k: nat, n: nat): int
    requires n <= |src.stateVector|
  {
    hide Weighted;
    if n == 0 then 0
    else
      var re, im := src.convert(src.stateVector[n - 1].0), src.convert(src.stateVector[n - 1].1);
      MassOf(src, k, n - 1) + (if src.outcomeOf(n - 1) == Some(k) then Weighted(1, re, im) else 0)
  }

  lemma {:induction false} MassUpToIs(src: Source, k: nat, n: nat)
    requires n <= |src.stateVector|
    ensures src.MassUpTo(k, n) == MassOf(src, k, n) % P
  {
    hide Mul, Add, Red, Weighted;
    if n > 0 {
      MassUpToIs(src, k, n - 1);
      var re, im := src.convert(src.stateVector[n - 1].0), src.convert(src.stateVector[n - 1].1);
      ContributionIs(1, re, im);
      MulOne(Add(Square(re), Square(im)));
      SumStep(MassOf(src, k, n - 1), Weighted(1, re, im));
    }
  }

  /** Row t of a built trace, entry by entry: the converted amplitude of basis t with the
      selector of its outcome alone, or zeros in the padding; the mass of every outcome
      over the bases so far; its claim, ten thousand times which is the total mass; and
      the pad flag. */
  lemma BuiltRow(air: DistributionAir, src: Source, t: nat, k: nat)
    requires src.Buildable(air) && t < |src.Trace(air)| && k < air.numOutcomes
    ensures var row, n, m := src.Trace(air)[t], |src.stateVector|, air.numOutcomes;
      && Readable(row, m) && row[2 + 3 * m] == (if t < n then 0 else 1)
      && row[0] == (if t < n then src.convert(src.stateVector[t].0) else 0)
      && row[1] == (if t < n then src.convert(src.stateVector[t].1) else 0)
      && row[2 + k] == (if t < n && src.outcomeOf(t) == Some(k) then 1 else 0)
      && row[2 + m + k] == MassOf(src, k, if t < n then t + 1 else n) % P
      && (row[2 + 2 * m + k] * 10000) % P == MassOf(src, k, n) % P
  {
    hide Source.MassUpTo, Source.ClaimOf, MassOf, Source.RowOf, Source.Trace, Mul;
    var n := |src.stateVector|;
    MassUpToIs(src, k, if t < n then t + 1 else n);
    MassUpToIs(src, k, n);
    ClaimMeetsMass(air, src, k);
    TraceRow(air, src, t);
    if t < n {
      RowEntries(air, src, src.Re(t), src.Im(t), j => if src.Hits(t, j) then 1 else 0, t + 1, 0);
    } else {
      RowEntries(air, src, 0, 0, j => 0, n, 1);
    }
    ProductIs(src.ClaimOf(air, k), BORN_ZK_SCALE);
  }

  lemma ProductIs(a: Fp, b: Fp)
    ensures Mul(a, b) == (a * b) % P
  {
  }

  lemma TraceRow(air: DistributionAir, src: Source, t: nat)
    requires t < |src.Trace(air)|
    ensures src.Trace(air)[t] == if t < |src.stateVector| then src.ActiveRow(air, t) else src.PadRow(air)
  {
    hide Source.RowOf;
  }
}
