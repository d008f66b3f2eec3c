/** The Bernoulli sampling circuit: one row per measurement. */
module ShotSamplingAir {

  import opened M31
  import opened Options
  import opened PowersOfTwo
  import opened Primality
  import opened ShotSampling

  const COL_P0: nat := 0
  const COL_P1: nat := 1
  const COL_U: nat := 2
  const COL_OUTCOME: nat := 3
  const COL_GAP: nat := 4
  const COL_GAP_BITS: nat := 5
  const COL_IS_PAD: nat := COL_GAP_BITS + SHOT_SAMPLING_GAP_BITS
  const WIDTH: nat := COL_IS_PAD + 1

  type Row = s: seq<Fp> | |s| == WIDTH witness seq(WIDTH, _ => 0)

  function Bit(row: Row, i: nat): Fp
    requires i < SHOT_SAMPLING_GAP_BITS
  { row[COL_GAP_BITS + i] }

  /** 2^i by repeated doubling. */
  function PowOf(i: nat): Fp { if i == 0 then 1 else Add(PowOf(i - 1), PowOf(i - 1)) }

  /** The sum of the first n bits, each with its power of two. */
  function Recomposed(row: Row, n: nat): Fp
    requires n <= SHOT_SAMPLING_GAP_BITS
  { if n == 0 then 0 else Add(Recomposed(row, n - 1), Mul(Bit(row, n - 1), PowOf(n - 1))) }

  function Active(row: Row): Fp { Sub(1, row[COL_IS_PAD]) }

  function Lhs(row: Row): Fp { Mul(row[COL_U], Add(row[COL_P0], row[COL_P1])) }

  function Rhs(row: Row): Fp { Mul(row[COL_P0], SHOT_SAMPLING_SCALE) }

  function ZeroBranch(row: Row): Fp { Sub(Sub(Sub(Rhs(row), Lhs(row)), row[COL_GAP]), 1) }

  function OneBranch(row: Row): Fp { Sub(Sub(Lhs(row), Rhs(row)), row[COL_GAP]) }

  function BoolTerm(active: Fp, x: Fp): Fp { Mul(active, Mul(x, Sub(x, 1))) }

  /** Pad flag, outcome and gap bits are bits. */
  ghost predicate BitsHold(row: Row) {
    && BoolTerm(1, row[COL_IS_PAD]) == 0
    && BoolTerm(Active(row), row[COL_OUTCOME]) == 0
    && (forall i: nat :: i < SHOT_SAMPLING_GAP_BITS ==> BoolTerm(Active(row), Bit(row, i)) == 0)
  }

  /** Every constraint of the circuit holds of the row. */
  ghost predicate Holds(row: Row) {
    && BitsHold(row)
    && Mul(Active(row), Sub(row[COL_GAP], Recomposed(row, SHOT_SAMPLING_GAP_BITS))) == 0
    && Mul(Active(row), Mul(Sub(1, row[COL_OUTCOME]), ZeroBranch(row))) == 0
    && Mul(Active(row), Mul(row[COL_OUTCOME], OneBranch(row))) == 0
  }

  // ---- The bits over the integers ----

  /** The number whose binary digits are the first n bits. */
  function BitValue(row: Row, n: nat): nat
    requires n <= SHOT_SAMPLING_GAP_BITS
  { if n == 0 then 0 else BitValue(row, n - 1) + (if Bit(row, n - 1) == 0 then 0 else Pow2(n - 1)) }

  lemma {:induction false} PowOfIsPow2(i: nat)
    requires i <= SHOT_SAMPLING_GAP_BITS
    ensures Pow2(i) <= 0x10_0000 && PowOf(i) == Pow2(i)
  {
    hide Pow2;
    Pow2Monotone(i, 20);
    TwentyBits();
    if i == 0 {
      PowZero();
    } else {
      PowOfIsPow2(i - 1);
      NextPower(i - 1);
    }
  }

  lemma PowZero()
    ensures Pow2(0) == 1
  {
  }

  lemma TwentyBits()
    ensures Pow2(20) == 0x10_0000
  {
    assert Pow2(10) == 1024;
  }

  lemma {:induction false} RecomposedIsValue(row: Row, n: nat)
    requires n <= SHOT_SAMPLING_GAP_BITS
    requires forall i: nat :: i < SHOT_SAMPLING_GAP_BITS ==> Bit(row, i) == 0 || Bit(row, i) == 1
    ensures BitValue(row, n) < Pow2(n) && Recomposed(row, n) == BitValue(row, n)
  {
    hide Mul, Bit, PowOf, Pow2;
    if n == 0 {
      PowOfIsPow2(0);
    } else {
      RecomposedIsValue(row, n - 1);
      PowOfIsPow2(n - 1);
      PowOfIsPow2(n);
      NextPower(n - 1);
      MulOne(PowOf(n - 1));
      MulZero(PowOf(n - 1));
    }
  }

  lemma NextPower(i: nat)
    ensures Pow2(i + 1) == 2 * Pow2(i)
  {
  }

  // ---- What the constraints mean for masses and samples on the grid ----

  ghost predicate OnGrid(row: Row) {
    row[COL_P0] <= SHOT_SAMPLING_SCALE && row[COL_P1] <= SHOT_SAMPLING_SCALE && row[COL_U] <= SHOT_SAMPLING_SCALE
  }

  /** u (p0 + p1) and 1000 p0 over the integers. */
  function IntLhs(row: Row): nat {
    var p0: nat, p1: nat, u: nat := row[COL_P0], row[COL_P1], row[COL_U];
    u * (p0 + p1)
  }

  function IntRhs(row: Row): nat {
    var p0: nat := row[COL_P0];
    p0 * SHOT_SAMPLING_SCALE
  }

  function IntGap(row: Row): nat { row[COL_GAP] }

  /** The integer rule, with the gap in binary. */
  ghost predicate IntegerRule(row: Row) {
    && (row[COL_OUTCOME] == 0 || row[COL_OUTCOME] == 1)
    && (forall i: nat :: i < SHOT_SAMPLING_GAP_BITS ==> Bit(row, i) == 0 || Bit(row, i) == 1)
    && IntGap(row) == BitValue(row, SHOT_SAMPLING_GAP_BITS)
    && (row[COL_OUTCOME] == 0 ==> IntLhs(row) + IntGap(row) + 1 == IntRhs(row))
    && (row[COL_OUTCOME] == 1 ==> IntLhs(row) == IntRhs(row) + IntGap(row))
  }

  lemma BoolMeaning(active: Fp, x: Fp)
    requires active == 1
    ensures BoolTerm(active, x) == 0 <==> x == 0 || x == 1
  {
    hide Mul;
    MulOne(Mul(x, Sub(x, 1)));
    BooleanIff(x);
  }

  lemma SmallResidue(z: int)
    requires -P < z < P
    ensures Red(z) == 0 <==> z == 0
  {
  }

  /** The branches vanish modulo P exactly when they vanish over the integers. */
  lemma BranchesExact(row: Row)
    requires OnGrid(row) && IntGap(row) < 0x10_0000
    ensures ZeroBranch(row) == 0 <==> IntLhs(row) + IntGap(row) + 1 == IntRhs(row)
    ensures OneBranch(row) == 0 <==> IntLhs(row) == IntRhs(row) + IntGap(row)
  {
    SidesBounded(row);
    LhsRhs(row);
    hide Sub, Red, Lhs, Rhs, IntLhs, IntRhs;
    var lhs: int, rhs: int, gap: int := IntLhs(row), IntRhs(row), IntGap(row);
    RedCanonical(row[COL_GAP]); RedCanonical(1);
    RedSub(rhs, lhs); RedSub(rhs - lhs, gap); RedSub(rhs - lhs - gap, 1);
    RedSub(lhs, rhs); RedSub(lhs - rhs, gap);
    SmallResidue(rhs - lhs - gap - 1);
    SmallResidue(lhs - rhs - gap);
  }

  lemma SidesBounded(row: Row)
    requires OnGrid(row)
    ensures IntLhs(row) <= 2_000_000 && IntRhs(row) <= 1_000_000
  {
    var p0: nat, p1: nat, u: nat := row[COL_P0], row[COL_P1], row[COL_U];
    TimesMonotone(u, SHOT_SAMPLING_SCALE, p0 + p1);
  }

  lemma LhsRhs(row: Row)
    ensures Lhs(row) == Red(IntLhs(row)) && Rhs(row) == Red(IntRhs(row))
  {
    hide Add, Mul, Red;
    var p0: int, p1: int, u: int := row[COL_P0], row[COL_P1], row[COL_U];
    RedCanonical(row[COL_P0]); RedCanonical(row[COL_P1]); RedCanonical(row[COL_U]); RedCanonical(1000);
    RedAdd(p0, p1); RedMul(u, p0 + p1); RedMul(p0, SHOT_SAMPLING_SCALE);
  }

  lemma GapMeaning(row: Row)
    requires forall i: nat :: i < SHOT_SAMPLING_GAP_BITS ==> Bit(row, i) == 0 || Bit(row, i) == 1
    ensures Sub(row[COL_GAP], Recomposed(row, SHOT_SAMPLING_GAP_BITS)) == 0
            <==> row[COL_GAP] == BitValue(row, SHOT_SAMPLING_GAP_BITS)
    ensures BitValue(row, SHOT_SAMPLING_GAP_BITS) < 0x10_0000
  {
    hide Bit, BitValue, Recomposed, Sub, Pow2;
    RecomposedIsValue(row, SHOT_SAMPLING_GAP_BITS);
    TwentyBits();
    SubZero(row[COL_GAP], Recomposed(row, SHOT_SAMPLING_GAP_BITS));
  }

  /** The constraints of an active row: bits are bits, the gap is their value, and the
      branch of the outcome vanishes modulo P. */
  ghost predicate FieldRule(row: Row) {
    && (row[COL_OUTCOME] == 0 || row[COL_OUTCOME] == 1)
    && (forall i: nat :: i < SHOT_SAMPLING_GAP_BITS ==> Bit(row, i) == 0 || Bit(row, i) == 1)
    && IntGap(row) == BitValue(row, SHOT_SAMPLING_GAP_BITS)
    && (row[COL_OUTCOME] == 0 ==> ZeroBranch(row) == 0)
    && (row[COL_OUTCOME] == 1 ==> OneBranch(row) == 0)
  }

  lemma ConstraintsAreFieldRule(row: Row)
    requires row[COL_IS_PAD] == 0
    ensures Holds(row) <==> FieldRule(row)
  {
    hide Mul, Sub, Recomposed, BitValue, ZeroBranch, OneBranch, BoolTerm, Bit;
    assert Active(row) == 1 by { OneLessZero(); }
    var outcome := row[COL_OUTCOME];
    BoolMeaning(1, row[COL_IS_PAD]);
    BoolMeaning(1, outcome);
    forall i: nat | i < SHOT_SAMPLING_GAP_BITS
      ensures BoolTerm(1, Bit(row, i)) == 0 <==> Bit(row, i) == 0 || Bit(row, i) == 1
    {
      BoolMeaning(1, Bit(row, i));
    }
    if (outcome == 0 || outcome == 1) && forall i: nat :: i < SHOT_SAMPLING_GAP_BITS ==> Bit(row, i) == 0 || Bit(row, i) == 1 {
      GapMeaning(row);
      ZeroProduct(1, Sub(row[COL_GAP], Recomposed(row, SHOT_SAMPLING_GAP_BITS)));
      BranchTerms(row);
    }
  }

  /** An active row with masses and sample on the grid satisfies the constraints modulo P
      exactly when it satisfies the integer rule. */
  lemma ConstraintsAreIntegerRule(row: Row)
    requires OnGrid(row) && row[COL_IS_PAD] == 0
    ensures Holds(row) <==> IntegerRule(row)
  {
    hide Holds, ZeroBranch, OneBranch, BitValue, Bit, IntLhs, IntRhs;
    ConstraintsAreFieldRule(row);
    if forall i: nat :: i < SHOT_SAMPLING_GAP_BITS ==> Bit(row, i) == 0 || Bit(row, i) == 1 {
      GapMeaning(row);
      if IntGap(row) == BitValue(row, SHOT_SAMPLING_GAP_BITS) {
        BranchesExact(row);
      }
    }
  }

  lemma OneLessZero()
    ensures Sub(1, 0) == 1 && Sub(1, 1) == 0
  {
  }

  lemma BranchTerms(row: Row)
    requires row[COL_OUTCOME] == 0 || row[COL_OUTCOME] == 1
    ensures Mul(1, Mul(Sub(1, row[COL_OUTCOME]), ZeroBranch(row))) == 0 <==> row[COL_OUTCOME] == 1 || ZeroBranch(row) == 0
    ensures Mul(1, Mul(row[COL_OUTCOME], OneBranch(row))) == 0 <==> row[COL_OUTCOME] == 0 || OneBranch(row) == 0
  {
    hide Mul, Sub, ZeroBranch, OneBranch;
    OneLessZero();
    ZeroProduct(Sub(1, row[COL_OUTCOME]), ZeroBranch(row));
    ZeroProduct(row[COL_OUTCOME], OneBranch(row));
    MulOne(Mul(Sub(1, row[COL_OUTCOME]), ZeroBranch(row)));
    MulOne(Mul(row[COL_OUTCOME], OneBranch(row)));
  }

  // ---- When the outcome is decided ----

  /** 1000 p0 - u (p0 + p1) over the integers: outcome 0 is right exactly when it is
      positive. */
  function Excess(p0: Fp, p1: Fp, u: Fp): int {
    var a: int, b: int, c: int := p0, p1, u;
    a * SHOT_SAMPLING_SCALE - c * (a + b)
  }

  /** The one gap that makes the branch of the outcome vanish modulo P. */
  function GapFor(d: int, outcome: nat): (gap: Fp) {
    if outcome == 0 then Red(d - 1) else Red(-d)
  }

  /** An active row with these masses and this sample that satisfies the circuit. */
  ghost predicate Accepted(row: Row, p0: Fp, p1: Fp, u: Fp) {
    Holds(row) && row[COL_IS_PAD] == 0 && row[COL_P0] == p0 && row[COL_P1] == p1 && row[COL_U] == u
  }

  /** Every accepted row shows the integer decision. */
  ghost predicate Decides(p0: Fp, p1: Fp, u: Fp) {
    forall row: Row :: Accepted(row, p0, p1, u) ==> (row[COL_OUTCOME] == 0 <==> Excess(p0, p1, u) > 0)
  }

  lemma ResidueIff(z: int, gap: Fp)
    ensures Red(z - gap) == 0 <==> gap == Red(z)
  {
    hide Red, Sub;
    RedCanonical(gap);
    RedSub(z, gap);
    SubZero(Red(z), gap);
  }

  /** Each branch vanishes for one gap. */
  lemma BranchesFixGap(row: Row)
    ensures var d := Excess(row[COL_P0], row[COL_P1], row[COL_U]);
      && (ZeroBranch(row) == 0 <==> row[COL_GAP] == GapFor(d, 0))
      && (OneBranch(row) == 0 <==> row[COL_GAP] == GapFor(d, 1))
  {
    LhsRhs(row);
    hide Sub, Red, Lhs, Rhs;
    var d := Excess(row[COL_P0], row[COL_P1], row[COL_U]);
    var lhs: int, rhs: int, gap: int := IntLhs(row), IntRhs(row), row[COL_GAP];
    assert d == rhs - lhs;
    hide IntLhs, IntRhs, Excess;
    RedCanonical(row[COL_GAP]); RedCanonical(1);
    RedSub(rhs, lhs); RedSub(rhs - lhs, gap); RedSub(rhs - lhs - gap, 1);
    RedSub(lhs, rhs); RedSub(lhs - rhs, gap);
    assert rhs - lhs - gap - 1 == d - 1 - gap && lhs - rhs - gap == -d - gap;
    ResidueIff(d - 1, row[COL_GAP]);
    ResidueIff(-d, row[COL_GAP]);
  }

  /** An accepted row's gap is the one its outcome calls for, and fits 20 bits. */
  lemma AcceptedGap(row: Row, p0: Fp, p1: Fp, u: Fp)
    requires Accepted(row, p0, p1, u)
    ensures (row[COL_OUTCOME] == 0 || row[COL_OUTCOME] == 1)
    ensures row[COL_GAP] == GapFor(Excess(p0, p1, u), row[COL_OUTCOME]) < 0x10_0000
  {
    hide Holds, ZeroBranch, OneBranch, BitValue, Bit, GapFor, Excess;
    ConstraintsAreFieldRule(row);
    GapMeaning(row);
    BranchesFixGap(row);
  }

  /** The row with that outcome and gap, bits filled in. */
  function RowFor(p0: Fp, p1: Fp, u: Fp, outcome: nat): (row: Row)
    requires outcome <= 1
  {
    var gap := GapFor(Excess(p0, p1, u), outcome);
    [p0, p1, u, outcome, gap] + seq(SHOT_SAMPLING_GAP_BITS, i requires 0 <= i < SHOT_SAMPLING_GAP_BITS => Digit(gap, i)) + [0]
  }

  lemma RowForAccepted(p0: Fp, p1: Fp, u: Fp, outcome: nat)
    requires outcome <= 1 && GapFor(Excess(p0, p1, u), outcome) < 0x10_0000
    ensures Accepted(RowFor(p0, p1, u, outcome), p0, p1, u) && RowFor(p0, p1, u, outcome)[COL_OUTCOME] == outcome
  {
    hide Holds, ZeroBranch, OneBranch, BitValue, Digit, GapFor, Excess;
    var gap := GapFor(Excess(p0, p1, u), outcome);
    var row := RowFor(p0, p1, u, outcome);
    forall i: nat | i < SHOT_SAMPLING_GAP_BITS
      ensures Bit(row, i) == Digit(gap, i)
    {
    }
    DigitsValue(row, gap);
    BranchesFixGap(row);
    ConstraintsAreFieldRule(row);
  }

  /** An outcome can be shown exactly when its gap fits 20 bits. */
  lemma ShownIff(p0: Fp, p1: Fp, u: Fp, outcome: nat)
    requires outcome <= 1
    ensures (exists row: Row :: Accepted(row, p0, p1, u) && row[COL_OUTCOME] == outcome)
            <==> GapFor(Excess(p0, p1, u), outcome) < 0x10_0000
  {
    hide Accepted, GapFor, Excess, RowFor;
    if row: Row :| Accepted(row, p0, p1, u) && row[COL_OUTCOME] == outcome {
      AcceptedGap(row, p0, p1, u);
    }
    if GapFor(Excess(p0, p1, u), outcome) < 0x10_0000 {
      RowForAccepted(p0, p1, u, outcome);
    }
  }

  /** For any masses and sample the circuit forces the integer decision exactly when the
      gap of the wrong outcome does not fit 20 bits modulo P. */
  lemma DecidesIff(p0: Fp, p1: Fp, u: Fp)
    ensures Decides(p0, p1, u)
            <==> var d := Excess(p0, p1, u);
                 || (d > 0 && Red(-d) >= 0x10_0000)
                 || (d <= 0 && Red(d - 1) >= 0x10_0000)
  {
    hide Accepted, Excess, Red;
    var wrong := if Excess(p0, p1, u) > 0 then 1 else 0;
    ShownIff(p0, p1, u, wrong);
    forall row: Row | Accepted(row, p0, p1, u)
      ensures row[COL_OUTCOME] == 0 || row[COL_OUTCOME] == 1
    {
      AcceptedGap(row, p0, p1, u);
    }
  }

  /** On the grid it always does. */
  lemma OnGridDecides(p0: Fp, p1: Fp, u: Fp)
    requires p0 <= SHOT_SAMPLING_SCALE && p1 <= SHOT_SAMPLING_SCALE && u <= SHOT_SAMPLING_SCALE
    ensures Decides(p0, p1, u)
  {
    hide Decides, Excess, Red;
    DecidesIff(p0, p1, u);
    ExcessOnGrid(p0, p1, u);
    SmallWraps(Excess(p0, p1, u));
  }

  lemma ExcessOnGrid(p0: Fp, p1: Fp, u: Fp)
    requires p0 <= SHOT_SAMPLING_SCALE && p1 <= SHOT_SAMPLING_SCALE && u <= SHOT_SAMPLING_SCALE
    ensures -2_000_000 <= Excess(p0, p1, u) <= 1_000_000
  {
    var a: nat, b: nat, c: nat := p0, p1, u;
    TimesMonotone(c, SHOT_SAMPLING_SCALE, a + b);
    TimesMonotone(0, c, a + b);
  }

  lemma SmallWraps(d: int)
    requires -2_000_000 <= d <= 1_000_000
    ensures d > 0 ==> Red(-d) == P - d
    ensures d <= 0 ==> Red(d - 1) == P + d - 1
  {
    RedShift(-d, 1);
    RedShift(d - 1, 1);
  }

  /** Soundness: on the grid the outcome is the integer decision. */
  lemma Soundness(row: Row)
    requires OnGrid(row) && row[COL_IS_PAD] == 0 && Holds(row)
    ensures row[COL_OUTCOME] == 0 || row[COL_OUTCOME] == 1
    ensures row[COL_OUTCOME] == 0 <==> IntLhs(row) < IntRhs(row)
  {
    hide Holds;
    var p0, p1, u := row[COL_P0], row[COL_P1], row[COL_U];
    OnGridDecides(p0, p1, u);
    assert Accepted(row, p0, p1, u);
    AcceptedGap(row, p0, p1, u);
  }

  /** Off the grid it may not: with p0 = 2147483 the product wraps, and outcome 1 is
      accepted where the rule says 0. */
  lemma OffGridWraps()
    ensures Excess(2147483, 0, 0) > 0 && !Decides(2147483, 0, 0)
  {
    DecidesIff(2147483, 0, 0);
    assert Red(-2147483000) == 647 by {
      RedShift(-2147483000, 1);
    }
  }

  /** Nor does the grid bound the good cases: with p0 = 1001 the decision is forced. */
  lemma OffGridMayDecide()
    ensures Decides(1001, 0, 0)
  {
    hide Decides;
    DecidesIff(1001, 0, 0);
    RedShift(-1001000, 1);
  }

  // ---- The host accumulator ----

  function BitTerms(row: Row, n: nat): Fp
    requires n <= SHOT_SAMPLING_GAP_BITS
  {
    if n == 0 then Add(Mul(row[COL_IS_PAD], Sub(row[COL_IS_PAD], 1)), Mul(Mul(Active(row), row[COL_OUTCOME]), Sub(row[COL_OUTCOME], 1)))
    else Add(BitTerms(row, n - 1), Mul(Mul(Active(row), Bit(row, n - 1)), Sub(Bit(row, n - 1), 1)))
  }

  /** The sum of all constraint terms. */
  function RowSum(row: Row): Fp {
    var n, active, outcome := SHOT_SAMPLING_GAP_BITS, Active(row), row[COL_OUTCOME];
    Add(Add(Add(BitTerms(row, n), Mul(active, Sub(row[COL_GAP], Recomposed(row, n)))),
            Mul(Mul(active, Sub(1, outcome)), ZeroBranch(row))),
        Mul(Mul(active, outcome), OneBranch(row)))
  }

  method EvaluateRowSum(row: Row) returns (acc: Fp)
    ensures acc == RowSum(row)
  {
    hide Mul, Add, Sub;
    var active, outcome := Active(row), row[COL_OUTCOME];
    acc := Add(Mul(row[COL_IS_PAD], Sub(row[COL_IS_PAD], 1)), Mul(Mul(active, outcome), Sub(outcome, 1)));
    var recomposed: Fp, pow: Fp := 0, 1;
    for i := 0 to SHOT_SAMPLING_GAP_BITS
      invariant acc == BitTerms(row, i) && recomposed == Recomposed(row, i) && pow == PowOf(i)
    {
      var bit := Bit(row, i);
      acc := Add(acc, Mul(Mul(active, bit), Sub(bit, 1)));
      recomposed := Add(recomposed, Mul(bit, pow));
      pow := Add(pow, pow);
    }
    acc := Add(acc, Mul(active, Sub(row[COL_GAP], recomposed)));
    acc := Add(acc, Mul(Mul(active, Sub(1, outcome)), ZeroBranch(row)));
    acc := Add(acc, Mul(Mul(active, outcome), OneBranch(row)));
  }

  lemma AssociatedZero(a: Fp, b: Fp, c: Fp)
    requires Mul(a, Mul(b, c)) == 0
    ensures Mul(Mul(a, b), c) == 0
  {
    hide Mul;
    MulAssoc(a, b, c);
  }

  lemma AddZeros()
    ensures Add(0, 0) == 0
  {
  }

  lemma {:induction false} BitTermsVanish(row: Row, n: nat)
    requires BitsHold(row) && n <= SHOT_SAMPLING_GAP_BITS
    ensures BitTerms(row, n) == 0
  {
    hide Mul, Add, Sub, Bit, ZeroBranch, OneBranch, Recomposed;
    AddZeros();
    if n == 0 {
      var p := row[COL_IS_PAD];
      MulOne(Mul(p, Sub(p, 1)));
      AssociatedZero(Active(row), row[COL_OUTCOME], Sub(row[COL_OUTCOME], 1));
    } else {
      BitTermsVanish(row, n - 1);
      assert BoolTerm(Active(row), Bit(row, n - 1)) == 0;
      AssociatedZero(Active(row), Bit(row, n - 1), Sub(Bit(row, n - 1), 1));
    }
  }

  /** The accumulator is zero on every row that satisfies the constraints. */
  lemma SumVanishes(row: Row)
    requires Holds(row)
    ensures RowSum(row) == 0
  {
    BitTermsVanish(row, SHOT_SAMPLING_GAP_BITS);
    hide Mul, Add, Sub, Bit, ZeroBranch, OneBranch, Recomposed, BitTerms;
    AddZeros();
    AssociatedZero(Active(row), Sub(1, row[COL_OUTCOME]), ZeroBranch(row));
    AssociatedZero(Active(row), row[COL_OUTCOME], OneBranch(row));
  }

  /** An active row of bits adds up to its gap error and the branch of its outcome. */
  lemma SumOfBits(row: Row)
    requires BitsHold(row) && row[COL_IS_PAD] == 0
    ensures row[COL_OUTCOME] == 0 || row[COL_OUTCOME] == 1
    ensures RowSum(row) == Add(Sub(row[COL_GAP], Recomposed(row, SHOT_SAMPLING_GAP_BITS)),
                               if row[COL_OUTCOME] == 0 then ZeroBranch(row) else OneBranch(row))
  {
    BitTermsVanish(row, SHOT_SAMPLING_GAP_BITS);
    hide Mul, Add, Sub, Bit, ZeroBranch, OneBranch, Recomposed, BitTerms;
    OneLessZero();
    BoolMeaning(1, row[COL_OUTCOME]);
    var e := Sub(row[COL_GAP], Recomposed(row, SHOT_SAMPLING_GAP_BITS));
    MulOne(e); MulOne(1); MulOne(0);
    MulOne(ZeroBranch(row)); MulOne(OneBranch(row));
    MulZero(ZeroBranch(row)); MulZero(OneBranch(row)); MulZero(1);
    AddZero(e);
    AddZero(Add(e, ZeroBranch(row))); AddZero(Add(e, OneBranch(row)));
  }

  lemma BitsAreBits(row: Row)
    requires BitsHold(row) && row[COL_IS_PAD] == 0
    ensures forall i: nat :: i < SHOT_SAMPLING_GAP_BITS ==> Bit(row, i) == 0 || Bit(row, i) == 1
  {
    hide Mul, Sub, Bit;
    OneLessZero();
    forall i: nat | i < SHOT_SAMPLING_GAP_BITS
      ensures Bit(row, i) == 0 || Bit(row, i) == 1
    {
      BoolMeaning(1, Bit(row, i));
    }
  }

  /** The gap column cancels: a sum of g - v and w - g is w - v. */
  lemma GapCancels(z: int, gap: Fp, v: Fp)
    ensures Add(Sub(gap, v), Red(z - gap)) == Sub(Red(z), v)
  {
    hide Add, Sub, Red;
    RedCanonical(gap); RedCanonical(v);
    RedSub(gap, v); RedAdd(gap - v, z - gap); RedSub(z, v);
  }

  /** Each branch is the gap it calls for, less the gap column. */
  lemma BranchesAre(row: Row)
    ensures var d: int, gap: int := Excess(row[COL_P0], row[COL_P1], row[COL_U]), row[COL_GAP];
      ZeroBranch(row) == Red(d - 1 - gap) && OneBranch(row) == Red(-d - gap)
  {
    LhsRhs(row);
    hide Sub, Red, Lhs, Rhs;
    var d := Excess(row[COL_P0], row[COL_P1], row[COL_U]);
    var lhs: int, rhs: int, gap: int := IntLhs(row), IntRhs(row), row[COL_GAP];
    assert d == rhs - lhs;
    hide IntLhs, IntRhs, Excess;
    RedCanonical(row[COL_GAP]); RedCanonical(1);
    RedSub(rhs, lhs); RedSub(rhs - lhs, gap); RedSub(rhs - lhs - gap, 1);
    RedSub(lhs, rhs); RedSub(lhs - rhs, gap);
    assert rhs - lhs - gap - 1 == d - 1 - gap && lhs - rhs - gap == -d - gap;
  }

  /** The gap the row's outcome calls for. */
  function WantedGap(row: Row): Fp { GapFor(Excess(row[COL_P0], row[COL_P1], row[COL_U]), row[COL_OUTCOME]) }

  /** An active row of bits sums to the gap called for, less what the bits recompose to. */
  lemma SumOfGap(row: Row)
    requires BitsHold(row) && row[COL_IS_PAD] == 0
    ensures RowSum(row) == Sub(WantedGap(row), Recomposed(row, SHOT_SAMPLING_GAP_BITS))
  {
    hide Mul, Add, Sub, Red, Bit, BitsHold, ZeroBranch, OneBranch, Recomposed, RowSum, Excess;
    SumOfBits(row);
    BranchesAre(row);
    var d, v := Excess(row[COL_P0], row[COL_P1], row[COL_U]), Recomposed(row, SHOT_SAMPLING_GAP_BITS);
    if row[COL_OUTCOME] == 0 {
      GapCancels(d - 1, row[COL_GAP], v);
    } else {
      GapCancels(-d, row[COL_GAP], v);
    }
  }

  /** An active row of bits sums to zero exactly when its bits spell the gap its outcome
      calls for, whatever stands in the gap column. */
  lemma ZeroSumIff(row: Row)
    requires BitsHold(row) && row[COL_IS_PAD] == 0
    ensures RowSum(row) == 0 <==> BitValue(row, SHOT_SAMPLING_GAP_BITS) == WantedGap(row)
  {
    hide Sub, Bit, BitsHold, Recomposed, BitValue, RowSum, WantedGap, Pow2;
    SumOfGap(row);
    BitsAreBits(row);
    RecomposedIsValue(row, SHOT_SAMPLING_GAP_BITS);
    SubZero(WantedGap(row), Recomposed(row, SHOT_SAMPLING_GAP_BITS));
  }

  /** And it satisfies the constraints exactly when the gap column agrees too. */
  lemma HoldsIff(row: Row)
    requires BitsHold(row) && row[COL_IS_PAD] == 0
    ensures Holds(row) <==> row[COL_GAP] == BitValue(row, SHOT_SAMPLING_GAP_BITS) == WantedGap(row)
  {
    SumOfBits(row);
    BitsAreBits(row);
    hide Mul, Add, Sub, Red, Bit, ZeroBranch, OneBranch, Recomposed, BitValue, RowSum, Excess, Pow2, GapFor, Holds, BitsHold;
    ConstraintsAreFieldRule(row);
    BranchesFixGap(row);
  }

  /** For an active row of bits, the sum is zero if and only if the constraints hold,
      exactly when the bits spell the gap column or miss the gap called for. */
  lemma SumDecidesIff(row: Row)
    requires BitsHold(row) && row[COL_IS_PAD] == 0
    ensures (RowSum(row) == 0 <==> Holds(row))
            <==> row[COL_GAP] == BitValue(row, SHOT_SAMPLING_GAP_BITS) || BitValue(row, SHOT_SAMPLING_GAP_BITS) != WantedGap(row)
  {
    hide BitsHold, Holds, RowSum, BitValue, WantedGap;
    ZeroSumIff(row);
    HoldsIff(row);
  }

  /** Of a pad row both are always true. */
  lemma PadRowSums(row: Row)
    requires row[COL_IS_PAD] == 1
    ensures RowSum(row) == 0 && Holds(row)
  {
    hide Mul, Bit, ZeroBranch, OneBranch, Recomposed, BitTerms, RowSum;
    OneLessZero();
    MulZero(1);
    BooleanIff(1);
    MulOne(Mul(1, Sub(1, 1)));
    forall x: Fp
      ensures Mul(0, x) == 0
    {
      MulZero(x);
    }
    SumVanishes(row);
  }

  /** On the grid a zero sum of a row of bits already forces the integer decision. */
  lemma ZeroSumDecides(row: Row)
    requires OnGrid(row) && BitsHold(row) && row[COL_IS_PAD] == 0 && RowSum(row) == 0
    ensures row[COL_OUTCOME] == 0 || row[COL_OUTCOME] == 1
    ensures row[COL_OUTCOME] == 0 <==> IntLhs(row) < IntRhs(row)
  {
    var d := Excess(row[COL_P0], row[COL_P1], row[COL_U]);
    assert d == IntRhs(row) - IntLhs(row);
    hide Mul, Add, Sub, Red, Bit, BitsHold, RowSum, Excess, BitValue, Recomposed, IntLhs, IntRhs;
    SumOfBits(row);
    BitsAreBits(row);
    ZeroSumIff(row);
    GapMeaning(row);
    ExcessOnGrid(row[COL_P0], row[COL_P1], row[COL_U]);
    SmallWraps(d);
  }

  /** Terms do cancel: a gap error of five against a branch five short. */
  lemma TermsCancel() returns (row: Row)
    ensures OnGrid(row) && BitsHold(row) && row[COL_IS_PAD] == 0 && RowSum(row) == 0 && !Holds(row)
  {
    row := [1, 998, 1, 0, 5] + seq(SHOT_SAMPLING_GAP_BITS, i requires 0 <= i < SHOT_SAMPLING_GAP_BITS => 0) + [0];
    hide Recomposed, BitValue, RowSum;
    forall i: nat | i < SHOT_SAMPLING_GAP_BITS
      ensures Bit(row, i) == 0
    {
    }
    NoBits(row, SHOT_SAMPLING_GAP_BITS);
    hide ZeroBranch, OneBranch, Mul;
    ConstraintsAreFieldRule(row);
    MulZero(1); MulZero(Sub(0, 1)); MulZero(0);
    SumOfBits(row);
    FiveShort(row);
  }

  lemma FiveShort(row: Row)
    requires row[COL_P0] == 1 && row[COL_P1] == 998 && row[COL_U] == 1 && row[COL_GAP] == 5
    ensures ZeroBranch(row) == P - 5
  {
    hide Mul;
    MulOne(Add(1, 998));
    MulOne(1000);
  }

  lemma {:induction false} NoBits(row: Row, n: nat)
    requires n <= SHOT_SAMPLING_GAP_BITS && forall i: nat :: i < SHOT_SAMPLING_GAP_BITS ==> Bit(row, i) == 0
    ensures BitValue(row, n) == 0 && Recomposed(row, n) == 0
  {
    hide Bit, PowOf, Mul;
    if n > 0 {
      NoBits(row, n - 1);
      MulZero(PowOf(n - 1));
    }
  }

  // ---- Filling a row ----

  /** Digit i of n. */
  function Digit(n: nat, i: nat): (d: nat)
    ensures d <= 1
  { Shr(n, i) % 2 }

  lemma {:induction false} DigitsSum(row: Row, gap: nat, n: nat)
    requires n <= SHOT_SAMPLING_GAP_BITS
    requires forall i: nat :: i < SHOT_SAMPLING_GAP_BITS ==> Bit(row, i) == Digit(gap, i)
    ensures gap == BitValue(row, n) + Shr(gap, n) * Pow2(n)
  {
    hide Bit, Shr, Pow2;
    if n == 0 {
      ShrNone(gap);
      PowOfIsPow2(0);
    } else {
      DigitsSum(row, gap, n - 1);
      ShrStep(gap, n - 1);
      NextPower(n - 1);
      LowDigit(Shr(gap, n - 1), Pow2(n - 1));
      assert Bit(row, n - 1) == Digit(gap, n - 1);
    }
  }

  lemma LowDigit(h: nat, w: nat)
    ensures h * w == (h / 2) * (2 * w) + (if h % 2 == 0 then 0 else w)
  {
    var k, d := h / 2, h % 2;
    assert h == 2 * k + d;
    assert (2 * k + d) * w == k * (2 * w) + d * w;
  }

  lemma ShiftedOut(gap: nat)
    requires gap < 0x10_0000
    ensures Shr(gap, SHOT_SAMPLING_GAP_BITS) == 0
  {
    hide Shr;
    TwentyBits();
    ShrBound(gap, SHOT_SAMPLING_GAP_BITS, 0);
  }

  lemma DigitsValue(row: Row, gap: nat)
    requires gap < 0x10_0000
    requires forall i: nat :: i < SHOT_SAMPLING_GAP_BITS ==> Bit(row, i) == Digit(gap, i)
    ensures BitValue(row, SHOT_SAMPLING_GAP_BITS) == gap
  {
    hide Bit, BitValue, Digit, Pow2, Shr;
    DigitsSum(row, gap, SHOT_SAMPLING_GAP_BITS);
    ShiftedOut(gap);
  }

  /** The row filled from a witness. */
  ghost predicate Filled(row: Row, w: Witness, outcome: nat) {
    && row[COL_P0] == w.p0 && row[COL_P1] == w.p1 && row[COL_U] == w.u
    && row[COL_OUTCOME] == outcome && row[COL_GAP] == w.gap && row[COL_IS_PAD] == 0
    && forall i: nat :: i < SHOT_SAMPLING_GAP_BITS ==> Bit(row, i) == Digit(w.gap, i)
  }

  /** Completeness: a row filled from a witness of the integer rule satisfies every
      constraint. */
  lemma FilledRowHolds(row: Row, w: Witness, outcome: nat)
    requires Filled(row, w, outcome) && outcome <= 1
    requires w.p0 <= SHOT_SAMPLING_SCALE && w.p1 <= SHOT_SAMPLING_SCALE && w.u <= SHOT_SAMPLING_SCALE && w.gap < 0x10_0000
    requires outcome == 0 ==> w.u * (w.p0 + w.p1) + w.gap + 1 == w.p0 * SHOT_SAMPLING_SCALE
    requires outcome == 1 ==> w.u * (w.p0 + w.p1) == w.p0 * SHOT_SAMPLING_SCALE + w.gap
    ensures Holds(row)
  {
    hide Holds, Bit, BitValue, Digit;
    DigitsValue(row, w.gap);
    ConstraintsAreIntegerRule(row);
  }

  /** Searches the witness and writes the row; the row check never fails. */
  method FillRow(row: array<Fp>, p0: real, p1: real, sampleU: real, outcome: nat) returns (ok: bool)
    requires row.Length == WIDTH
    modifies row
    ensures var (a, b) := Masses(p0, p1);
      ok <==> outcome <= 1 && Matches(Extreme(QuantizeUnit(sampleU), outcome), a, b, outcome)
    ensures ok ==> Holds(row[..]) && row[COL_OUTCOME] == outcome && row[COL_IS_PAD] == 0
                   && (row[COL_P0], row[COL_P1]) == Masses(p0, p1)
    ensures ok ==> Reachable(row[COL_U], QuantizeUnit(sampleU))
                   && NoneNearer(QuantizeUnit(sampleU), row[COL_P0], row[COL_P1], outcome, Distance(row[COL_U], QuantizeUnit(sampleU)))
  {
    hide Holds, RowSum, Masses, QuantizeUnit, Matches, Extreme;
    var w := FixedPointBernoulliWitnesses(p0, p1, sampleU, outcome);
    if w.None? {
      return false;
    }
    var (p0i, p1i, u, gap) := (w.value.p0, w.value.p1, w.value.u, w.value.gap);
    row[COL_P0] := p0i;
    row[COL_P1] := p1i;
    row[COL_U] := u;
    row[COL_OUTCOME] := outcome;
    row[COL_GAP] := gap;
    for i := 0 to SHOT_SAMPLING_GAP_BITS
      invariant row[COL_P0] == p0i && row[COL_P1] == p1i && row[COL_U] == u && row[COL_OUTCOME] == outcome && row[COL_GAP] == gap
      invariant forall j :: 0 <= j < i ==> row[COL_GAP_BITS + j] == Digit(gap, j)
    {
      row[COL_GAP_BITS + i] := Digit(gap, i);
    }
    row[COL_IS_PAD] := 0;
    FilledRowHolds(row[..], w.value, outcome);
    SumVanishes(row[..]);
    var sum := EvaluateRowSum(row[..]);
    if sum != 0 {
      assert false;
      return false;
    }
    return true;
  }
}
