/** The variable-width DEEP circuit: constraints on one padded public vector. */
module DeepLeafAir {

  import opened Options
  import opened M31
  import opened Ef3
  import opened Primality
  import opened EfLimbs
  import opened DeepNative

  const MAX_W: nat := LEAF_DEEP_RO_MAX_WIDTH

  /** The public values, unflattened. */
  datatype Leaf = Leaf(sx: Fp, sy: Fp, at: EfPoint, atn: EfPoint, alpha: Ef, width: Fp, active: seq<Fp>, px: seq<Fp>,
                       pzLocal: seq<Ef>, pzNext: seq<Ef>, apow: seq<Ef>, alphaW2: Ef,
                       deep0: DeepPartialWitness, pow0: seq<Ef>, acc0: seq<Ef>,
                       deep1: DeepPartialWitness, pow1: seq<Ef>, acc1: seq<Ef>,
                       combined: Ef, lambda: Ef, vN: Fp, out: Ef)
  {
    predicate Shaped() {
      && |active| == |px| == |pzLocal| == |pzNext| == MAX_W && |apow| == MAX_W + 1
      && |pow0| == |acc0| == |pow1| == |acc1| == MAX_W
    }

    function AlphaW(): Ef
      requires Shaped()
    { apow[MAX_W] }
  }

  // ---- Constraints ----

  /** Flag i is a bit, an inactive slot is zero, and flags never rise again. */
  predicate FlagHolds(l: Leaf, i: nat)
    requires l.Shaped() && i < MAX_W
  {
    var a := l.active[i];
    var inactive := Sub(1, a);
    && Mul(a, Sub(a, 1)) == 0
    && Mul(inactive, l.px[i]) == 0
    && Mul(inactive, l.pzLocal[i].c0) == 0 && Mul(inactive, l.pzLocal[i].c1) == 0 && Mul(inactive, l.pzLocal[i].c2) == 0
    && Mul(inactive, l.pzNext[i].c0) == 0 && Mul(inactive, l.pzNext[i].c1) == 0 && Mul(inactive, l.pzNext[i].c2) == 0
    && (i + 1 < MAX_W ==> Mul(l.active[i + 1], Sub(1, a)) == 0)
  }

  function SumActive(active: seq<Fp>, n: nat): Fp
    requires n <= |active|
  { if n == 0 then 0 else Add(SumActive(active, n - 1), active[n - 1]) }

  /** 1 + a (alpha - 1), limb by limb. */
  function Factor(a: Fp, alpha: Ef): Ef {
    Ef(Add(1, Mul(a, Sub(alpha.c0, 1))), Mul(a, alpha.c1), Mul(a, alpha.c2))
  }

  predicate PowerHolds(l: Leaf, i: nat)
    requires l.Shaped() && i < MAX_W
  {
    AssertEq(EfMulLimbs(l.apow[i], Factor(l.active[i], l.alpha)), l.apow[i + 1])
  }

  /** px - pz as an extension element. */
  function Difference(px: Fp, pz: Ef): Ef { Ef(Sub(px, pz.c0), Sub(0, pz.c1), Sub(0, pz.c2)) }

  predicate HornerHolds(alpha: Ef, px: seq<Fp>, pz: seq<Ef>, pow: seq<Ef>, acc: seq<Ef>, i: nat)
    requires |px| == |pz| == |pow| == |acc| == MAX_W && i + 1 < MAX_W
  {
    && AssertEq(EfMulLimbs(pow[i], alpha), pow[i + 1])
    && AssertEq(EAdd(acc[i], EfMulLimbs(pow[i + 1], Difference(px[i + 1], pz[i + 1]))), acc[i + 1])
  }

  ghost predicate BlockHolds(alpha: Ef, px: seq<Fp>, pz: seq<Ef>, pow: seq<Ef>, acc: seq<Ef>, linear: Ef)
    requires |px| == |pz| == |pow| == |acc| == MAX_W
  {
    && AssertEq(pow[0], ONE)
    && AssertEq(acc[0], Difference(px[0], pz[0]))
    && (forall i: nat :: i + 1 < MAX_W ==> HornerHolds(alpha, px, pz, pow, acc, i))
    && AssertEq(acc[MAX_W - 1], linear)
  }

  predicate VpHolds(sx: Fp, sy: Fp, at: EfPoint, alphaW: Ef, d: DeepPartialWitness) {
    var diffX := EAdd(EScale(at.x, sx), EScale(at.y, sy));
    var diffY := ESub(EScale(at.x, sy), EScale(at.y, sx));
    && AssertEq(Ef(Sub(1, diffX.c0), Sub(0, diffX.c1), Sub(0, diffX.c2)), d.re)
    && AssertEq(Ef(Sub(0, diffY.c0), Sub(0, diffY.c1), Sub(0, diffY.c2)), d.im)
    && AssertEq(ESub(d.re, EfMulLimbs(alphaW, d.im)), d.numer)
    && AssertEq(EAdd(EfMulLimbs(d.re, d.re), EfMulLimbs(d.im, d.im)), d.denom)
  }

  predicate QuotientHolds(d: DeepPartialWitness) {
    AssertEq(EfMulLimbs(d.outPre, d.denom), EfMulLimbs(d.numer, d.linear))
  }

  /** Every constraint on the public values. */
  ghost predicate Satisfies(l: Leaf) {
    && l.Shaped()
    && (forall i: nat :: i < MAX_W ==> FlagHolds(l, i))
    && Sub(SumActive(l.active, MAX_W), l.width) == 0
    && Sub(l.active[0], 1) == 0
    && AssertEq(l.apow[0], ONE)
    && (forall i: nat :: i < MAX_W ==> PowerHolds(l, i))
    && AssertEq(EfMulLimbs(l.AlphaW(), l.AlphaW()), l.alphaW2)
    && VpHolds(l.sx, l.sy, l.at, l.AlphaW(), l.deep0)
    && VpHolds(l.sx, l.sy, l.atn, l.AlphaW(), l.deep1)
    && BlockHolds(l.alpha, l.px, l.pzLocal, l.pow0, l.acc0, l.deep0.linear)
    && BlockHolds(l.alpha, l.px, l.pzNext, l.pow1, l.acc1, l.deep1.linear)
    && QuotientHolds(l.deep0) && QuotientHolds(l.deep1)
    && AssertEq(EAdd(l.deep0.outPre, EfMulLimbs(l.alphaW2, l.deep1.outPre)), l.combined)
    && AssertEq(ESub(l.combined, EScale(l.lambda, l.vN)), l.out)
  }

  // ---- Limb facts for all arguments ----

  lemma AssertEqAll()
    ensures forall a: Ef, b: Ef :: AssertEq(a, b) <==> a == b
  {
    hide AssertEq;
    forall a: Ef, b: Ef ensures AssertEq(a, b) <==> a == b {
      AssertEqIff(a, b);
    }
  }

  lemma LimbProducts()
    ensures forall a: Ef, b: Ef :: EfMulLimbs(a, b) == EMul(a, b)
  {
    hide EfMulLimbs, EMul;
    forall a: Ef, b: Ef ensures EfMulLimbs(a, b) == EMul(a, b) {
      LimbsAreProduct(a, b);
    }
  }

  lemma DifferenceIs(px: Fp, pz: Ef)
    ensures Difference(px, pz) == ESub(Embed(px), pz)
  {
  }

  // ---- The flags are a prefix ----

  /** The first w flags are 1, all others 0, and inactive slots hold zeros. */
  ghost predicate Prefix(l: Leaf, w: nat)
    requires l.Shaped()
  {
    && w <= MAX_W
    && (forall i :: 0 <= i < MAX_W ==> l.active[i] == if i < w then 1 else 0)
    && (forall i :: w <= i < MAX_W ==> l.px[i] == 0 && l.pzLocal[i] == ZERO && l.pzNext[i] == ZERO)
  }

  lemma FlagMeaning(l: Leaf, i: nat)
    requires l.Shaped() && i < MAX_W
    ensures FlagHolds(l, i) <==>
      && (l.active[i] == 0 || l.active[i] == 1)
      && (l.active[i] == 0 ==> l.px[i] == 0 && l.pzLocal[i] == ZERO && l.pzNext[i] == ZERO)
      && (i + 1 < MAX_W && l.active[i] == 0 ==> l.active[i + 1] == 0)
  {
    hide Mul, Sub;
    var a := l.active[i];
    BooleanIff(a);
    BitComplement(a);
    var b := Sub(1, a);
    ZeroProduct(b, l.px[i]);
    ZeroProduct(b, l.pzLocal[i].c0); ZeroProduct(b, l.pzLocal[i].c1); ZeroProduct(b, l.pzLocal[i].c2);
    ZeroProduct(b, l.pzNext[i].c0); ZeroProduct(b, l.pzNext[i].c1); ZeroProduct(b, l.pzNext[i].c2);
    if i + 1 < MAX_W {
      ZeroProduct(l.active[i + 1], b);
    }
  }

  lemma BitComplement(a: Fp)
    ensures a == 0 ==> Sub(1, a) == 1
    ensures a == 1 ==> Sub(1, a) == 0
  {
  }

  function FirstZero(active: seq<Fp>, i: nat): (w: nat)
    requires i <= |active|
    ensures i <= w <= |active| && (forall j :: i <= j < w ==> active[j] != 0) && (w < |active| ==> active[w] == 0)
    decreases |active| - i
  {
    if i == |active| || active[i] == 0 then i else FirstZero(active, i + 1)
  }

  lemma {:induction false} ZerosStay(l: Leaf, w: nat, i: nat)
    requires l.Shaped() && (forall i: nat :: i < MAX_W ==> FlagHolds(l, i))
    requires w <= i < MAX_W && l.active[w] == 0
    ensures l.active[i] == 0
  {
    hide FlagHolds;
    if i > w {
      ZerosStay(l, w, i - 1);
      FlagMeaning(l, i - 1);
    }
  }

  lemma {:induction false} PrefixSum(active: seq<Fp>, w: nat, n: nat)
    requires n <= |active| < P && forall i :: 0 <= i < |active| ==> active[i] == if i < w then 1 else 0
    ensures SumActive(active, n) == if n <= w then n else w
  {
    if n > 0 {
      PrefixSum(active, w, n - 1);
    }
  }

  /** The flags of satisfying public values form a prefix whose length, between 1 and 68,
      is the width. */
  lemma FlagsArePrefix(l: Leaf) returns (w: nat)
    requires Satisfies(l)
    ensures 1 <= w <= MAX_W && Prefix(l, w) && l.width == w
  {
    hide FlagHolds, PowerHolds, BlockHolds, VpHolds, QuotientHolds, AssertEq, EfMulLimbs, EScale;
    w := FirstZero(l.active, 0);
    forall i: nat | i < MAX_W
      ensures l.active[i] == (if i < w then 1 else 0)
      ensures i >= w ==> l.px[i] == 0 && l.pzLocal[i] == ZERO && l.pzNext[i] == ZERO
    {
      FlagMeaning(l, i);
      if i >= w {
        ZerosStay(l, w, i);
      }
    }
    PrefixSum(l.active, w, MAX_W);
  }

  // ---- Powers and sums ----

  lemma FactorIs(a: Fp, alpha: Ef)
    ensures a == 1 ==> Factor(a, alpha) == alpha
    ensures a == 0 ==> Factor(a, alpha) == ONE
  {
  }

  function Least(a: nat, b: nat): nat { if a <= b then a else b }

  /** apow_i is alpha to the number of active flags before i. */
  lemma {:induction false} PowersFollow(l: Leaf, w: nat, i: nat)
    requires l.Shaped() && Prefix(l, w) && AssertEq(l.apow[0], ONE) && i <= MAX_W
    requires forall j: nat :: j < MAX_W ==> PowerHolds(l, j)
    ensures l.apow[i] == EPow(l.alpha, Least(i, w))
  {
    hide AssertEq, EfMulLimbs, EMul, Factor;
    AssertEqAll();
    LimbProducts();
    if i > 0 {
      PowersFollow(l, w, i - 1);
      assert PowerHolds(l, i - 1);
      FactorIs(l.active[i - 1], l.alpha);
      EPowStep(l.alpha, Least(i - 1, w));
      EMulOne(EPow(l.alpha, Least(i - 1, w)));
    }
  }

  lemma {:induction false} HornerFollows(alpha: Ef, px: seq<Fp>, pz: seq<Ef>, pow: seq<Ef>, acc: seq<Ef>, linear: Ef, i: nat)
    requires |px| == |pz| == |pow| == |acc| == MAX_W && i < MAX_W
    requires BlockHolds(alpha, px, pz, pow, acc, linear)
    ensures pow[i] == EPow(alpha, i) && acc[i] == LinearSum(alpha, px, pz, i + 1)
  {
    hide AssertEq, EfMulLimbs, EMul, Difference, EAdd, ESub, Embed;
    AssertEqAll();
    LimbProducts();
    DifferenceIs(px[i], pz[i]);
    if i == 0 {
      var d := Difference(px[0], pz[0]);
      EMulOne(d);
      EAddZero(d);
      assert LinearSum(alpha, px, pz, 1) == EAdd(LinearSum(alpha, px, pz, 0), EMul(EPow(alpha, 0), d));
    } else {
      HornerFollows(alpha, px, pz, pow, acc, linear, i - 1);
      assert HornerHolds(alpha, px, pz, pow, acc, i - 1);
      EPowStep(alpha, i - 1);
    }
  }

  /** Zero slots add nothing. */
  lemma {:induction false} PaddedSum(alpha: Ef, px: seq<Fp>, pz: seq<Ef>, w: nat, n: nat)
    requires w <= n <= |px| && n <= |pz|
    requires forall i :: w <= i < n ==> px[i] == 0 && pz[i] == ZERO
    ensures LinearSum(alpha, px, pz, n) == LinearSum(alpha, px[..w], pz[..w], w)
    decreases n
  {
    hide EMul, EAdd, EPow;
    if n == w {
      SumOfPrefix(alpha, px, pz, w, w);
    } else {
      PaddedSum(alpha, px, pz, w, n - 1);
      EMulZero(EPow(alpha, n - 1));
      EAddZero(LinearSum(alpha, px, pz, n - 1));
    }
  }

  lemma {:induction false} SumOfPrefix(alpha: Ef, px: seq<Fp>, pz: seq<Ef>, w: nat, n: nat)
    requires n <= w <= |px| && w <= |pz|
    ensures LinearSum(alpha, px, pz, n) == LinearSum(alpha, px[..w], pz[..w], n)
  {
    hide EMul, EAdd, ESub;
    if n > 0 {
      SumOfPrefix(alpha, px, pz, w, n - 1);
    }
  }

  // ---- Numerator, denominator and quotient ----

  lemma ENegScale(a: Ef, s: Fp)
    ensures EMul(ENeg(a), Embed(s)) == ENeg(EScale(a, s))
  {
    hide Mul, Neg, EMul;
    EScaleIsMul(ENeg(a), s);
    MulComm(Neg(a.c0), s); MulComm(Neg(a.c1), s); MulComm(Neg(a.c2), s);
    MulNeg(s, a.c0); MulNeg(s, a.c1); MulNeg(s, a.c2);
    MulComm(a.c0, s); MulComm(a.c1, s); MulComm(a.c2, s);
  }

  lemma SubNegated(a: Ef, b: Ef)
    ensures ESub(a, ENeg(b)) == EAdd(a, b) && EAdd(a, ENeg(b)) == ESub(a, b)
  {
    hide Add, Sub, Neg;
    NegatedLimb(a.c0, b.c0); NegatedLimb(a.c1, b.c1); NegatedLimb(a.c2, b.c2);
  }

  lemma NegatedLimb(a: Fp, b: Fp)
    ensures Sub(a, Neg(b)) == Add(a, b) && Add(a, Neg(b)) == Sub(a, b)
  {
    hide Add, Sub, Red;
    RedCanonical(0); RedCanonical(a); RedCanonical(b);
    var negated: int := 0 - (b as int);
    RedSub(0, b); RedSub(a, negated); RedAdd(a, negated);
    RedAdd(a, b); RedSub(a, b);
  }

  /** The circuit's real and imaginary parts are those of the host. */
  lemma VpAgrees(sx: Fp, sy: Fp, at: EfPoint)
    ensures var diffX := EAdd(EScale(at.x, sx), EScale(at.y, sy));
      var diffY := ESub(EScale(at.x, sy), EScale(at.y, sx));
      Vp(sx, sy, at) == EfPoint(Ef(Sub(1, diffX.c0), Sub(0, diffX.c1), Sub(0, diffX.c2)),
                                Ef(Sub(0, diffY.c0), Sub(0, diffY.c1), Sub(0, diffY.c2)))
  {
    hide EMul, EScale, Mul, Sub, Add;
    EScaleIsMul(at.x, sx); EScaleIsMul(at.x, sy);
    ENegScale(at.y, sy); ENegScale(at.y, sx);
    hide ENeg, EAdd;
    SubNegated(EScale(at.x, sx), EScale(at.y, sy));
    SubNegated(EScale(at.x, sy), EScale(at.y, sx));
    ENegIsSub(ESub(EScale(at.x, sy), EScale(at.y, sx)));
  }

  lemma ENegIsSub(a: Ef)
    ensures ENeg(a) == Ef(Sub(0, a.c0), Sub(0, a.c1), Sub(0, a.c2))
  {
  }

  /** The partial result a correct block shows. */
  ghost predicate PartialOf(d: DeepPartialWitness, sx: Fp, sy: Fp, at: EfPoint, alphaW: Ef) {
    var v := Vp(sx, sy, at);
    d.re == v.x && d.im == v.y && d.numer == DeepNumer(v, alphaW) && d.denom == DeepDenom(v)
  }

  /** And its quotient is one: times the denominator it gives numerator times sum. */
  ghost predicate QuotientOf(d: DeepPartialWitness, sx: Fp, sy: Fp, at: EfPoint, alphaW: Ef) {
    hide EMul, PartialOf;
    PartialOf(d, sx, sy, at, alphaW) && EMul(d.outPre, d.denom) == EMul(d.numer, d.linear)
  }

  lemma VpMeaning(sx: Fp, sy: Fp, at: EfPoint, alphaW: Ef, d: DeepPartialWitness)
    ensures VpHolds(sx, sy, at, alphaW, d) <==> PartialOf(d, sx, sy, at, alphaW)
  {
    hide AssertEq, EfMulLimbs, EMul, EAdd, ESub, EScale, Vp, Sub;
    AssertEqAll();
    LimbProducts();
    VpAgrees(sx, sy, at);
  }

  /** With an invertible denominator the quotient is determined. */
  lemma QuotientIs(outPre: Ef, numer: Ef, denom: Ef, linear: Ef, inv: Ef)
    requires EMul(denom, inv) == ONE
    ensures EMul(outPre, denom) == EMul(numer, linear) <==> outPre == EMul(EMul(numer, inv), linear)
  {
    hide EMul;
    EMulAssoc(outPre, denom, inv);
    EMulOne(outPre);
    // (numer inv) linear times denom gives numer linear, and back.
    EMulAssoc(numer, inv, linear); EMulComm(inv, linear); EMulAssoc(numer, linear, inv);
    EMulAssoc(EMul(numer, linear), inv, denom); EMulComm(inv, denom);
    EMulOne(EMul(numer, linear));
  }

  // ---- Soundness ----

  /** What the host computes for the unpadded row at one point. */
  function Reduction(l: Leaf, w: nat, at: EfPoint, pz: seq<Ef>): Option<DeepPartialWitness>
    requires w <= |l.px| && w <= |pz|
  {
    DeepPartial(l.alpha, l.sx, l.sy, at, EPow(l.alpha, w), l.px[..w], pz[..w])
  }

  /** The combined value and the output of the two quotients. */
  ghost predicate OutputOf(l: Leaf, alphaW: Ef) {
    hide EMul, EAdd, ESub, Embed;
    && l.combined == EAdd(l.deep0.outPre, EMul(ESquare(alphaW), l.deep1.outPre))
    && l.out == ESub(l.combined, EMul(l.lambda, Embed(l.vN)))
  }

  lemma PartialSound(l: Leaf, w: nat, at: EfPoint, pz: seq<Ef>, pow: seq<Ef>, acc: seq<Ef>, d: DeepPartialWitness)
    requires l.Shaped() && |pz| == |pow| == |acc| == MAX_W && w <= MAX_W
    requires forall i :: w <= i < MAX_W ==> l.px[i] == 0 && pz[i] == ZERO
    requires VpHolds(l.sx, l.sy, at, EPow(l.alpha, w), d) && QuotientHolds(d)
    requires BlockHolds(l.alpha, l.px, pz, pow, acc, d.linear)
    ensures d.linear == LinearSum(l.alpha, l.px[..w], pz[..w], w)
    ensures QuotientOf(d, l.sx, l.sy, at, EPow(l.alpha, w))
    ensures Reduction(l, w, at, pz).Some? ==> Reduction(l, w, at, pz).value == d
  {
    hide AssertEq, EfMulLimbs, EMul, EAdd, ESub, TryInverse, Vp, LinearSum, BlockHolds, VpHolds, EPow, DeepNumer, DeepDenom, Reduction,
      PartialOf;
    HornerFollows(l.alpha, l.px, pz, pow, acc, d.linear, MAX_W - 1);
    LastIsLinear(l.alpha, l.px, pz, pow, acc, d.linear);
    PaddedSum(l.alpha, l.px, pz, w, MAX_W);
    VpMeaning(l.sx, l.sy, at, EPow(l.alpha, w), d);
    LimbProducts();
    AssertEqAll();
    ReductionIs(l, w, at, pz, d);
    if TryInverse(d.denom).Some? {
      QuotientIs(d.outPre, d.numer, d.denom, d.linear, TryInverse(d.denom).value);
    }
  }

  /** The host's partial result, given the parts a correct block shows. */
  lemma ReductionIs(l: Leaf, w: nat, at: EfPoint, pz: seq<Ef>, d: DeepPartialWitness)
    requires w <= |l.px| && w <= |pz|
    requires PartialOf(d, l.sx, l.sy, at, EPow(l.alpha, w)) && d.linear == LinearSum(l.alpha, l.px[..w], pz[..w], w)
    ensures Reduction(l, w, at, pz)
            == match TryInverse(d.denom)
               case None => None
               case Some(inv) => Some(d.(outPre := EMul(EMul(d.numer, inv), d.linear)))
  {
    hide EMul, EAdd, ESub, TryInverse, Vp, LinearSum, EPow, DeepNumer, DeepDenom;
  }

  lemma LastIsLinear(alpha: Ef, px: seq<Fp>, pz: seq<Ef>, pow: seq<Ef>, acc: seq<Ef>, linear: Ef)
    requires |px| == |pz| == |pow| == |acc| == MAX_W && BlockHolds(alpha, px, pz, pow, acc, linear)
    ensures acc[MAX_W - 1] == linear
  {
    hide HornerHolds, AssertEq;
    AssertEqAll();
  }

  /** What a vector shows of a row of width w: alpha^w, both linear combinations over the
      first w columns, both quotients and the output; where a division of the host is
      defined, that partial result is the host's on the unpadded row. */
  ghost predicate Shows(l: Leaf, w: nat)
    requires l.Shaped() && w <= MAX_W
  {
    hide EPow, LinearSum, Reduction, QuotientOf, OutputOf;
    var alphaW := EPow(l.alpha, w);
    && l.width == w && Prefix(l, w) && l.AlphaW() == alphaW
    && l.deep0.linear == LinearSum(l.alpha, l.px[..w], l.pzLocal[..w], w)
    && l.deep1.linear == LinearSum(l.alpha, l.px[..w], l.pzNext[..w], w)
    && QuotientOf(l.deep0, l.sx, l.sy, l.at, alphaW) && QuotientOf(l.deep1, l.sx, l.sy, l.atn, alphaW)
    && (Reduction(l, w, l.at, l.pzLocal).Some? ==> l.deep0 == Reduction(l, w, l.at, l.pzLocal).value)
    && (Reduction(l, w, l.atn, l.pzNext).Some? ==> l.deep1 == Reduction(l, w, l.atn, l.pzNext).value)
    && OutputOf(l, alphaW)
  }

  /** Satisfying public values show a row of a width between 1 and 68. */
  lemma Soundness(l: Leaf) returns (w: nat)
    requires Satisfies(l)
    ensures 1 <= w <= MAX_W && Shows(l, w)
  {
    hide FlagHolds, PowerHolds, BlockHolds, VpHolds, QuotientHolds, AssertEq, EfMulLimbs, EScale, EMul, EAdd, ESub, EPow, Embed, LinearSum,
      Reduction, QuotientOf, OutputOf;
    w := FlagsArePrefix(l);
    PowersFollow(l, w, MAX_W);
    PartialSound(l, w, l.at, l.pzLocal, l.pow0, l.acc0, l.deep0);
    PartialSound(l, w, l.atn, l.pzNext, l.pow1, l.acc1, l.deep1);
    ClosingHolds(l);
  }

  /** The output of two quotients, whatever they are. */
  lemma ClosingHolds(l: Leaf)
    requires Satisfies(l)
    ensures OutputOf(l, l.AlphaW())
  {
    hide FlagHolds, PowerHolds, BlockHolds, VpHolds, QuotientHolds, AssertEq, EfMulLimbs, EScale, EMul, EAdd, ESub, Embed, SumActive;
    LimbsAreProduct(l.AlphaW(), l.AlphaW());
    LimbsAreProduct(l.alphaW2, l.deep1.outPre);
    EScaleIsMul(l.lambda, l.vN);
    AssertEqIff(EfMulLimbs(l.AlphaW(), l.AlphaW()), l.alphaW2);
    AssertEqIff(EAdd(l.deep0.outPre, EfMulLimbs(l.alphaW2, l.deep1.outPre)), l.combined);
    AssertEqIff(ESub(l.combined, EScale(l.lambda, l.vN)), l.out);
  }

  // ---- Completeness ----

  function PadFp(px: seq<Fp>): (r: seq<Fp>)
    ensures |r| == MAX_W
  { seq(MAX_W, i requires 0 <= i < MAX_W => if i < |px| then px[i] else 0) }

  function PadEf(pz: seq<Ef>): (r: seq<Ef>)
    ensures |r| == MAX_W
  { seq(MAX_W, i requires 0 <= i < MAX_W => if i < |pz| then pz[i] else ZERO) }

  function Powers(alpha: Ef): (r: seq<Ef>)
    ensures |r| == MAX_W
  { seq(MAX_W, i requires 0 <= i < MAX_W => EPow(alpha, i)) }

  function Sums(alpha: Ef, px: seq<Fp>, pz: seq<Ef>): (r: seq<Ef>)
    requires |px| == |pz| == MAX_W
    ensures |r| == MAX_W
  { seq(MAX_W, i requires 0 <= i < MAX_W => LinearSum(alpha, px, pz, i + 1)) }

  function ActivePowers(alpha: Ef, w: nat): (r: seq<Ef>)
    ensures |r| == MAX_W + 1
  { seq(MAX_W + 1, i requires 0 <= i < MAX_W + 1 => EPow(alpha, Least(i, w))) }

  function Flags(w: nat): (r: seq<Fp>)
    ensures |r| == MAX_W
  { seq(MAX_W, i requires 0 <= i < MAX_W => if i < w then 1 else 0) }

  /** The public values built from a witness. */
  function LeafOf(alpha: Ef, sx: Fp, sy: Fp, px: seq<Fp>, pzLocal: seq<Ef>, pzNext: seq<Ef>, lambda: Ef,
                  w: DeepRoLeafTraceWitness): (l: Leaf)
    requires |px| <= MAX_W
    ensures l.Shaped()
  {
    Leaf(sx, sy, w.at, w.atn, alpha, |px|, Flags(|px|), PadFp(px), PadEf(pzLocal), PadEf(pzNext),
         ActivePowers(alpha, |px|), w.alphaW2,
         w.deep0, Powers(alpha), Sums(alpha, PadFp(px), PadEf(pzLocal)),
         w.deep1, Powers(alpha), Sums(alpha, PadFp(px), PadEf(pzNext)),
         w.combined, lambda, w.vN, w.out)
  }

  lemma BlockComplete(alpha: Ef, px: seq<Fp>, pz: seq<Ef>, linear: Ef)
    requires |px| == |pz| == MAX_W && linear == LinearSum(alpha, px, pz, MAX_W)
    ensures BlockHolds(alpha, px, pz, Powers(alpha), Sums(alpha, px, pz), linear)
  {
    hide AssertEq, EfMulLimbs, EMul, Difference, EAdd, ESub, Embed, LinearSum, EPow;
    AssertEqAll();
    LimbProducts();
    FirstTerm(alpha, px, pz);
    forall i: nat | i + 1 < MAX_W
      ensures HornerHolds(alpha, px, pz, Powers(alpha), Sums(alpha, px, pz), i)
    {
      EPowStep(alpha, i);
      DifferenceIs(px[i + 1], pz[i + 1]);
      NextTerm(alpha, px, pz, i + 1);
    }
  }

  lemma FirstTerm(alpha: Ef, px: seq<Fp>, pz: seq<Ef>)
    requires |px| == |pz| == MAX_W
    ensures EPow(alpha, 0) == ONE && LinearSum(alpha, px, pz, 1) == Difference(px[0], pz[0])
  {
    hide EMul, Difference, EAdd, ESub, Embed;
    var d := Difference(px[0], pz[0]);
    DifferenceIs(px[0], pz[0]);
    EMulOne(d);
    EAddZero(d);
    assert LinearSum(alpha, px, pz, 1) == EAdd(LinearSum(alpha, px, pz, 0), EMul(EPow(alpha, 0), d));
  }

  lemma NextTerm(alpha: Ef, px: seq<Fp>, pz: seq<Ef>, n: nat)
    requires n < |px| && n < |pz|
    ensures LinearSum(alpha, px, pz, n + 1)
            == EAdd(LinearSum(alpha, px, pz, n), EMul(EPow(alpha, n), ESub(Embed(px[n]), pz[n])))
  {
    hide EMul, EAdd, ESub, EPow;
  }

  lemma PowerComplete(l: Leaf, w: nat, i: nat)
    requires l.Shaped() && i < MAX_W && l.apow == ActivePowers(l.alpha, w) && l.active == Flags(w)
    ensures PowerHolds(l, i)
  {
    hide AssertEq, EfMulLimbs, EMul, Factor, EPow;
    AssertEqAll();
    LimbProducts();
    FactorIs(l.active[i], l.alpha);
    EPowStep(l.alpha, Least(i, w));
    EMulOne(EPow(l.alpha, Least(i, w)));
  }

  lemma PaddedPrefix(px: seq<Fp>, pz: seq<Ef>)
    requires |px| == |pz| <= MAX_W
    ensures PadFp(px)[..|px|] == px && PadEf(pz)[..|px|] == pz
    ensures forall i :: |px| <= i < MAX_W ==> PadFp(px)[i] == 0 && PadEf(pz)[i] == ZERO
  {
  }

  /** A partial result satisfies the constraints on its block, for this row. */
  ghost predicate Fits(alpha: Ef, sx: Fp, sy: Fp, at: EfPoint, px: seq<Fp>, pz: seq<Ef>, d: DeepPartialWitness) {
    hide VpHolds, QuotientHolds, BlockHolds, EPow, PadFp, PadEf, Powers, Sums;
    && VpHolds(sx, sy, at, EPow(alpha, |px|), d) && QuotientHolds(d)
    && BlockHolds(alpha, PadFp(px), PadEf(pz), Powers(alpha), Sums(alpha, PadFp(px), PadEf(pz)), d.linear)
  }

  /** It does exactly when its parts are the host's and its quotient is one. */
  lemma FitsOf(alpha: Ef, sx: Fp, sy: Fp, at: EfPoint, px: seq<Fp>, pz: seq<Ef>, d: DeepPartialWitness)
    requires |px| == |pz| <= MAX_W && d.linear == LinearSum(alpha, px, pz, |px|)
    ensures Fits(alpha, sx, sy, at, px, pz, d) <==> QuotientOf(d, sx, sy, at, EPow(alpha, |px|))
  {
    hide AssertEq, EfMulLimbs, EMul, EAdd, ESub, Vp, LinearSum, BlockHolds, VpHolds, EPow, PartialOf, PadFp, PadEf;
    VpMeaning(sx, sy, at, EPow(alpha, |px|), d);
    LimbProducts();
    AssertEqAll();
    PaddedPrefix(px, pz);
    PaddedSum(alpha, PadFp(px), PadEf(pz), |px|, MAX_W);
    BlockComplete(alpha, PadFp(px), PadEf(pz), d.linear);
  }

  /** A partial result of the host fits. */
  lemma PartialComplete(alpha: Ef, sx: Fp, sy: Fp, at: EfPoint, px: seq<Fp>, pz: seq<Ef>, d: DeepPartialWitness)
    requires |px| == |pz| <= MAX_W
    requires DeepPartial(alpha, sx, sy, at, EPow(alpha, |px|), px, pz) == Some(d)
    ensures Fits(alpha, sx, sy, at, px, pz, d)
  {
    hide EMul, EAdd, ESub, TryInverse, Vp, LinearSum, EPow, DeepNumer, DeepDenom, Fits;
    QuotientIs(d.outPre, d.numer, d.denom, d.linear, TryInverse(d.denom).value);
    FitsOf(alpha, sx, sy, at, px, pz, d);
  }

  /** The combined value and the output of two partial results. */
  ghost predicate Closes(w: DeepRoLeafTraceWitness, lambda: Ef) {
    hide EMul, EAdd, ESub, Embed;
    && w.alphaW2 == EMul(w.alphaW, w.alphaW) && w.combined == EAdd(w.deep0.outPre, EMul(w.alphaW2, w.deep1.outPre))
    && w.out == ESub(w.combined, EMul(lambda, Embed(w.vN)))
  }

  /** Two results that fit, closed by the right output, satisfy every constraint. */
  lemma FittingSatisfies(alpha: Ef, sx: Fp, sy: Fp, px: seq<Fp>, pzLocal: seq<Ef>, pzNext: seq<Ef>, lambda: Ef,
                         w: DeepRoLeafTraceWitness)
    requires 0 < |px| <= MAX_W && |pzLocal| == |pzNext| == |px| && w.alphaW == EPow(alpha, |px|) && Closes(w, lambda)
    requires Fits(alpha, sx, sy, w.at, px, pzLocal, w.deep0) && Fits(alpha, sx, sy, w.atn, px, pzNext, w.deep1)
    ensures Satisfies(LeafOf(alpha, sx, sy, px, pzLocal, pzNext, lambda, w))
  {
    hide EMul, EAdd, ESub, EPow, EScale, Embed, EfMulLimbs, AssertEq, VpHolds, BlockHolds, QuotientHolds,
      PowerHolds, FlagHolds, Powers, Sums, Flags, PadFp, PadEf, ActivePowers, SumActive, LinearSum, Sub, Add, Mul;
    var l := LeafOf(alpha, sx, sy, px, pzLocal, pzNext, lambda, w);
    FlagsSum(|px|);
    SameZero(l.width);
    FirstEntries(alpha, |px|);
    ClosingEquations(w.alphaW, lambda, w);
    AssertEqIff(l.apow[0], ONE);
    forall i: nat | i < MAX_W
      ensures FlagHolds(l, i) && PowerHolds(l, i)
    {
      FlagComplete(l, px, pzLocal, pzNext, i);
      PowerComplete(l, |px|, i);
    }
  }

  /** Completeness: the public values built from the host's witness satisfy every
      constraint. */
  lemma Completeness(alpha: Ef, sx: Fp, sy: Fp, zeta: Ef, zetaNext: Ef, px: seq<Fp>, pzLocal: seq<Ef>, pzNext: seq<Ef>,
                     lambda: Ef, logN: nat, w: DeepRoLeafTraceWitness)
    requires DeepRoLeafWitness(alpha, sx, sy, zeta, zetaNext, px, pzLocal, pzNext, lambda, logN) == Some(w)
    ensures |px| <= MAX_W && Satisfies(LeafOf(alpha, sx, sy, px, pzLocal, pzNext, lambda, w))
  {
    hide DeepRoLeafWitness, DeepPartial, EMul, EAdd, ESub, EPow, Embed, Fits, Satisfies, LeafOf;
    WitnessParts(alpha, sx, sy, zeta, zetaNext, px, pzLocal, pzNext, lambda, logN, w);
    PartialComplete(alpha, sx, sy, w.at, px, pzLocal, w.deep0);
    PartialComplete(alpha, sx, sy, w.atn, px, pzNext, w.deep1);
    FittingSatisfies(alpha, sx, sy, px, pzLocal, pzNext, lambda, w);
  }

  lemma ClosingEquations(alphaW: Ef, lambda: Ef, w: DeepRoLeafTraceWitness)
    requires w.alphaW2 == EMul(alphaW, alphaW) && w.combined == EAdd(w.deep0.outPre, EMul(w.alphaW2, w.deep1.outPre))
    requires w.out == ESub(w.combined, EMul(lambda, Embed(w.vN)))
    ensures AssertEq(EfMulLimbs(alphaW, alphaW), w.alphaW2)
    ensures AssertEq(EAdd(w.deep0.outPre, EfMulLimbs(w.alphaW2, w.deep1.outPre)), w.combined)
    ensures AssertEq(ESub(w.combined, EScale(lambda, w.vN)), w.out)
  {
    hide EMul, EAdd, ESub, EScale, Embed, EfMulLimbs, AssertEq;
    AssertEqAll();
    LimbProducts();
    EScaleIsMul(lambda, w.vN);
  }

  lemma FlagComplete(l: Leaf, px: seq<Fp>, pzLocal: seq<Ef>, pzNext: seq<Ef>, i: nat)
    requires l.Shaped() && i < MAX_W && |px| == |pzLocal| == |pzNext|
    requires l.active == Flags(|px|) && l.px == PadFp(px) && l.pzLocal == PadEf(pzLocal) && l.pzNext == PadEf(pzNext)
    ensures FlagHolds(l, i)
  {
    hide FlagHolds;
    FlagMeaning(l, i);
  }

  lemma FlagsSum(w: nat)
    requires w <= MAX_W
    ensures SumActive(Flags(w), MAX_W) == w
  {
    PrefixSum(Flags(w), w, MAX_W);
  }

  lemma FirstEntries(alpha: Ef, w: nat)
    requires 0 < w <= MAX_W
    ensures Sub(Flags(w)[0], 1) == 0 && ActivePowers(alpha, w)[0] == ONE && ActivePowers(alpha, w)[MAX_W] == EPow(alpha, w)
  {
    hide EMul;
  }

  lemma SameZero(a: Fp)
    ensures Sub(a, a) == 0
  {
  }

  /** The parts of a witness the constraints speak of. */
  lemma WitnessParts(alpha: Ef, sx: Fp, sy: Fp, zeta: Ef, zetaNext: Ef, px: seq<Fp>, pzLocal: seq<Ef>, pzNext: seq<Ef>,
                     lambda: Ef, logN: nat, w: DeepRoLeafTraceWitness)
    requires DeepRoLeafWitness(alpha, sx, sy, zeta, zetaNext, px, pzLocal, pzNext, lambda, logN) == Some(w)
    ensures 0 < |px| <= MAX_W && |pzLocal| == |pzNext| == |px|
    ensures w.alphaW == EPow(alpha, |px|) && w.alphaW2 == EMul(w.alphaW, w.alphaW)
    ensures DeepPartial(alpha, sx, sy, w.at, w.alphaW, px, pzLocal) == Some(w.deep0)
    ensures DeepPartial(alpha, sx, sy, w.atn, w.alphaW, px, pzNext) == Some(w.deep1)
    ensures w.combined == EAdd(w.deep0.outPre, EMul(w.alphaW2, w.deep1.outPre))
    ensures w.out == ESub(w.combined, EMul(lambda, Embed(w.vN)))
  {
    hide EMul, EAdd, ESub, EPow, TryFromProjectiveLine, DeepPartial, Embed;
  }
}
