/** The overlap over real and imaginary parts, with site tensors as nested tables. */
module OverlapParts {

  import opened PowersOfTwo
  import opened Complex
  import opened Overlap

  /** Indexed [left bond][physical index][right bond]. */
  type Table = seq<seq<seq<C>>>

  predicate IsTable(t: Table, left: nat, right: nat) {
    |t| == left && forall l :: 0 <= l < left ==> |t[l]| == 2 && |t[l][0]| == right && |t[l][1]| == right
  }

  /** The rows of a table one after the other. */
  function Flat(t: Table): seq<C>
    requires forall l :: 0 <= l < |t| ==> |t[l]| == 2
  {
    if t == [] then [] else Flat(t[..|t| - 1]) + t[|t| - 1][0] + t[|t| - 1][1]
  }

  /** The site's values are the table, flattened. */
  predicate SiteHolds(site: SiteTensor, t: Table) {
    IsTable(t, site.leftDim, site.rightDim) && site.values == Flat(t)
  }

  // ---- The layout of a site ----

  lemma {:induction false} FlatLength(t: Table, right: nat)
    requires IsTable(t, |t|, right)
    ensures |Flat(t)| == |t| * 2 * right
  {
    if t != [] {
      var n := |t| - 1;
      FlatLength(t[..n], right);
      TwoRows(n, right);
      assert |Flat(t)| == |Flat(t[..n])| + right + right;
    }
  }

  lemma TwoRows(n: nat, right: nat)
    ensures (n + 1) * 2 * right == n * 2 * right + right + right
  {
  }

  lemma {:induction false} FlatEntry(t: Table, right: nat, l: nat, p: nat, r: nat)
    requires IsTable(t, |t|, right) && l < |t| && p < 2 && r < right
    ensures (l * 2 + p) * right + r < |Flat(t)| && Flat(t)[(l * 2 + p) * right + r] == t[l][p][r]
  {
    var n := |t| - 1;
    FlatLength(t[..n], right);
    FlatLength(t, right);
    RowEnd(l * 2 + p, r, right, |t| * 2);
    if l < n {
      FlatEntry(t[..n], right, l, p, r);
    } else {
      assert (l * 2 + p) * right == n * 2 * right + p * right;
      assert p == 0 ==> p * right == 0;
      assert p == 1 ==> p * right == right;
    }
  }

  /** Reading a site at (left, phys, right) gives that entry of its table. */
  lemma GetSiteIsEntry(site: SiteTensor, t: Table, left: nat, phys: nat, right: nat)
    requires SiteHolds(site, t) && left < site.leftDim && phys < 2 && right < site.rightDim
    ensures GetSite(site, left, phys, right) == t[left][phys][right]
  {
    FlatEntry(t, site.rightDim, left, phys, right);
  }

  /** Every well-shaped site is the flattening of a table. */
  lemma {:induction false} TableExists(values: seq<C>, left: nat, right: nat) returns (t: Table)
    requires |values| == left * 2 * right
    ensures IsTable(t, left, right) && values == Flat(t)
  {
    if left == 0 {
      t := [];
    } else {
      var n := left - 1;
      var cut := n * 2 * right;
      assert |values| == cut + right + right;
      var before := TableExists(values[..cut], n, right);
      t := before + [[values[cut..cut + right], values[cut + right..]]];
      assert t[..n] == before;
      assert values == values[..cut] + values[cut..cut + right] + values[cut + right..];
    }
  }

  // ---- Real sums ----

  /** The sum of f(k) over k < n. */
  function RealSum(n: nat, f: nat -> real): real {
    if n == 0 then 0.0 else RealSum(n - 1, f) + f(n - 1)
  }

  /** A complex sum, part by part. */
  lemma {:induction false} SumParts(n: nat, f: nat -> C, re: nat -> real, im: nat -> real)
    requires forall k: nat :: k < n ==> f(k) == C(re(k), im(k))
    ensures Sum(n, f) == C(RealSum(n, re), RealSum(n, im))
  {
    if n > 0 {
      SumParts(n - 1, f, re, im);
    }
  }

  lemma {:induction false} RealSumSame(n: nat, f: nat -> real, g: nat -> real)
    requires forall k: nat :: k < n ==> f(k) == g(k)
    ensures RealSum(n, f) == RealSum(n, g)
  {
    if n > 0 {
      RealSumSame(n - 1, f, g);
    }
  }

  lemma {:induction false} RealSumZero(n: nat, f: nat -> real)
    requires forall k: nat :: k < n ==> f(k) == 0.0
    ensures RealSum(n, f) == 0.0
  {
    if n > 0 {
      RealSumZero(n - 1, f);
    }
  }

  lemma {:induction false} RealSumNonNegative(n: nat, f: nat -> real)
    requires forall k: nat :: k < n ==> f(k) >= 0.0
    ensures RealSum(n, f) >= 0.0
  {
    if n > 0 {
      RealSumNonNegative(n - 1, f);
    }
  }

  // ---- Amplitudes part by part ----

  /** An entry's real and imaginary part; zero outside the table. */
  function EntryRe(t: Table, l: nat, p: nat, r: nat): real {
    if l < |t| && p < |t[l]| && r < |t[l][p]| then t[l][p][r].re else 0.0
  }

  function EntryIm(t: Table, l: nat, p: nat, r: nat): real {
    if l < |t| && p < |t[l]| && r < |t[l][p]| then t[l][p][r].im else 0.0
  }

  /** The product of the first n site matrices along the bits of k, at right bond r. */
  function AmpRe(ts: seq<Table>, n: nat, k: nat, r: nat): real
    requires n <= |ts|
  {
    if n == 0 then (if r == 0 then 1.0 else 0.0)
    else RealSum(|ts[n - 1]|, (l: nat) => AmpRe(ts, n - 1, k / 2, l) * EntryRe(ts[n - 1], l, k % 2, r)
                                          - AmpIm(ts, n - 1, k / 2, l) * EntryIm(ts[n - 1], l, k % 2, r))
  }

  function AmpIm(ts: seq<Table>, n: nat, k: nat, r: nat): real
    requires n <= |ts|
  {
    if n == 0 then 0.0
    else RealSum(|ts[n - 1]|, (l: nat) => AmpRe(ts, n - 1, k / 2, l) * EntryIm(ts[n - 1], l, k % 2, r)
                                          + AmpIm(ts, n - 1, k / 2, l) * EntryRe(ts[n - 1], l, k % 2, r))
  }

  /** The tables of a chain whose bonds meet, the first left bond being open. */
  predicate ChainHolds(sites: seq<SiteTensor>, ts: seq<Table>) {
    && |sites| == |ts| && (forall t :: 0 <= t < |sites| ==> SiteHolds(sites[t], ts[t]))
    && (|sites| > 0 ==> sites[0].leftDim == 1) && BondsMeet(sites)
  }

  function BondAfter(sites: seq<SiteTensor>, n: nat): nat
    requires n <= |sites|
  { if n == 0 then 1 else sites[n - 1].rightDim }

  lemma {:induction false} AmpParts(sites: seq<SiteTensor>, ts: seq<Table>, n: nat, k: nat, r: nat)
    requires ChainHolds(sites, ts) && n <= |sites| && r < BondAfter(sites, n)
    ensures Amp(sites, n, k, r) == C(AmpRe(ts, n, k, r), AmpIm(ts, n, k, r))
    decreases n, 1
  {
    if n > 0 {
      AmpRound(sites, ts, n, k, r);
    }
  }

  lemma {:induction false} AmpRound(sites: seq<SiteTensor>, ts: seq<Table>, n: nat, k: nat, r: nat)
    requires ChainHolds(sites, ts) && 0 < n <= |sites| && r < BondAfter(sites, n)
    ensures Amp(sites, n, k, r) == C(AmpRe(ts, n, k, r), AmpIm(ts, n, k, r))
    decreases n, 0
  {
    hide GetSite, Amp, AmpRe, AmpIm, Flat, EntryRe, EntryIm;
    var site, t := sites[n - 1], ts[n - 1];
    var f: nat -> C := (l: nat) => CMul(Amp(sites, n - 1, k / 2, l), GetSite(site, l, k % 2, r));
    var re: nat -> real := (l: nat) => AmpRe(ts, n - 1, k / 2, l) * EntryRe(t, l, k % 2, r)
                                       - AmpIm(ts, n - 1, k / 2, l) * EntryIm(t, l, k % 2, r);
    var im: nat -> real := (l: nat) => AmpRe(ts, n - 1, k / 2, l) * EntryIm(t, l, k % 2, r)
                                       + AmpIm(ts, n - 1, k / 2, l) * EntryRe(t, l, k % 2, r);
    forall l: nat | l < |t|
      ensures f(l) == C(re(l), im(l))
    {
      BondBefore(sites, n, l);
      AmpParts(sites, ts, n - 1, k / 2, l);
      EntryParts(site, t, l, k % 2, r);
    }
    SumParts(|t|, f, re, im);
    AmpUnfolds(sites, ts, n, k, r, f, re, im);
  }

  lemma BondBefore(sites: seq<SiteTensor>, n: nat, l: nat)
    requires 0 < n <= |sites| && sites[0].leftDim == 1 && BondsMeet(sites) && l < sites[n - 1].leftDim
    ensures l < BondAfter(sites, n - 1)
  {
  }

  lemma EntryParts(site: SiteTensor, t: Table, l: nat, p: nat, r: nat)
    requires SiteHolds(site, t) && l < site.leftDim && p < 2 && r < site.rightDim
    ensures GetSite(site, l, p, r) == C(EntryRe(t, l, p, r), EntryIm(t, l, p, r))
  {
    hide GetSite, Flat;
    GetSiteIsEntry(site, t, l, p, r);
  }

  lemma AmpUnfolds(sites: seq<SiteTensor>, ts: seq<Table>, n: nat, k: nat, r: nat, f: nat -> C, re: nat -> real, im: nat -> real)
    requires 0 < n <= |sites| == |ts| && |ts[n - 1]| == sites[n - 1].leftDim
    requires forall l: nat :: f(l) == CMul(Amp(sites, n - 1, k / 2, l), GetSite(sites[n - 1], l, k % 2, r))
    requires forall l: nat :: re(l) == AmpRe(ts, n - 1, k / 2, l) * EntryRe(ts[n - 1], l, k % 2, r)
                                       - AmpIm(ts, n - 1, k / 2, l) * EntryIm(ts[n - 1], l, k % 2, r)
    requires forall l: nat :: im(l) == AmpRe(ts, n - 1, k / 2, l) * EntryIm(ts[n - 1], l, k % 2, r)
                                       + AmpIm(ts, n - 1, k / 2, l) * EntryRe(ts[n - 1], l, k % 2, r)
    ensures Amp(sites, n, k, r) == Sum(|ts[n - 1]|, f)
    ensures AmpRe(ts, n, k, r) == RealSum(|ts[n - 1]|, re) && AmpIm(ts, n, k, r) == RealSum(|ts[n - 1]|, im)
  {
    hide CMul, GetSite, EntryRe, EntryIm;
    var m := |ts[n - 1]|;
    SumCong(m, f, (l: nat) => CMul(Amp(sites, n - 1, k / 2, l), GetSite(sites[n - 1], l, k % 2, r)));
    RealSumSame(m, re, (l: nat) => AmpRe(ts, n - 1, k / 2, l) * EntryRe(ts[n - 1], l, k % 2, r)
                                   - AmpIm(ts, n - 1, k / 2, l) * EntryIm(ts[n - 1], l, k % 2, r));
    RealSumSame(m, im, (l: nat) => AmpRe(ts, n - 1, k / 2, l) * EntryIm(ts[n - 1], l, k % 2, r)
                                   + AmpIm(ts, n - 1, k / 2, l) * EntryRe(ts[n - 1], l, k % 2, r));
  }

  // ---- The inner product part by part ----

  function PairRe(kts: seq<Table>, bts: seq<Table>, n: nat, k: nat, a: nat, b: nat): real
    requires n <= |kts| && n <= |bts|
  { AmpRe(kts, n, k, a) * AmpRe(bts, n, k, b) + AmpIm(kts, n, k, a) * AmpIm(bts, n, k, b) }

  function PairIm(kts: seq<Table>, bts: seq<Table>, n: nat, k: nat, a: nat, b: nat): real
    requires n <= |kts| && n <= |bts|
  { AmpIm(kts, n, k, a) * AmpRe(bts, n, k, b) - AmpRe(kts, n, k, a) * AmpIm(bts, n, k, b) }

  /** The two real sums over all bitstrings. */
  function OverlapRe(kts: seq<Table>, bts: seq<Table>, n: nat, a: nat, b: nat): real
    requires n <= |kts| && n <= |bts|
  { RealSum(Pow2(n), (k: nat) => PairRe(kts, bts, n, k, a, b)) }

  function OverlapIm(kts: seq<Table>, bts: seq<Table>, n: nat, a: nat, b: nat): real
    requires n <= |kts| && n <= |bts|
  { RealSum(Pow2(n), (k: nat) => PairIm(kts, bts, n, k, a, b)) }

  /** The inner product of two chains is those two sums. */
  lemma InnerParts(kets: seq<SiteTensor>, bras: seq<SiteTensor>, kts: seq<Table>, bts: seq<Table>, n: nat, a: nat, b: nat)
    requires ChainHolds(kets, kts) && ChainHolds(bras, bts) && n <= |kets| && n <= |bras|
    requires a < BondAfter(kets, n) && b < BondAfter(bras, n)
    ensures Inner(kets, bras, n, a, b) == C(OverlapRe(kts, bts, n, a, b), OverlapIm(kts, bts, n, a, b))
  {
    hide Amp, AmpRe, AmpIm, ChainHolds, Pow2;
    ChainLength(kets, kts);
    ChainLength(bras, bts);
    var f: nat -> C := (k: nat) => Pair(kets, bras, n, k, a, b);
    var re: nat -> real, im: nat -> real := (k: nat) => PairRe(kts, bts, n, k, a, b), (k: nat) => PairIm(kts, bts, n, k, a, b);
    forall k: nat
      ensures f(k) == C(re(k), im(k))
    {
      AmpParts(kets, kts, n, k, a);
      AmpParts(bras, bts, n, k, b);
    }
    SumParts(Pow2(n), f, re, im);
    SumCong(Pow2(n), f, (k: nat) => Pair(kets, bras, n, k, a, b));
    RealSumSame(Pow2(n), re, (k: nat) => PairRe(kts, bts, n, k, a, b));
    RealSumSame(Pow2(n), im, (k: nat) => PairIm(kts, bts, n, k, a, b));
  }

  lemma ChainLength(sites: seq<SiteTensor>, ts: seq<Table>)
    requires ChainHolds(sites, ts)
    ensures |sites| == |ts|
  {
  }

  /** The squared norm: the sum over all bitstrings of re^2 + im^2. */
  function NormSquared(ts: seq<Table>, n: nat, a: nat): real
    requires n <= |ts|
  {
    RealSum(Pow2(n), (k: nat) => AmpRe(ts, n, k, a) * AmpRe(ts, n, k, a) + AmpIm(ts, n, k, a) * AmpIm(ts, n, k, a))
  }

  /** A chain's inner product with itself is its squared norm, real and nonnegative. */
  lemma SelfInnerIsNorm(sites: seq<SiteTensor>, ts: seq<Table>, n: nat, a: nat)
    requires ChainHolds(sites, ts) && n <= |sites| && a < BondAfter(sites, n)
    ensures n <= |ts| && Inner(sites, sites, n, a, a) == C(NormSquared(ts, n, a), 0.0) && NormSquared(ts, n, a) >= 0.0
  {
    hide Inner, AmpRe, AmpIm, Pow2;
    InnerParts(sites, sites, ts, ts, n, a, a);
    var square: nat -> real := (k: nat) => AmpRe(ts, n, k, a) * AmpRe(ts, n, k, a) + AmpIm(ts, n, k, a) * AmpIm(ts, n, k, a);
    forall k: nat
      ensures square(k) >= 0.0
    {
      SquareNonNegative(AmpRe(ts, n, k, a));
      SquareNonNegative(AmpIm(ts, n, k, a));
    }
    RealSumSame(Pow2(n), (k: nat) => PairRe(ts, ts, n, k, a, a), square);
    RealSumSame(Pow2(n), square, (k: nat) => AmpRe(ts, n, k, a) * AmpRe(ts, n, k, a) + AmpIm(ts, n, k, a) * AmpIm(ts, n, k, a));
    RealSumNonNegative(Pow2(n), square);
    RealSumZero(Pow2(n), (k: nat) => PairIm(ts, ts, n, k, a, a));
  }

  lemma SquareNonNegative(x: real)
    ensures x * x >= 0.0
  {
    if x >= 0.0 {
      assert x * x >= 0.0;
    } else {
      assert (-x) * (-x) >= 0.0;
    }
  }

  // ---- Acceptance ----

  /** Bonds between 1 and 16, met, and open at both ends. */
  predicate Formed(sites: seq<SiteTensor>, n: nat) {
    && n > 0 && |sites| == n && sites[0].leftDim == 1 && sites[n - 1].rightDim == 1
    && (forall t :: 0 <= t < n ==> 1 <= sites[t].leftDim <= 16 && 1 <= sites[t].rightDim <= 16)
    && (forall t :: 0 < t < n ==> sites[t].leftDim == sites[t - 1].rightDim)
  }

  predicate Close(x: real, y: real) { -0.000005 <= x - y <= 0.000005 }

  predicate TablesFor(sites: seq<SiteTensor>, ts: seq<Table>) {
    |sites| == |ts| && forall t :: 0 <= t < |sites| ==> SiteHolds(sites[t], ts[t])
  }

  /** The check accepts exactly well-formed chains whose claimed amplitude is, part by
      part, within 5e-6 of the two real sums. */
  lemma AcceptedIff(seg: OverlapSegment, kts: seq<Table>, bts: seq<Table>)
    requires TablesFor(seg.ketSites, kts) && TablesFor(seg.braSites, bts)
    ensures ExpectedCode(seg) == 0 <==>
      && Formed(seg.ketSites, seg.qubitCount) && Formed(seg.braSites, seg.qubitCount)
      && Close(seg.amplitude.re, OverlapRe(kts, bts, seg.qubitCount, 0, 0))
      && Close(seg.amplitude.im, OverlapIm(kts, bts, seg.qubitCount, 0, 0))
  {
    hide Inner, AmpRe, AmpIm, Pow2, Flat, OverlapRe, OverlapIm;
    var n := seg.qubitCount;
    if n > 0 && |seg.ketSites| == n && |seg.braSites| == n {
      forall t | 0 <= t < n
        ensures |seg.ketSites[t].values| == seg.ketSites[t].leftDim * 2 * seg.ketSites[t].rightDim
        ensures |seg.braSites[t].values| == seg.braSites[t].leftDim * 2 * seg.braSites[t].rightDim
      {
        FlatLength(kts[t], seg.ketSites[t].rightDim);
        FlatLength(bts[t], seg.braSites[t].rightDim);
      }
      ShapesAre(seg);
      if ChainHolds(seg.ketSites, kts) && ChainHolds(seg.braSites, bts) && seg.ketSites[n - 1].rightDim == 1 && seg.braSites[n - 1].rightDim == 1 {
        InnerParts(seg.ketSites, seg.braSites, kts, bts, n, 0, 0);
      }
    }
  }

  lemma ShapesAre(seg: OverlapSegment)
    requires |seg.ketSites| == |seg.braSites| == seg.qubitCount
    requires forall t :: 0 <= t < seg.qubitCount ==> |seg.ketSites[t].values| == seg.ketSites[t].leftDim * 2 * seg.ketSites[t].rightDim
    requires forall t :: 0 <= t < seg.qubitCount ==> |seg.braSites[t].values| == seg.braSites[t].leftDim * 2 * seg.braSites[t].rightDim
    ensures ShapesOk(seg) <==>
      && (forall t :: 0 <= t < seg.qubitCount ==> 1 <= seg.ketSites[t].leftDim <= 16 && 1 <= seg.ketSites[t].rightDim <= 16)
      && (forall t :: 0 <= t < seg.qubitCount ==> 1 <= seg.braSites[t].leftDim <= 16 && 1 <= seg.braSites[t].rightDim <= 16)
  {
    var sites, n := seg.ketSites + seg.braSites, seg.qubitCount;
    assert forall t :: 0 <= t < n ==> sites[t] == seg.ketSites[t] && sites[n + t] == seg.braSites[t];
    forall t | 0 <= t < n
      ensures seg.ketSites[t] in sites && seg.braSites[t] in sites
    {
      assert sites[t] in sites && sites[n + t] in sites;
    }
  }

  /** For ket == bra: exactly when the claim is within 5e-6 of the squared norm. */
  lemma OwnOverlapAccepted(seg: OverlapSegment, ts: seq<Table>)
    requires seg.ketSites == seg.braSites && TablesFor(seg.ketSites, ts) && Formed(seg.ketSites, seg.qubitCount)
    ensures ExpectedCode(seg) == 0 <==> Close(seg.amplitude.re, NormSquared(ts, seg.qubitCount, 0)) && Close(seg.amplitude.im, 0.0)
    ensures NormSquared(ts, seg.qubitCount, 0) >= 0.0
  {
    hide Inner, AmpRe, AmpIm, Pow2, Flat, OverlapRe, OverlapIm, NormSquared, ExpectedCode;
    AcceptedIff(seg, ts, ts);
    SelfInnerIsNorm(seg.ketSites, ts, seg.qubitCount, 0);
    InnerParts(seg.ketSites, seg.braSites, ts, ts, seg.qubitCount, 0, 0);
  }
}
