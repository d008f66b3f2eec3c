/** The host overlap check: contraction of two tensor chains site by site. */
module Overlap {

  import opened Complex
  import opened PowersOfTwo

  const OVERLAP_MAX_BOND: nat := 16
  const OVERLAP_ENV_LIMIT: nat := 256
  const OVERLAP_AMP_EPSILON: real := 0.000005

  datatype SiteTensor = SiteTensor(leftDim: nat, rightDim: nat, values: seq<C>)

  datatype OverlapSegment = OverlapSegment(qubitCount: nat, amplitude: C, ketSites: seq<SiteTensor>, braSites: seq<SiteTensor>)

  predicate SiteShapeOk(site: SiteTensor) {
    && 0 < site.leftDim <= OVERLAP_MAX_BOND && 0 < site.rightDim <= OVERLAP_MAX_BOND
    && |site.values| == site.leftDim * 2 * site.rightDim
  }

  /** Reading past the end panics in the source; GetSiteInRange excludes it. */
  function GetSite(site: SiteTensor, left: nat, phys: nat, right: nat): C {
    var i := (left * 2 + phys) * site.rightDim + right;
    if i < |site.values| then site.values[i] else C0
  }

  lemma GetSiteInRange(site: SiteTensor, left: nat, phys: nat, right: nat)
    requires SiteShapeOk(site) && left < site.leftDim && phys < 2 && right < site.rightDim
    ensures (left * 2 + phys) * site.rightDim + right < |site.values|
  {
    RowEnd(left * 2 + phys, right, site.rightDim, site.leftDim * 2);
  }

  // ---- The reference: sums over all bitstrings ----

  /** The product of the first n site matrices along the bits of k, from the open left
      bond to bond r; bit n - 1 of the string is k % 2. */
  function Amp(sites: seq<SiteTensor>, n: nat, k: nat, r: nat): C
    requires n <= |sites|
  {
    if n == 0 then (if r == 0 then C1 else C0)
    else Sum(sites[n - 1].leftDim, (l: nat) => CMul(Amp(sites, n - 1, k / 2, l), GetSite(sites[n - 1], l, k % 2, r)))
  }

  /** One summand of the inner product: ket amplitude times conjugate bra amplitude. */
  function Pair(kets: seq<SiteTensor>, bras: seq<SiteTensor>, n: nat, k: nat, a: nat, b: nat): C
    requires n <= |kets| && n <= |bras|
  {
    CMul(Amp(kets, n, k, a), CConj(Amp(bras, n, k, b)))
  }

  /** The sum of Pair over all bitstrings of n sites. */
  function Inner(kets: seq<SiteTensor>, bras: seq<SiteTensor>, n: nat, a: nat, b: nat): C
    requires n <= |kets| && n <= |bras|
  {
    Sum(Pow2(n), (k: nat) => Pair(kets, bras, n, k, a, b))
  }

  // ---- One site ----

  /** The environment before a site, with the two tensors at it. */
  datatype Step = Step(env: seq<C>, ket: SiteTensor, bra: SiteTensor) {

    function Env(a: nat, b: nat): C {
      var i := a * bra.leftDim + b;
      if i < |env| then env[i] else C0
    }

    function Outer(coeff: C, a: nat, b: nat, s: nat, p: nat): C
      requires bra.rightDim > 0
    {
      CMul(CMul(coeff, GetSite(ket, a, s, p / bra.rightDim)), CConj(GetSite(bra, b, s, p % bra.rightDim)))
    }

    /** What (a, b) contributes to slot p for the first n physical indices. */
    function SumS(p: nat, a: nat, b: nat, n: nat): C
      requires bra.rightDim > 0
    {
      Sum(n, (s: nat) => Outer(Env(a, b), a, b, s, p))
    }

    function SumB(p: nat, a: nat, n: nat): C
      requires bra.rightDim > 0
    {
      Sum(n, (b: nat) => SumS(p, a, b, 2))
    }

    /** Slot p of the next environment, from the first n left bonds of the ket. */
    function SumA(p: nat, n: nat): C
      requires bra.rightDim > 0
    {
      Sum(n, (a: nat) => SumB(p, a, bra.leftDim))
    }
  }

  datatype Contraction = Next(env: seq<C>) | LeftBondMismatch | EnvLengthMismatch | EnvLimitExceeded

  lemma AtLeastOnce(k: int, w: nat)
    requires k >= 1
    ensures k * w >= w
  {
  }

  lemma QuotientUnique(q: int, r: int, i: int, j: int, w: nat)
    requires 0 <= j < w && 0 <= r < w && q * w + r == i * w + j
    ensures q == i && r == j
  {
    assert (q - i) * w == j - r && (i - q) * w == r - j;
    if q > i {
      AtLeastOnce(q - i, w);
    } else if q < i {
      AtLeastOnce(i - q, w);
    }
  }

  lemma RowMajor(i: nat, j: nat, w: nat)
    requires j < w
    ensures (i * w + j) / w == i && (i * w + j) % w == j
  {
    var z := i * w + j;
    QuotientUnique(z / w, z % w, i, j, w);
  }

  lemma RowEnd(i: nat, j: nat, w: nat, n: nat)
    requires j < w && i < n
    ensures i * w + j < n * w && i * w + w == (i + 1) * w <= n * w
  {
    assert (i + 1) * w <= n * w;
  }

  lemma ZeroOuter(st: Step, coeff: C, a: nat, b: nat, s: nat, p: nat)
    requires st.bra.rightDim > 0
    requires coeff == C0 || CMul(coeff, GetSite(st.ket, a, s, p / st.bra.rightDim)) == C0
    ensures st.Outer(coeff, a, b, s, p) == C0
  {
    hide CMul, GetSite;
    CMulZero(GetSite(st.ket, a, s, p / st.bra.rightDim));
    CMulZero(CConj(GetSite(st.bra, b, s, p % st.bra.rightDim)));
  }

  /** The two inner loops: next gains the outer product, zero entries skipped. */
  method AddOuter(next: array<C>, st: Step, coeff: C, a: nat, b: nat, s: nat)
    requires SiteShapeOk(st.bra) && next.Length == st.ket.rightDim * st.bra.rightDim
    modifies next
    ensures forall p :: 0 <= p < next.Length ==> next[p] == CAdd(old(next[p]), st.Outer(coeff, a, b, s, p))
  {
    hide CMul, CAdd, GetSite;
    var w, n := st.bra.rightDim, st.ket.rightDim;
    var i := 0;
    while i < n
      invariant 0 <= i <= n && 0 <= i * w <= n * w
      invariant forall p :: 0 <= p < i * w ==> next[p] == CAdd(old(next[p]), st.Outer(coeff, a, b, s, p))
      invariant forall p :: i * w <= p < next.Length ==> next[p] == old(next[p])
    {
      RowEnd(i, 0, w, n);
      var kv := CMul(coeff, GetSite(st.ket, a, s, i));
      if kv == C0 {
        forall p | i * w <= p < i * w + w
          ensures CAdd(next[p], st.Outer(coeff, a, b, s, p)) == next[p]
        {
          RowMajor(i, p - i * w, w);
          ZeroOuter(st, coeff, a, b, s, p);
          CAddZero(next[p]);
        }
        i := i + 1;
        continue;
      }
      for j := 0 to w
        invariant forall p :: 0 <= p < i * w + j ==> next[p] == CAdd(old(next[p]), st.Outer(coeff, a, b, s, p))
        invariant forall p :: i * w + j <= p < next.Length ==> next[p] == old(next[p])
      {
        RowEnd(i, j, w, n);
        RowMajor(i, j, w);
        var idx := i * w + j;
        next[idx] := CAdd(next[idx], CMul(kv, CConj(GetSite(st.bra, b, s, j))));
      }
      i := i + 1;
    }
  }

  lemma ZeroCoefficient(st: Step, p: nat, a: nat, b: nat)
    requires st.bra.rightDim > 0 && st.Env(a, b) == C0
    ensures st.SumS(p, a, b, 2) == C0
  {
    hide CMul, GetSite;
    forall s: nat | s < 2
      ensures st.Outer(st.Env(a, b), a, b, s, p) == C0
    {
      ZeroOuter(st, C0, a, b, s, p);
    }
    SumZero(2, (s: nat) => st.Outer(st.Env(a, b), a, b, s, p));
  }

  /** The loop over the physical index. */
  method AddPhysical(next: array<C>, st: Step, coeff: C, a: nat, b: nat)
    requires SiteShapeOk(st.bra) && next.Length == st.ket.rightDim * st.bra.rightDim && coeff == st.Env(a, b)
    modifies next
    ensures forall p :: 0 <= p < next.Length ==> next[p] == CAdd(old(next[p]), st.SumS(p, a, b, 2))
  {
    hide CMul, CAdd, GetSite;
    NoneAdded(st, a, b, next[..]);
    for s := 0 to 2
      invariant forall p :: 0 <= p < next.Length ==> next[p] == CAdd(old(next[p]), st.SumS(p, a, b, s))
    {
      ghost var before := next[..];
      AddOuter(next, st, coeff, a, b, s);
      forall p | 0 <= p < next.Length
        ensures next[p] == CAdd(old(next[p]), st.SumS(p, a, b, s + 1))
      {
        assert next[p] == CAdd(before[p], st.Outer(coeff, a, b, s, p));
        CAddAssoc(old(next[p]), st.SumS(p, a, b, s), st.Outer(coeff, a, b, s, p));
      }
    }
  }

  lemma NoneAdded(st: Step, a: nat, b: nat, next: seq<C>)
    requires st.bra.rightDim > 0
    ensures forall p :: 0 <= p < |next| ==> CAdd(next[p], st.SumS(p, a, b, 0)) == next[p]
  {
    hide CMul, GetSite;
  }

  /** One pair of left bonds: an environment entry of zero is skipped. */
  method AddBondPair(next: array<C>, st: Step, a: nat, b: nat)
    requires SiteShapeOk(st.bra) && next.Length == st.ket.rightDim * st.bra.rightDim
    requires a * st.bra.leftDim + b < |st.env|
    modifies next
    ensures forall p :: 0 <= p < next.Length ==> next[p] == CAdd(old(next[p]), st.SumS(p, a, b, 2))
  {
    hide CMul, CAdd, GetSite, Step.SumS;
    var coeff := st.env[a * st.bra.leftDim + b];
    if coeff != C0 {
      AddPhysical(next, st, coeff, a, b);
    } else {
      forall p | 0 <= p < next.Length
        ensures next[p] == CAdd(next[p], st.SumS(p, a, b, 2))
      {
        ZeroCoefficient(st, p, a, b);
        CAddZero(next[p]);
      }
    }
  }

  lemma SumBStep(st: Step, p: nat, a: nat, b: nat, n: C)
    requires st.bra.rightDim > 0
    ensures CAdd(CAdd(n, st.SumB(p, a, b)), st.SumS(p, a, b, 2)) == CAdd(n, st.SumB(p, a, b + 1))
  {
    hide CMul, CAdd, GetSite, Step.SumS;
    CAddAssoc(n, st.SumB(p, a, b), st.SumS(p, a, b, 2));
  }

  /** The loop over the bra's left bond. */
  method AddKetBond(next: array<C>, st: Step, a: nat)
    requires SiteShapeOk(st.bra) && next.Length == st.ket.rightDim * st.bra.rightDim
    requires a < st.ket.leftDim && |st.env| == st.ket.leftDim * st.bra.leftDim
    modifies next
    ensures forall p :: 0 <= p < next.Length ==> next[p] == CAdd(old(next[p]), st.SumB(p, a, st.bra.leftDim))
  {
    hide CMul, CAdd, GetSite, Step.SumB, Step.SumS;
    StartB(st, a, next[..]);
    for b := 0 to st.bra.leftDim
      invariant forall p :: 0 <= p < next.Length ==> next[p] == CAdd(old(next[p]), st.SumB(p, a, b))
    {
      RowEnd(a, b, st.bra.leftDim, st.ket.leftDim);
      ghost var before := next[..];
      AddBondPair(next, st, a, b);
      forall p | 0 <= p < next.Length
        ensures next[p] == CAdd(old(next[p]), st.SumB(p, a, b + 1))
      {
        assert next[p] == CAdd(before[p], st.SumS(p, a, b, 2));
        SumBStep(st, p, a, b, old(next[p]));
      }
    }
  }

  /** Contracts one site: slot p of the next environment is the full sum over left bonds
      and the physical index, and the limit is never exceeded. */
  method ContractSite(env: seq<C>, ket: SiteTensor, bra: SiteTensor, ketLeft: nat, braLeft: nat) returns (r: Contraction)
    requires SiteShapeOk(ket) && SiteShapeOk(bra)
    ensures r == LeftBondMismatch <==> ket.leftDim != ketLeft || bra.leftDim != braLeft
    ensures r == EnvLengthMismatch <==> r != LeftBondMismatch && |env| != ketLeft * braLeft
    ensures r != EnvLimitExceeded
    ensures r.Next? ==> |r.env| == ket.rightDim * bra.rightDim
    ensures r.Next? ==> forall p :: 0 <= p < |r.env| ==> r.env[p] == Step(env, ket, bra).SumA(p, ket.leftDim)
  {
    hide CMul, CAdd, GetSite, Step.SumA, Step.SumB, Step.SumS;
    if ket.leftDim != ketLeft || bra.leftDim != braLeft {
      return LeftBondMismatch;
    }
    if |env| != ketLeft * braLeft {
      return EnvLengthMismatch;
    }
    var envDim := ket.rightDim * bra.rightDim;
    DimBound(ket.rightDim, bra.rightDim);
    if envDim == 0 || envDim > OVERLAP_ENV_LIMIT {
      assert false;
      return EnvLimitExceeded;
    }
    var st := Step(env, ket, bra);
    var next := new C[envDim](_ => C0);
    SumANone(st);
    for a := 0 to ket.leftDim
      invariant forall p :: 0 <= p < envDim ==> next[p] == st.SumA(p, a)
    {
      ghost var before := next[..];
      AddKetBond(next, st, a);
      forall p | 0 <= p < envDim
        ensures next[p] == st.SumA(p, a + 1)
      {
        assert next[p] == CAdd(before[p], st.SumB(p, a, st.bra.leftDim));
        SumAStep(st, p, a);
      }
    }
    return Next(next[..]);
  }

  lemma DimBound(m: nat, n: nat)
    requires 0 < m <= OVERLAP_MAX_BOND && 0 < n <= OVERLAP_MAX_BOND
    ensures 0 < m * n <= OVERLAP_ENV_LIMIT
  {
    assert m * n <= OVERLAP_MAX_BOND * n;
  }

  lemma SumANone(st: Step)
    requires st.bra.rightDim > 0
    ensures forall p :: st.SumA(p, 0) == C0
  {
    hide CMul, CAdd, GetSite, Step.SumB;
  }

  lemma SumAStep(st: Step, p: nat, a: nat)
    requires st.bra.rightDim > 0
    ensures CAdd(st.SumA(p, a), st.SumB(p, a, st.bra.leftDim)) == st.SumA(p, a + 1)
  {
    hide CMul, CAdd, GetSite, Step.SumB;
  }

  lemma StartB(st: Step, a: nat, next: seq<C>)
    requires st.bra.rightDim > 0
    ensures forall p :: 0 <= p < |next| ==> CAdd(next[p], st.SumB(p, a, 0)) == next[p]
  {
    hide CMul, GetSite;
  }

  // ---- The contraction computes the sums over bitstrings ----

  /** The environment after n sites is the inner product of the two chains so far. */
  ghost predicate HoldsInner(env: seq<C>, kets: seq<SiteTensor>, bras: seq<SiteTensor>, n: nat, width: nat)
    requires n <= |kets| && n <= |bras|
  {
    width > 0 && forall p :: 0 <= p < |env| ==> env[p] == Inner(kets, bras, n, p / width, p % width)
  }

  /** The summand for bitstring k, left bonds a and b, right bonds i and j. */
  function Summand(kets: seq<SiteTensor>, bras: seq<SiteTensor>, n: nat, i: nat, j: nat, k: nat, a: nat, b: nat): C
    requires n < |kets| && n < |bras|
  {
    CMul(CMul(Pair(kets, bras, n, k / 2, a, b), GetSite(kets[n], a, k % 2, i)), CConj(GetSite(bras[n], b, k % 2, j)))
  }

  /** Its sum over the bra bond, for one bitstring. */
  function OverBraBond(kets: seq<SiteTensor>, bras: seq<SiteTensor>, n: nat, i: nat, j: nat, k: nat, a: nat): C
    requires n < |kets| && n < |bras|
  {
    Sum(bras[n].leftDim, (b: nat) => Summand(kets, bras, n, i, j, k, a, b))
  }

  /** Its sum over the bitstrings of n + 1 sites, for one pair of bonds. */
  function OverStrings(kets: seq<SiteTensor>, bras: seq<SiteTensor>, n: nat, i: nat, j: nat, a: nat, b: nat): C
    requires n < |kets| && n < |bras|
  {
    Sum(Pow2(n + 1), (k: nat) => Summand(kets, bras, n, i, j, k, a, b))
  }

  /** Its sum over bitstrings and bra bond, for one ket bond. */
  function OverBoth(kets: seq<SiteTensor>, bras: seq<SiteTensor>, n: nat, i: nat, j: nat, a: nat): C
    requires n < |kets| && n < |bras|
  {
    Sum(bras[n].leftDim, (b: nat) => OverStrings(kets, bras, n, i, j, a, b))
  }

  /** A pair of n + 1 sites is a double sum over the bonds to the left of the last. */
  lemma PairExpands(kets: seq<SiteTensor>, bras: seq<SiteTensor>, n: nat, i: nat, j: nat, k: nat, rows: nat -> C)
    requires n < |kets| && n < |bras|
    requires forall a: nat :: rows(a) == OverBraBond(kets, bras, n, i, j, k, a)
    ensures Pair(kets, bras, n + 1, k, i, j) == Sum(kets[n].leftDim, rows)
  {
    hide CMul, CAdd, GetSite, Amp, CConj;
    var x: nat -> C := (a: nat) => CMul(Amp(kets, n, k / 2, a), GetSite(kets[n], a, k % 2, i));
    var y: nat -> C := (b: nat) => CMul(Amp(bras, n, k / 2, b), GetSite(bras[n], b, k % 2, j));
    var yc: nat -> C := (b: nat) => CConj(y(b));
    AmpStep(kets, n, k, i, x);
    AmpStep(bras, n, k, j, y);
    SumConj(bras[n].leftDim, y, yc);
    var right := Sum(bras[n].leftDim, yc);
    forall a: nat | a < kets[n].leftDim
      ensures rows(a) == CMul(x(a), right)
    {
      forall b: nat
        ensures Summand(kets, bras, n, i, j, k, a, b) == CMul(yc(b), x(a))
      {
        Rearrange(Amp(kets, n, k / 2, a), Amp(bras, n, k / 2, b), GetSite(kets[n], a, k % 2, i), GetSite(bras[n], b, k % 2, j));
      }
      SumScale(bras[n].leftDim, yc, (b: nat) => Summand(kets, bras, n, i, j, k, a, b), x(a));
      CMulComm(right, x(a));
    }
    SumScale(kets[n].leftDim, x, rows, right);
  }

  lemma AmpStep(sites: seq<SiteTensor>, n: nat, k: nat, r: nat, x: nat -> C)
    requires n < |sites|
    requires forall l: nat :: x(l) == CMul(Amp(sites, n, k / 2, l), GetSite(sites[n], l, k % 2, r))
    ensures Amp(sites, n + 1, k, r) == Sum(sites[n].leftDim, x)
  {
    hide CMul, CAdd, GetSite;
    SumCong(sites[n].leftDim, x, (l: nat) => CMul(Amp(sites, n, k / 2, l), GetSite(sites[n], l, k % 2, r)));
  }

  lemma Rearrange(u: C, v: C, x: C, y: C)
    ensures CMul(CMul(CMul(u, CConj(v)), x), CConj(y)) == CMul(CConj(CMul(v, y)), CMul(u, x))
  {
    hide CMul, CConj;
    var vc, yc := CConj(v), CConj(y);
    CConjMul(v, y);
    CMulAssoc(u, vc, x);
    CMulComm(vc, x);
    CMulAssoc(u, x, vc);
    CMulAssoc(CMul(u, x), vc, yc);
    CMulComm(CMul(u, x), CMul(vc, yc));
  }

  /** Summing the summand over all strings of n + 1 bits contracts the inner product of
      n sites with the two tensors, over the last bit. */
  lemma SummandOverStrings(kets: seq<SiteTensor>, bras: seq<SiteTensor>, n: nat, i: nat, j: nat, a: nat, b: nat)
    requires n < |kets| && n < |bras|
    ensures OverStrings(kets, bras, n, i, j, a, b)
            == Sum(2, (s: nat) => CMul(CMul(Inner(kets, bras, n, a, b), GetSite(kets[n], a, s, i)),
                                       CConj(GetSite(bras[n], b, s, j))))
  {
    hide CMul, CAdd, GetSite, Amp, CConj, Pair;
    var f: nat -> C := (k: nat) => Summand(kets, bras, n, i, j, k, a, b);
    var g: nat -> C := (s: nat) => CMul(CMul(Inner(kets, bras, n, a, b), GetSite(kets[n], a, s, i)),
                                        CConj(GetSite(bras[n], b, s, j)));
    SumByParity(Pow2(n), f);
    OneParity(kets, bras, n, i, j, a, b, 0, (m: nat) => f(2 * m));
    OneParity(kets, bras, n, i, j, a, b, 1, (m: nat) => f(2 * m + 1));
    assert Sum(2, g) == CAdd(CAdd(C0, g(0)), g(1));
    CAddZero(g(0));
  }

  lemma OneParity(kets: seq<SiteTensor>, bras: seq<SiteTensor>, n: nat, i: nat, j: nat, a: nat, b: nat, s: nat, f: nat -> C)
    requires n < |kets| && n < |bras| && s < 2
    requires forall m: nat :: f(m) == Summand(kets, bras, n, i, j, 2 * m + s, a, b)
    ensures Sum(Pow2(n), f) == CMul(CMul(Inner(kets, bras, n, a, b), GetSite(kets[n], a, s, i)),
                                    CConj(GetSite(bras[n], b, s, j)))
  {
    hide CMul, CAdd, GetSite, Amp, CConj, Pair;
    var x, y := GetSite(kets[n], a, s, i), CConj(GetSite(bras[n], b, s, j));
    var pairs: nat -> C := (m: nat) => Pair(kets, bras, n, m, a, b);
    var mid: nat -> C := (m: nat) => CMul(pairs(m), x);
    forall m: nat
      ensures f(m) == CMul(mid(m), y)
    {
      assert (2 * m + s) / 2 == m && (2 * m + s) % 2 == s;
    }
    SumCong(Pow2(n), pairs, (k: nat) => Pair(kets, bras, n, k, a, b));
    SumScale(Pow2(n), pairs, mid, x);
    SumScale(Pow2(n), mid, f, y);
  }

  /** env is the environment of inner products before site n of two well-shaped chains. */
  ghost predicate Ready(kets: seq<SiteTensor>, bras: seq<SiteTensor>, n: nat, env: seq<C>) {
    hide Inner;
    && n < |kets| && n < |bras| && SiteShapeOk(kets[n]) && SiteShapeOk(bras[n])
    && |env| == kets[n].leftDim * bras[n].leftDim && HoldsInner(env, kets, bras, n, bras[n].leftDim)
  }

  ghost predicate ContractsTo(kets: seq<SiteTensor>, bras: seq<SiteTensor>, n: nat, env: seq<C>, p: nat, i: nat, j: nat) {
    hide Inner;
    && n < |kets| && n < |bras| && bras[n].rightDim > 0
    && Step(env, kets[n], bras[n]).SumA(p, kets[n].leftDim) == Inner(kets, bras, n + 1, i, j)
  }

  /** The row and column of slot p in the environment after site n. */
  ghost predicate SlotAt(bras: seq<SiteTensor>, n: nat, p: nat, i: nat, j: nat) {
    n < |bras| && bras[n].rightDim > 0 && i == p / bras[n].rightDim && j == p % bras[n].rightDim
  }

  /** One site: contracting an environment of inner products gives the next ones. */
  lemma InnerStep(kets: seq<SiteTensor>, bras: seq<SiteTensor>, n: nat, env: seq<C>, p: nat, i: nat, j: nat)
    requires Ready(kets, bras, n, env) && SlotAt(bras, n, p, i, j)
    ensures ContractsTo(kets, bras, n, env, p, i, j)
  {
    hide CMul, CAdd, GetSite, Amp, CConj, Pair, Pow2, SlotAt, HoldsInner, OverBraBond, OverBoth;
    var st := Step(env, kets[n], bras[n]);
    var ka, ba := kets[n].leftDim, bras[n].leftDim;
    var strings := Pow2(n + 1);
    // Sum over strings first, then the bonds; exchanged one bond at a time.
    var half: (nat, nat) -> C := (k: nat, a: nat) => OverBraBond(kets, bras, n, i, j, k, a);
    var perString: nat -> C := (k: nat) => Pair(kets, bras, n + 1, k, i, j);
    var perBond: nat -> C := (a: nat) => OverBoth(kets, bras, n, i, j, a);
    forall k: nat
      ensures perString(k) == Sum(ka, (a: nat) => half(k, a))
    {
      PairExpands(kets, bras, n, i, j, k, (a: nat) => half(k, a));
    }
    forall a: nat
      ensures perBond(a) == Sum(strings, (k: nat) => half(k, a))
    {
      BondColumn(kets, bras, n, i, j, a, (k: nat) => half(k, a));
    }
    SumSwap(strings, ka, half, perString, perBond);
    forall a: nat | a < ka
      ensures perBond(a) == st.SumB(p, a, ba)
    {
      BondRow(kets, bras, n, env, p, i, j, a);
    }
    SumCong(ka, perBond, (a: nat) => st.SumB(p, a, ba));
  }

  lemma BondColumn(kets: seq<SiteTensor>, bras: seq<SiteTensor>, n: nat, i: nat, j: nat, a: nat, col: nat -> C)
    requires n < |kets| && n < |bras|
    requires forall k: nat :: col(k) == OverBraBond(kets, bras, n, i, j, k, a)
    ensures OverBoth(kets, bras, n, i, j, a) == Sum(Pow2(n + 1), col)
  {
    hide CMul, CAdd, Summand, Pow2;
    var ba, strings := bras[n].leftDim, Pow2(n + 1);
    var f: (nat, nat) -> C := (b: nat, k: nat) => Summand(kets, bras, n, i, j, k, a, b);
    var rows: nat -> C := (b: nat) => OverStrings(kets, bras, n, i, j, a, b);
    forall b: nat
      ensures rows(b) == Sum(strings, (k: nat) => f(b, k))
    {
      SumCong(strings, (k: nat) => f(b, k), (k: nat) => Summand(kets, bras, n, i, j, k, a, b));
    }
    forall k: nat
      ensures col(k) == Sum(ba, (b: nat) => f(b, k))
    {
      SumCong(ba, (b: nat) => f(b, k), (b: nat) => Summand(kets, bras, n, i, j, k, a, b));
    }
    SumSwap(ba, strings, f, rows, col);
    SumCong(ba, rows, (b: nat) => OverStrings(kets, bras, n, i, j, a, b));
  }

  lemma BondRow(kets: seq<SiteTensor>, bras: seq<SiteTensor>, n: nat, env: seq<C>, p: nat, i: nat, j: nat, a: nat)
    requires Ready(kets, bras, n, env) && SlotAt(bras, n, p, i, j) && a < kets[n].leftDim
    ensures OverBoth(kets, bras, n, i, j, a) == Step(env, kets[n], bras[n]).SumB(p, a, bras[n].leftDim)
  {
    hide CMul, CAdd, GetSite, Amp, CConj, Pair, Pow2, Inner, SlotAt, HoldsInner, Summand, OverStrings;
    var st := Step(env, kets[n], bras[n]);
    forall b: nat | b < bras[n].leftDim
      ensures OverStrings(kets, bras, n, i, j, a, b) == st.SumS(p, a, b, 2)
    {
      EnvHolds(kets, bras, n, st, a, b);
      SummandOverStrings(kets, bras, n, i, j, a, b);
      forall s: nat
        ensures CMul(CMul(Inner(kets, bras, n, a, b), GetSite(kets[n], a, s, i)), CConj(GetSite(bras[n], b, s, j)))
                == st.Outer(st.Env(a, b), a, b, s, p)
      {
        OuterAt(st, bras, n, a, b, s, p, i, j);
      }
      SumCong(2, (s: nat) => CMul(CMul(Inner(kets, bras, n, a, b), GetSite(kets[n], a, s, i)), CConj(GetSite(bras[n], b, s, j))),
              (s: nat) => st.Outer(st.Env(a, b), a, b, s, p));
    }
    SumCong(bras[n].leftDim, (b: nat) => OverStrings(kets, bras, n, i, j, a, b), (b: nat) => st.SumS(p, a, b, 2));
  }

  lemma OuterAt(st: Step, bras: seq<SiteTensor>, n: nat, a: nat, b: nat, s: nat, p: nat, i: nat, j: nat)
    requires SlotAt(bras, n, p, i, j) && st.bra == bras[n]
    ensures st.Outer(st.Env(a, b), a, b, s, p)
            == CMul(CMul(st.Env(a, b), GetSite(st.ket, a, s, i)), CConj(GetSite(bras[n], b, s, j)))
  {
    hide CMul, GetSite, CConj;
  }

  lemma EnvHolds(kets: seq<SiteTensor>, bras: seq<SiteTensor>, n: nat, st: Step, a: nat, b: nat)
    requires Ready(kets, bras, n, st.env) && st.bra == bras[n] && a < kets[n].leftDim && b < bras[n].leftDim
    ensures st.Env(a, b) == Inner(kets, bras, n, a, b)
  {
    hide Inner, HoldsInner, SiteShapeOk;
    var w := bras[n].leftDim;
    RowEnd(a, b, w, kets[n].leftDim);
    RowMajor(a, b, w);
    EntryHolds(st.env, kets, bras, n, w, a * w + b);
  }

  lemma EntryHolds(env: seq<C>, kets: seq<SiteTensor>, bras: seq<SiteTensor>, n: nat, w: nat, p: nat)
    requires n <= |kets| && n <= |bras| && HoldsInner(env, kets, bras, n, w) && w > 0 && p < |env|
    ensures env[p] == Inner(kets, bras, n, p / w, p % w)
  {
    hide Inner;
  }

  // ---- The whole check ----

  /** The two chains' bonds meet: every left bond is the right bond before it. */
  predicate BondsMeet(sites: seq<SiteTensor>) {
    forall t :: 0 < t < |sites| ==> sites[t].leftDim == sites[t - 1].rightDim
  }

  predicate Within(claimed: C, actual: C) {
    && -OVERLAP_AMP_EPSILON <= claimed.re - actual.re <= OVERLAP_AMP_EPSILON
    && -OVERLAP_AMP_EPSILON <= claimed.im - actual.im <= OVERLAP_AMP_EPSILON
  }

  predicate ShapesOk(seg: OverlapSegment) {
    forall site :: site in seg.ketSites + seg.braSites ==> SiteShapeOk(site)
  }

  /** <bra|ket>: the sum over all bitstrings of psi(s) conj(phi(s)). */
  function BruteForce(seg: OverlapSegment): C
    requires |seg.ketSites| == |seg.braSites| == seg.qubitCount
  {
    Inner(seg.ketSites, seg.braSites, seg.qubitCount, 0, 0)
  }

  /** The code the check returns. Code 6 stands for the mismatched left bond; the
      environment length, the limit and code 7 are never reached. */
  function ExpectedCode(seg: OverlapSegment): nat {
    var n := seg.qubitCount;
    if n == 0 then 1
    else if |seg.ketSites| != n || |seg.braSites| != n then 2
    else if !ShapesOk(seg) then 3
    else if seg.ketSites[0].leftDim != 1 || seg.braSites[0].leftDim != 1 then 4
    else if seg.ketSites[n - 1].rightDim != 1 || seg.braSites[n - 1].rightDim != 1 then 5
    else if !BondsMeet(seg.ketSites) || !BondsMeet(seg.braSites) then 6
    else if !Within(seg.amplitude, BruteForce(seg)) then 8
    else 0
  }

  /** The environment before the first site. */
  lemma InnerStart(kets: seq<SiteTensor>, bras: seq<SiteTensor>)
    ensures HoldsInner([C1], kets, bras, 0, 1)
  {
    hide CMul, CAdd, CConj;
    CMulOne(C1);
    CAddZero(C1);
    ConjOne();
    var f: nat -> C := (k: nat) => Pair(kets, bras, 0, k, 0, 0);
    assert f(0) == C1;
    assert Sum(1, f) == CAdd(Sum(0, f), f(0));
    assert Pow2(0) == 1;
  }

  lemma ConjOne()
    ensures CConj(C1) == C1
  {
  }

  lemma NextHolds(kets: seq<SiteTensor>, bras: seq<SiteTensor>, n: nat, env: seq<C>, next: seq<C>)
    requires Ready(kets, bras, n, env)
    requires forall p :: 0 <= p < |next| ==> next[p] == Step(env, kets[n], bras[n]).SumA(p, kets[n].leftDim)
    ensures HoldsInner(next, kets, bras, n + 1, bras[n].rightDim)
  {
    hide Inner, HoldsInner, SlotAt, Step.SumA, GetSite;
    var w := bras[n].rightDim;
    forall p | 0 <= p < |next|
      ensures next[p] == Inner(kets, bras, n + 1, p / w, p % w)
    {
      SlotHere(bras, n, p, w);
      InnerStep(kets, bras, n, env, p, p / w, p % w);
    }
    FromSlots(next, kets, bras, n + 1, w);
  }

  lemma SingleSlot(env: seq<C>, seg: OverlapSegment)
    requires |seg.ketSites| == |seg.braSites| == seg.qubitCount
    requires |env| == 1 && HoldsInner(env, seg.ketSites, seg.braSites, seg.qubitCount, 1)
    ensures env[0] == BruteForce(seg)
  {
    hide Inner;
  }

  lemma SlotHere(bras: seq<SiteTensor>, n: nat, p: nat, w: nat)
    requires n < |bras| && bras[n].rightDim == w > 0
    ensures SlotAt(bras, n, p, p / w, p % w)
  {
  }

  lemma FromSlots(env: seq<C>, kets: seq<SiteTensor>, bras: seq<SiteTensor>, n: nat, w: nat)
    requires n <= |kets| && n <= |bras| && w > 0
    requires forall p :: 0 <= p < |env| ==> env[p] == Inner(kets, bras, n, p / w, p % w)
    ensures HoldsInner(env, kets, bras, n, w)
  {
    hide Inner;
  }

  /** Exchanging ket and bra conjugates the overlap. */
  lemma ExchangeConjugates(kets: seq<SiteTensor>, bras: seq<SiteTensor>, n: nat, a: nat, b: nat)
    requires n <= |kets| && n <= |bras|
    ensures Inner(bras, kets, n, b, a) == CConj(Inner(kets, bras, n, a, b))
  {
    hide CMul, CAdd, Amp, Pow2;
    forall k: nat
      ensures Pair(bras, kets, n, k, b, a) == CConj(Pair(kets, bras, n, k, a, b))
    {
      var u, v := Amp(kets, n, k, a), Amp(bras, n, k, b);
      CConjMul(u, CConj(v));
      CMulComm(CConj(u), v);
    }
    SumConj(Pow2(n), (k: nat) => Pair(kets, bras, n, k, a, b), (k: nat) => Pair(bras, kets, n, k, b, a));
  }

  method OverlapConstraintFailure(seg: OverlapSegment) returns (code: int)
    ensures code == ExpectedCode(seg)
  {
    hide Inner, CMul, CAdd, HoldsInner, GetSite;
    var n := seg.qubitCount;
    if n == 0 {
      return 1;
    }
    if |seg.ketSites| != n || |seg.braSites| != n {
      return 2;
    }
    var sites := seg.ketSites + seg.braSites;
    for t := 0 to |sites|
      invariant forall u :: 0 <= u < t ==> SiteShapeOk(sites[u])
    {
      if !SiteShapeOk(sites[t]) {
        assert sites[t] in sites;
        return 3;
      }
    }
    assert ShapesOk(seg);
    if seg.ketSites[0].leftDim != 1 || seg.braSites[0].leftDim != 1 {
      return 4;
    }
    if seg.ketSites[n - 1].rightDim != 1 || seg.braSites[n - 1].rightDim != 1 {
      return 5;
    }
    var env, ketLeft, braLeft := [C1], 1, 1;
    InnerStart(seg.ketSites, seg.braSites);
    for t := 0 to n
      invariant ketLeft == (if t == 0 then 1 else seg.ketSites[t - 1].rightDim)
      invariant braLeft == (if t == 0 then 1 else seg.braSites[t - 1].rightDim)
      invariant |env| == ketLeft * braLeft && HoldsInner(env, seg.ketSites, seg.braSites, t, braLeft)
      invariant forall u :: 0 < u < t ==> seg.ketSites[u].leftDim == seg.ketSites[u - 1].rightDim
      invariant forall u :: 0 < u < t ==> seg.braSites[u].leftDim == seg.braSites[u - 1].rightDim
    {
      var ket, bra := seg.ketSites[t], seg.braSites[t];
      assert ket in sites && bra in sites;
      var r := ContractSite(env, ket, bra, ketLeft, braLeft);
      if !r.Next? {
        assert r == LeftBondMismatch;
        return 6;
      }
      NextHolds(seg.ketSites, seg.braSites, t, env, r.env);
      ketLeft, braLeft, env := ket.rightDim, bra.rightDim, r.env;
    }
    if |env| != 1 {
      assert false;
      return 7;
    }
    SingleSlot(env, seg);
    return if Within(seg.amplitude, env[0]) then 0 else 8;
  }
}
