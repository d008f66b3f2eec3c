/** The DEEP row reduction and its witnesses, as the host computes them. */
module DeepNative {

  import opened Options
  import opened M31
  import opened Ef3
  import opened FoldGeometry

  datatype EfPoint = EfPoint(x: Ef, y: Ef)

  /** The circle point at parameter t; None when 1 + t^2 has no inverse. */
  function TryFromProjectiveLine(t: Ef): Option<EfPoint> {
    var t2 := ESquare(t);
    match TryInverse(EAdd(ONE, t2))
    case None => None
    case Some(inv) => Some(EfPoint(EMul(ESub(ONE, t2), inv), EMul(EDouble(t), inv)))
  }

  /** v_p for base point (sx, sy) at the extension point at: real and imaginary part. */
  function Vp(sx: Fp, sy: Fp, at: EfPoint): EfPoint {
    var negX, negY := at.x, ENeg(at.y);
    var diffX := ESub(EMul(negX, Embed(sx)), EMul(negY, Embed(sy)));
    var diffY := EAdd(EMul(negX, Embed(sy)), EMul(negY, Embed(sx)));
    EfPoint(ESub(ONE, diffX), ENeg(diffY))
  }

  /** The sum over i < n of alpha^i (px[i] - pz[i]). */
  function LinearSum(alpha: Ef, px: seq<Fp>, pz: seq<Ef>, n: nat): Ef
    requires n <= |px| && n <= |pz|
  {
    if n == 0 then ZERO
    else EAdd(LinearSum(alpha, px, pz, n - 1), EMul(EPow(alpha, n - 1), ESub(Embed(px[n - 1]), pz[n - 1])))
  }

  function Common(px: seq<Fp>, pz: seq<Ef>): (n: nat)
    ensures n <= |px| && n <= |pz|
  {
    if |px| <= |pz| then |px| else |pz|
  }

  function DeepNumer(v: EfPoint, alphaPowW: Ef): Ef { ESub(v.x, EMul(alphaPowW, v.y)) }

  function DeepDenom(v: EfPoint): Ef { EAdd(ESquare(v.x), ESquare(v.y)) }

  /** The reduction as one formula: numer / denom times the linear combination. */
  function DeepQuotient(alpha: Ef, sx: Fp, sy: Fp, zeta: Ef, psAtX: seq<Fp>, psAtZeta: seq<Ef>): Option<Ef> {
    hide EMul, EAdd, ESub, TryInverse, TryFromProjectiveLine;
    match TryFromProjectiveLine(zeta)
    case None => None
    case Some(at) =>
      var v := Vp(sx, sy, at);
      match TryInverse(DeepDenom(v))
      case None => None
      case Some(inv) =>
        Some(EMul(EMul(DeepNumer(v, EPow(alpha, |psAtX|)), inv), LinearSum(alpha, psAtX, psAtZeta, Common(psAtX, psAtZeta))))
  }

  lemma EPowStep(a: Ef, n: nat)
    ensures EMul(EPow(a, n), a) == EPow(a, n + 1)
  {
    hide EMul;
    EMulComm(EPow(a, n), a);
  }

  method TryDeepQuotientReduceRow(alpha: Ef, sx: Fp, sy: Fp, zeta: Ef, psAtX: seq<Fp>, psAtZeta: seq<Ef>)
    returns (r: Option<Ef>)
    ensures r == DeepQuotient(alpha, sx, sy, zeta, psAtX, psAtZeta)
  {
    hide EMul, EAdd, ESub, ENeg, TryInverse, TryFromProjectiveLine;
    var at := TryFromProjectiveLine(zeta);
    if at.None? {
      return None;
    }
    var v := Vp(sx, sy, at.value);
    var numerator := DeepNumer(v, EPow(alpha, |psAtX|));
    var denominator := DeepDenom(v);
    var constraint, a := ZERO, ONE;
    for i := 0 to Common(psAtX, psAtZeta)
      invariant a == EPow(alpha, i)
      invariant constraint == LinearSum(alpha, psAtX, psAtZeta, i)
    {
      constraint := EAdd(constraint, EMul(a, ESub(Embed(psAtX[i]), psAtZeta[i])));
      a := EMul(a, alpha);
      EPowStep(alpha, i);
    }
    var inv := TryInverse(denominator);
    if inv.None? {
      return None;
    }
    return Some(EMul(EMul(numerator, inv.value), constraint));
  }

  // ---- Leaf witness ----

  datatype DeepPartialWitness = DeepPartialWitness(re: Ef, im: Ef, numer: Ef, denom: Ef, linear: Ef, outPre: Ef)

  datatype DeepRoLeafTraceWitness = DeepRoLeafTraceWitness(at: EfPoint, atn: EfPoint, alphaW: Ef, alphaW2: Ef,
                                                           deep0: DeepPartialWitness, deep1: DeepPartialWitness,
                                                           combined: Ef, vN: Fp, out: Ef)

  /** None where the source's division by denom would panic. */
  function DeepPartial(alpha: Ef, sx: Fp, sy: Fp, at: EfPoint, alphaPowW: Ef, px: seq<Fp>, pz: seq<Ef>)
    : Option<DeepPartialWitness>
  {
    hide EMul, EAdd, ESub, TryInverse;
    var v := Vp(sx, sy, at);
    var numer, denom := DeepNumer(v, alphaPowW), DeepDenom(v);
    var linear := LinearSum(alpha, px, pz, Common(px, pz));
    match TryInverse(denom)
    case None => None
    case Some(inv) => Some(DeepPartialWitness(v.x, v.y, numer, denom, linear, EMul(EMul(numer, inv), linear)))
  }

  const LEAF_DEEP_RO_MAX_WIDTH: nat := 68

  /** None on a width error, a degenerate zeta or a zero denominator. */
  function DeepRoLeafWitness(alpha: Ef, sx: Fp, sy: Fp, zeta: Ef, zetaNext: Ef, px: seq<Fp>, pzLocal: seq<Ef>,
                             pzNext: seq<Ef>, lambda: Ef, logN: nat): Option<DeepRoLeafTraceWitness>
  {
    hide EMul, EAdd, ESub, TryInverse, TryFromProjectiveLine, DeepPartial;
    var w := |px|;
    if w == 0 || w > LEAF_DEEP_RO_MAX_WIDTH || |pzLocal| != w || |pzNext| != w then None
    else
      match (TryFromProjectiveLine(zeta), TryFromProjectiveLine(zetaNext))
      case (Some(at), Some(atn)) =>
        var alphaW := EPow(alpha, w);
        (match (DeepPartial(alpha, sx, sy, at, alphaW, px, pzLocal), DeepPartial(alpha, sx, sy, atn, alphaW, px, pzNext))
         case (Some(deep0), Some(deep1)) =>
           var combined := EAdd(deep0.outPre, EMul(ESquare(alphaW), deep1.outPre));
           var vN := IterDoubleX(sx, if logN == 0 then 0 else logN - 1);
           Some(DeepRoLeafTraceWitness(at, atn, alphaW, ESquare(alphaW), deep0, deep1, combined, vN,
                                       ESub(combined, EMul(lambda, Embed(vN)))))
         case _ => None)
      case _ => None
  }

  /** The witness's partial results are the row reductions at zeta and zetaNext. */
  lemma WitnessMatchesReduction(alpha: Ef, sx: Fp, sy: Fp, zeta: Ef, zetaNext: Ef, px: seq<Fp>, pzLocal: seq<Ef>,
                                pzNext: seq<Ef>, lambda: Ef, logN: nat)
    ensures var local := DeepQuotient(alpha, sx, sy, zeta, px, pzLocal);
      var next := DeepQuotient(alpha, sx, sy, zetaNext, px, pzNext);
      var w := DeepRoLeafWitness(alpha, sx, sy, zeta, zetaNext, px, pzLocal, pzNext, lambda, logN);
      && (w.Some? <==> local.Some? && next.Some? && 0 < |px| <= LEAF_DEEP_RO_MAX_WIDTH && |pzLocal| == |pzNext| == |px|)
      && (w.Some? ==> w.value.deep0.outPre == local.value && w.value.deep1.outPre == next.value)
  {
    hide EMul, EAdd, ESub, ENeg, TryInverse, TryFromProjectiveLine, LinearSum, Vp;
  }
}
