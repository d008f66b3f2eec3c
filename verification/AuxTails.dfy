/** Auxiliary proof tails: finding the last marker and stripping all of them. */
module AuxTails {

  import opened Options
  import opened Bytes

  const TRAJ_V2_MARKER: seq<Byte> := Ascii("_M31_TRAJ_V2_")
  const TRAJ_V1_MARKER: seq<Byte> := Ascii("_M31_TRAJ_V1_")
  const DIST_V2_MARKER: seq<Byte> := Ascii("_M31_DIST_V2_")
  const DIST_V1_MARKER: seq<Byte> := Ascii("_M31_DIST_V1_")
  const OVERLAP_V1_MARKER: seq<Byte> := Ascii("_M31_OVERLAP_V1_")
  const BORN_STARK_TAIL_MARKER: seq<Byte> := Ascii("_M31_BORN_TAIL_V1_")
  const TRAJ_STARK_TAIL_MARKER: seq<Byte> := Ascii("_M31_TRAJ_STARK_V1_")

  const AUX_MARKERS: seq<seq<Byte>> := [
    TRAJ_V2_MARKER, TRAJ_V1_MARKER, DIST_V2_MARKER, DIST_V1_MARKER, OVERLAP_V1_MARKER,
    BORN_STARK_TAIL_MARKER, TRAJ_STARK_TAIL_MARKER
  ]

  // ---- What the seven markers have in common ----

  /** _M31_ ... _ with no other M. */
  predicate MarkerShape(m: seq<Byte>) {
    && |m| >= 12 && m[0] == 95 && m[1] == 77 && m[|m| - 1] == 95
    && forall k :: 1 < k < |m| ==> m[k] != 77
  }

  lemma Shapes()
    ensures forall i :: 0 <= i < |AUX_MARKERS| ==> MarkerShape(AUX_MARKERS[i])
  {
  }

  /** Three bytes that tell the markers apart. */
  function Tag(m: seq<Byte>): (Byte, Byte, Byte)
    requires |m| >= 12
  {
    (m[5], m[10], m[11])
  }

  lemma Tags()
    ensures forall i :: 0 <= i < |AUX_MARKERS| ==> |AUX_MARKERS[i]| >= 12
    ensures forall i, j :: 0 <= i < j < |AUX_MARKERS| ==> Tag(AUX_MARKERS[i]) != Tag(AUX_MARKERS[j])
  {
    assert Tag(AUX_MARKERS[0]) == (84, 86, 50) && Tag(AUX_MARKERS[1]) == (84, 86, 49);
    assert Tag(AUX_MARKERS[2]) == (68, 86, 50) && Tag(AUX_MARKERS[3]) == (68, 86, 49);
    assert AUX_MARKERS[4][5] == 79 && AUX_MARKERS[5][5] == 66;
    assert AUX_MARKERS[6][5] == 84 && AUX_MARKERS[6][10] == 83;
  }

  lemma AtByte(s: seq<Byte>, p: nat, m: seq<Byte>, k: nat)
    requires At(s, p, m) && k < |m|
    ensures p + k < |s| && s[p + k] == m[k]
  {
    assert s[p..p + |m|][k] == m[k];
  }

  /** At most one marker stands at an offset. */
  lemma MarkerUnique(s: seq<Byte>, p: nat, i: nat, j: nat)
    requires i < |AUX_MARKERS| && j < |AUX_MARKERS| && At(s, p, AUX_MARKERS[i]) && At(s, p, AUX_MARKERS[j])
    ensures i == j
  {
    Tags();
    hide AUX_MARKERS, At;
    AtByte(s, p, AUX_MARKERS[i], 5); AtByte(s, p, AUX_MARKERS[i], 10); AtByte(s, p, AUX_MARKERS[i], 11);
    AtByte(s, p, AUX_MARKERS[j], 5); AtByte(s, p, AUX_MARKERS[j], 10); AtByte(s, p, AUX_MARKERS[j], 11);
  }

  /** Two markers that overlap share only the last underscore of the first. */
  lemma MarkerOverlap(s: seq<Byte>, p: nat, q: nat, i: nat, j: nat)
    requires i < |AUX_MARKERS| && j < |AUX_MARKERS| && At(s, p, AUX_MARKERS[i]) && At(s, q, AUX_MARKERS[j])
    requires p < q < p + |AUX_MARKERS[i]|
    ensures q == p + |AUX_MARKERS[i]| - 1
  {
    Shapes();
    hide AUX_MARKERS, At;
    AtByte(s, q, AUX_MARKERS[j], 1);
    if q + 1 < p + |AUX_MARKERS[i]| {
      AtByte(s, p, AUX_MARKERS[i], q + 1 - p);
    }
  }

  // ---- Markers in a prefix ----

  /** The marker that stands at p and ends within the first n bytes. */
  function MarkerAt(s: seq<Byte>, p: nat, n: nat, i: nat): (r: Option<nat>)
    requires i <= |AUX_MARKERS|
    ensures r.Some? ==> i <= r.value < |AUX_MARKERS| && At(s, p, AUX_MARKERS[r.value])
                        && p + |AUX_MARKERS[r.value]| <= n && p + |AUX_MARKERS[r.value]| <= |s|
    ensures r.None? ==> forall k :: i <= k < |AUX_MARKERS| ==> !(At(s, p, AUX_MARKERS[k]) && p + |AUX_MARKERS[k]| <= n)
    decreases |AUX_MARKERS| - i
  {
    if i == |AUX_MARKERS| then None
    else if At(s, p, AUX_MARKERS[i]) && p + |AUX_MARKERS[i]| <= n then Some(i)
    else MarkerAt(s, p, n, i + 1)
  }

  /** Length of that marker, 0 if there is none. */
  function Fit(s: seq<Byte>, p: nat, n: nat): (len: nat)
    ensures len > 0 ==> p + len <= n && p + len <= |s| && len >= 12
  {
    Shapes();
    hide AUX_MARKERS, At;
    match MarkerAt(s, p, n, 0)
    case None => 0
    case Some(i) => |AUX_MARKERS[i]|
  }

  lemma FitIs(s: seq<Byte>, p: nat, n: nat, i: nat)
    requires i < |AUX_MARKERS| && At(s, p, AUX_MARKERS[i]) && p + |AUX_MARKERS[i]| <= n
    ensures Fit(s, p, n) == |AUX_MARKERS[i]| > 0
  {
    Shapes();
    hide AUX_MARKERS, At;
    MarkerUnique(s, p, i, MarkerAt(s, p, n, 0).value);
  }

  /** A marker that fits in n fits in every longer prefix and in no shorter than its end. */
  lemma FitMonotone(s: seq<Byte>, p: nat, n: nat, t: nat)
    requires n <= |s| && t <= |s|
    ensures Fit(s, p, n) > 0 && p + Fit(s, p, n) <= t ==> Fit(s, p, t) == Fit(s, p, n)
    ensures Fit(s, p, n) > 0 && p + Fit(s, p, n) > t ==> Fit(s, p, t) == 0
  {
    Shapes();
    hide AUX_MARKERS, At;
    if Fit(s, p, n) > 0 {
      var i := MarkerAt(s, p, n, 0).value;
      if p + |AUX_MARKERS[i]| <= t {
        FitIs(s, p, t, i);
      } else if MarkerAt(s, p, t, 0).Some? {
        MarkerUnique(s, p, i, MarkerAt(s, p, t, 0).value);
      }
    }
  }

  lemma FitOverlap(s: seq<Byte>, p: nat, q: nat, n: nat)
    requires Fit(s, p, n) > 0 && Fit(s, q, n) > 0 && p < q < p + Fit(s, p, n)
    ensures q == p + Fit(s, p, n) - 1
  {
    hide AUX_MARKERS, At;
    MarkerOverlap(s, p, q, MarkerAt(s, p, n, 0).value, MarkerAt(s, q, n, 0).value);
  }

  /** No marker within the first n bytes starts after lo and at or before hi. */
  ghost predicate NoFitAfter(s: seq<Byte>, n: nat, lo: int, hi: nat) {
    hide Fit;
    forall j: nat :: lo < j <= hi ==> Fit(s, j, n) == 0
  }

  ghost predicate IsLastFit(s: seq<Byte>, n: nat, i: nat, r: Option<nat>) {
    hide Fit;
    match r
    case None => NoFitAfter(s, n, -1, i)
    case Some(p) => p <= i && Fit(s, p, n) > 0 && NoFitAfter(s, n, p, i)
  }

  /** The last offset at or below i of a marker within the first n bytes. */
  function LastFit(s: seq<Byte>, n: nat, i: nat): (r: Option<nat>)
    ensures IsLastFit(s, n, i, r)
  {
    hide Fit, AUX_MARKERS;
    if Fit(s, i, n) > 0 then Some(i) else if i == 0 then None else LastFit(s, n, i - 1)
  }

  /** Length of what is left of the first n bytes when all tails are stripped. */
  function BaseLength(s: seq<Byte>, n: nat): (b: nat)
    ensures b <= n
    ensures forall j: nat :: Fit(s, j, b) == 0
  {
    hide Fit;
    match LastFit(s, n, n)
    case Some(p) => assert p < n by { FitEnds(s, p, n); } BaseLength(s, p)
    case None => NoneBeyond(s, n); n
  }

  lemma FitEnds(s: seq<Byte>, p: nat, n: nat)
    requires Fit(s, p, n) > 0
    ensures p < n
  {
  }

  lemma NoneBeyond(s: seq<Byte>, n: nat)
    ensures forall j: nat :: j > n ==> Fit(s, j, n) == 0
  {
  }

  // ---- Which markers get cut ----

  /** Stripping the first n bytes passes through length p. */
  predicate Visits(s: seq<Byte>, n: nat, p: nat)
    decreases n
  {
    hide Fit;
    match LastFit(s, n, n)
    case None => false
    case Some(t) => FitEnds(s, t, n); t == p || Visits(s, t, p)
  }

  /** Number of markers that follow p, each starting on the last underscore of the one
      before it. */
  function Chain(s: seq<Byte>, p: nat, n: nat): nat
    decreases n - p
  {
    hide Fit;
    var len := Fit(s, p, n);
    if len == 0 || Fit(s, p + len - 1, n) == 0 then 0 else 1 + Chain(s, p + len - 1, n)
  }

  /** The last marker has no successor. */
  lemma LastHasNoChain(s: seq<Byte>, n: nat, t: nat)
    requires LastFit(s, n, n) == Some(t)
    ensures Chain(s, t, n) == 0
  {
    hide Fit;
    NoneBeyond(s, n);
  }

  /** Cutting at the last marker keeps the parity of every chain that is left whole. */
  lemma {:induction false} ChainCut(s: seq<Byte>, p: nat, n: nat, t: nat)
    requires n <= |s| && LastFit(s, n, n) == Some(t) && Fit(s, p, n) > 0 && p + Fit(s, p, n) <= t
    ensures Fit(s, p, t) == Fit(s, p, n) && Chain(s, p, t) % 2 == Chain(s, p, n) % 2
    decreases n - p
  {
    hide Fit;
    FitMonotone(s, p, n, t);
    var q := p + Fit(s, p, n) - 1;
    FitMonotone(s, q, n, t);
    if Fit(s, q, n) > 0 {
      if q + Fit(s, q, n) <= t {
        ChainCut(s, q, n, t);
      } else {
        FitOverlap(s, q, t, n);
        LastHasNoChain(s, n, t);
        assert Chain(s, q, n) == 1 + Chain(s, t, n);
      }
    } else {
      FitMonotone(s, q, t, n);
    }
  }

  /** Every length passed through is a marker. */
  lemma {:induction false} VisitedFits(s: seq<Byte>, n: nat, p: nat)
    requires n <= |s| && Visits(s, n, p)
    ensures Fit(s, p, n) > 0 && BaseLength(s, n) == BaseLength(s, p)
    decreases n
  {
    hide Fit;
    var t := LastFit(s, n, n).value;
    FitEnds(s, t, n);
    if t != p {
      VisitedFits(s, t, p);
      FitMonotone(s, p, t, n);
    }
  }

  lemma {:induction false} BaseIsVisited(s: seq<Byte>, n: nat)
    requires n <= |s| && BaseLength(s, n) < n
    ensures Visits(s, n, BaseLength(s, n))
    decreases n
  {
    hide Fit;
    var t := LastFit(s, n, n).value;
    FitEnds(s, t, n);
    if BaseLength(s, t) < t {
      BaseIsVisited(s, t);
    }
  }

  /** A marker is cut exactly when an even number of markers is chained behind it. */
  lemma {:induction false} CutIffEvenChain(s: seq<Byte>, n: nat, p: nat)
    requires n <= |s| && Fit(s, p, n) > 0
    ensures Visits(s, n, p) <==> Chain(s, p, n) % 2 == 0
    decreases n
  {
    hide Fit;
    NoneBeyond(s, n);
    FitEnds(s, p, n);
    var t := LastFit(s, n, n).value;
    FitEnds(s, t, n);
    if t == p {
      LastHasNoChain(s, n, t);
    } else if p + Fit(s, p, n) <= t {
      ChainCut(s, p, n, t);
      CutIffEvenChain(s, t, p);
    } else {
      FitOverlap(s, p, t, n);
      LastHasNoChain(s, n, t);
      assert Chain(s, p, n) == 1 + Chain(s, t, n);
      FitMonotone(s, p, n, t);
      if Visits(s, t, p) {
        VisitedFits(s, t, p);
      }
    }
  }

  // ---- Recovering the base ----

  predicate MarkerFree(s: seq<Byte>) {
    forall i :: 0 <= i < |AUX_MARKERS| ==> !Occurs(s, AUX_MARKERS[i])
  }

  /** The body with all tails removed. */
  function Base(s: seq<Byte>): seq<Byte> { s[..BaseLength(s, |s|)] }

  /** The marker that would start on the underscore before rest. */
  function NextTail(rest: seq<Byte>, i: nat): (r: Option<nat>)
    requires i <= |AUX_MARKERS|
    ensures r.Some? ==> i <= r.value < |AUX_MARKERS| && |AUX_MARKERS[r.value]| > 1 && At(rest, 0, AUX_MARKERS[r.value][1..])
    ensures r.None? ==> forall k :: i <= k < |AUX_MARKERS| ==> |AUX_MARKERS[k]| > 1 && !At(rest, 0, AUX_MARKERS[k][1..])
    decreases |AUX_MARKERS| - i
  {
    Shapes();
    hide AUX_MARKERS;
    if i == |AUX_MARKERS| then None
    else if At(rest, 0, AUX_MARKERS[i][1..]) then Some(i)
    else NextTail(rest, i + 1)
  }

  /** Number of markers chained behind an underscore by the bytes that follow it. */
  function ChainLen(rest: seq<Byte>): nat
    decreases |rest|
  {
    hide AUX_MARKERS;
    match NextTail(rest, 0)
    case None => 0
    case Some(i) => 1 + ChainLen(rest[|AUX_MARKERS[i]| - 1..])
  }

  /** A marker at q whose first underscore is the last byte of the one before it. */
  lemma ChainedAt(s: seq<Byte>, q: nat, i: nat)
    requires q < |s| && s[q] == 95 && i < |AUX_MARKERS|
    ensures |AUX_MARKERS[i]| > 1
    ensures At(s, q, AUX_MARKERS[i]) <==> At(s[q + 1..], 0, AUX_MARKERS[i][1..])
  {
    Shapes();
    hide AUX_MARKERS;
    var m := AUX_MARKERS[i];
    assert m == [95] + m[1..];
    AtConcat(s, q, [95], m[1..]);
    assert s[q..q + 1] == [95];
    if q + |m| <= |s| {
      assert s[q + 1..][..|m| - 1] == s[q + 1..q + |m|];
    }
  }

  /** The chain behind a marker is determined by the bytes behind it. */
  lemma {:induction false} ChainIsChainLen(s: seq<Byte>, p: nat)
    requires Fit(s, p, |s|) > 0
    ensures p + Fit(s, p, |s|) <= |s|
    ensures Chain(s, p, |s|) == ChainLen(s[p + Fit(s, p, |s|)..])
    decreases |s| - p
  {
    hide AUX_MARKERS, Fit, NextTail, Chain, ChainLen;
    var n := |s|;
    var len := Fit(s, p, n);
    var q := p + len - 1;
    var rest := s[p + len..];
    ChainStep(s, p, n);
    ChainLenStep(rest);
    Successor(s, p, q, rest);
    if Fit(s, q, n) > 0 {
      ChainIsChainLen(s, q);
      assert rest[Fit(s, q, n) - 1..] == s[q + Fit(s, q, n)..];
    }
  }

  lemma ChainStep(s: seq<Byte>, p: nat, n: nat)
    requires Fit(s, p, n) > 0
    ensures var q := p + Fit(s, p, n) - 1; Chain(s, p, n) == if Fit(s, q, n) == 0 then 0 else 1 + Chain(s, q, n)
  {
    hide Fit;
  }

  lemma ChainLenStep(rest: seq<Byte>)
    ensures NextTail(rest, 0).None? ==> ChainLen(rest) == 0
    ensures NextTail(rest, 0).Some? ==>
      var len := |AUX_MARKERS[NextTail(rest, 0).value]| - 1;
      len <= |rest| && ChainLen(rest) == 1 + ChainLen(rest[len..])
  {
    hide AUX_MARKERS, NextTail;
  }

  /** The marker on the last underscore, read from the bytes behind it. */
  lemma Successor(s: seq<Byte>, p: nat, q: nat, rest: seq<Byte>)
    requires Fit(s, p, |s|) > 0 && q == p + Fit(s, p, |s|) - 1 && rest == s[q + 1..]
    ensures NextTail(rest, 0).None? ==> Fit(s, q, |s|) == 0
    ensures NextTail(rest, 0).Some? ==> Fit(s, q, |s|) == |AUX_MARKERS[NextTail(rest, 0).value]| > 0
  {
    Shapes();
    hide AUX_MARKERS, At, NextTail;
    var k := MarkerAt(s, p, |s|, 0).value;
    AtByte(s, p, AUX_MARKERS[k], |AUX_MARKERS[k]| - 1);
    if NextTail(rest, 0).Some? {
      var i := NextTail(rest, 0).value;
      ChainedAt(s, q, i);
      AtEnds(s, q, AUX_MARKERS[i]);
      FitIs(s, q, |s|, i);
    } else if MarkerAt(s, q, |s|, 0).Some? {
      ChainedAt(s, q, MarkerAt(s, q, |s|, 0).value);
    }
  }

  lemma AtEnds(s: seq<Byte>, p: nat, m: seq<Byte>)
    requires At(s, p, m)
    ensures p + |m| <= |s|
  {
  }

  /** Fit depends on the prefix only. */
  lemma FitOfPrefix(s: seq<Byte>, r: seq<Byte>, p: nat, n: nat)
    requires n <= |s| && n <= |r| && s[..n] == r[..n]
    ensures Fit(s, p, n) == Fit(r, p, n)
  {
    Shapes();
    hide AUX_MARKERS, At;
    if MarkerAt(s, p, n, 0).Some? {
      AtOfPrefix(s, r, p, n, MarkerAt(s, p, n, 0).value);
      FitIs(r, p, n, MarkerAt(s, p, n, 0).value);
    }
    if MarkerAt(r, p, n, 0).Some? {
      AtOfPrefix(r, s, p, n, MarkerAt(r, p, n, 0).value);
    }
  }

  lemma AtOfPrefix(s: seq<Byte>, r: seq<Byte>, p: nat, n: nat, i: nat)
    requires n <= |s| && n <= |r| && s[..n] == r[..n] && i < |AUX_MARKERS|
    requires At(s, p, AUX_MARKERS[i]) && p + |AUX_MARKERS[i]| <= n
    ensures At(r, p, AUX_MARKERS[i])
  {
    hide AUX_MARKERS;
    var e := p + |AUX_MARKERS[i]|;
    assert s[p..e] == s[..n][p..e] == r[..n][p..e] == r[p..e];
  }

  lemma {:induction false} BaseOfPrefix(s: seq<Byte>, r: seq<Byte>, n: nat)
    requires n <= |s| && n <= |r| && s[..n] == r[..n]
    ensures BaseLength(s, n) == BaseLength(r, n)
    decreases n
  {
    hide Fit;
    forall j: nat
      ensures Fit(s, j, n) == Fit(r, j, n)
    {
      FitOfPrefix(s, r, j, n);
    }
    var p, p' := LastFit(s, n, n), LastFit(r, n, n);
    assert p == p';
    if p.Some? {
      FitEnds(s, p.value, n);
      assert s[..p.value] == s[..n][..p.value] && r[..p.value] == r[..n][..p.value];
      BaseOfPrefix(s, r, p.value);
    }
  }

  lemma MarkerFreeMeansNoFit(s: seq<Byte>)
    ensures MarkerFree(s) <==> forall j: nat :: Fit(s, j, |s|) == 0
  {
    Shapes();
    hide AUX_MARKERS, At, FindFrom;
    if MarkerFree(s) {
      forall j: nat
        ensures Fit(s, j, |s|) == 0
      {
        if MarkerAt(s, j, |s|, 0).Some? {
          OccursAt(s, AUX_MARKERS[MarkerAt(s, j, |s|, 0).value], j);
        }
      }
    }
    forall i | 0 <= i < |AUX_MARKERS| && Occurs(s, AUX_MARKERS[i])
      ensures exists j: nat :: Fit(s, j, |s|) > 0
    {
      var j := Position(s, AUX_MARKERS[i]).value;
      AtEnds(s, j, AUX_MARKERS[i]);
      FitIs(s, j, |s|, i);
    }
  }

  lemma NothingToStrip(s: seq<Byte>)
    requires MarkerFree(s)
    ensures BaseLength(s, |s|) == |s|
  {
    hide Fit, MarkerFree;
    MarkerFreeMeansNoFit(s);
  }

  /** Stripping ends in a marker-free prefix, and stripping that changes nothing. */
  lemma BaseIsMarkerFree(s: seq<Byte>)
    ensures Base(s) == s[..|Base(s)|] && MarkerFree(Base(s)) && Base(Base(s)) == Base(s)
  {
    hide Fit, MarkerFree;
    var b := BaseLength(s, |s|);
    var base := s[..b];
    forall j: nat
      ensures Fit(base, j, b) == 0
    {
      FitOfPrefix(s, base, j, b);
    }
    MarkerFreeMeansNoFit(base);
    NothingToStrip(base);
  }

  /** A marker-free base followed by a tail marker and any bytes at all, further tails and
      markers inside payloads included, is recovered exactly when the bytes behind the
      marker chain an even number of markers onto its last underscore. */
  lemma StripRecoversBase(base: seq<Byte>, i: nat, rest: seq<Byte>)
    requires MarkerFree(base) && i < |AUX_MARKERS|
    ensures Base(base + AUX_MARKERS[i] + rest) == base <==> ChainLen(rest) % 2 == 0
  {
    hide Fit, MarkerFree, AUX_MARKERS, At, Chain, ChainLen, Visits;
    var m := AUX_MARKERS[i];
    var s, b := base + m + rest, |base|;
    AtHere(base, m, rest);
    FitIs(s, b, |s|, i);
    assert s[b + |m|..] == rest;
    ChainIsChainLen(s, b);
    CutIffEvenChain(s, |s|, b);
    assert s[..b] == base == base[..b];
    BaseOfPrefix(s, base, b);
    NothingToStrip(base);
    if Visits(s, |s|, b) {
      VisitedFits(s, |s|, b);
    } else if BaseLength(s, |s|) == b {
      BaseIsVisited(s, |s|);
    }
  }

  /** No chain starts unless the bytes behind the marker, its length field, spell M31_. */
  lemma NoChain(rest: seq<Byte>)
    requires !At(rest, 0, Ascii("M31_"))
    ensures ChainLen(rest) == 0
  {
    hide AUX_MARKERS, At, NextTail;
    if NextTail(rest, 0).Some? {
      SuffixStarts(rest, NextTail(rest, 0).value);
    }
  }

  lemma SuffixStarts(rest: seq<Byte>, i: nat)
    requires i < |AUX_MARKERS| && |AUX_MARKERS[i]| > 1 && At(rest, 0, AUX_MARKERS[i][1..])
    ensures At(rest, 0, Ascii("M31_"))
  {
    SecondToFifth();
    hide AUX_MARKERS, At;
    var m := AUX_MARKERS[i][1..];
    AtConcat(rest, 0, Ascii("M31_"), m[4..]);
    assert m == Ascii("M31_") + m[4..];
  }

  lemma SecondToFifth()
    ensures forall i :: 0 <= i < |AUX_MARKERS| ==> |AUX_MARKERS[i]| > 5 && AUX_MARKERS[i][1..][..4] == Ascii("M31_")
  {
    Shapes();
    forall i | 0 <= i < |AUX_MARKERS|
      ensures AUX_MARKERS[i][1..][..4] == Ascii("M31_")
    {
      assert AUX_MARKERS[i][1] == 77 && AUX_MARKERS[i][2] == 51 && AUX_MARKERS[i][3] == 49 && AUX_MARKERS[i][4] == 95;
    }
  }

  /** One chained marker is enough to lose the base: the length field spells M31_ and the
      payload goes on with TRAJ_V1_. */
  lemma ChainedTailIsNotStripped(base: seq<Byte>)
    requires MarkerFree(base)
    ensures Base(base + TRAJ_V1_MARKER + TRAJ_V1_MARKER[1..]) != base
  {
    assert AUX_MARKERS[1] == TRAJ_V1_MARKER;
    hide AUX_MARKERS, ChainLen, MarkerFree, Base, Ascii;
    OneChain(1);
    StripRecoversBase(base, 1, AUX_MARKERS[1][1..]);
  }

  lemma OneChain(i: nat)
    requires i < |AUX_MARKERS|
    ensures |AUX_MARKERS[i]| > 1 && ChainLen(AUX_MARKERS[i][1..]) == 1
  {
    Shapes();
    hide AUX_MARKERS, ChainLen, At, NextTail;
    var rest := AUX_MARKERS[i][1..];
    AtSelf(rest);
    ChainLenStep(rest);
    if NextTail(rest, 0).Some? {
      SuffixUnique(rest, NextTail(rest, 0).value, i);
    }
    assert rest[|rest|..] == [];
    EmptyChain();
  }

  lemma AtSelf(s: seq<Byte>)
    ensures At(s, 0, s)
  {
  }

  lemma SuffixUnique(rest: seq<Byte>, i: nat, j: nat)
    requires i < |AUX_MARKERS| && j < |AUX_MARKERS| && |AUX_MARKERS[i]| > 1 && |AUX_MARKERS[j]| > 1
    requires At(rest, 0, AUX_MARKERS[i][1..]) && At(rest, 0, AUX_MARKERS[j][1..])
    ensures i == j
  {
    Shapes();
    hide AUX_MARKERS, At;
    var s := [95] + rest;
    assert s[1..] == rest;
    ChainedAt(s, 0, i);
    ChainedAt(s, 0, j);
    MarkerUnique(s, 0, i, j);
  }

  lemma EmptyChain()
    ensures ChainLen([]) == 0
  {
    Shapes();
    hide AUX_MARKERS;
  }

  // ---- The loops ----

  function Later(a: Option<nat>, b: Option<nat>): Option<nat> {
    match (a, b)
    case (Some(p), Some(q)) => Some(if p >= q then p else q)
    case (Some(p), None) => a
    case (None, _) => b
  }

  /** Strips at the rightmost marker. */
  method StripOneAuxTail(proof: seq<Byte>) returns (r: seq<Byte>)
    ensures r == match LastFit(proof, |proof|, |proof|) { case Some(p) => proof[..p] case None => proof }
  {
    hide AUX_MARKERS, Fit, At, FindDown;
    var best: Option<nat> := None;
    for i := 0 to |AUX_MARKERS|
      invariant best.Some? ==> exists k :: 0 <= k < i && At(proof, best.value, AUX_MARKERS[k])
      invariant forall k, p: nat :: 0 <= k < i && At(proof, p, AUX_MARKERS[k]) ==> best.Some? && p <= best.value
    {
      best := Later(best, RPosition(proof, AUX_MARKERS[i]));
    }
    LastIsBest(proof, best);
    match best {
      case Some(p) =>
        AtStarts(proof, p);
        return proof[..p];
      case None => return proof;
    }
  }

  lemma AtStarts(s: seq<Byte>, p: nat)
    requires exists k :: 0 <= k < |AUX_MARKERS| && At(s, p, AUX_MARKERS[k])
    ensures p <= |s|
  {
    hide AUX_MARKERS;
  }

  lemma FitMarker(s: seq<Byte>, p: nat) returns (i: nat)
    requires Fit(s, p, |s|) > 0
    ensures i < |AUX_MARKERS| && At(s, p, AUX_MARKERS[i])
  {
    hide AUX_MARKERS, At;
    i := MarkerAt(s, p, |s|, 0).value;
  }

  lemma LastIsBest(s: seq<Byte>, best: Option<nat>)
    requires best.Some? ==> exists k :: 0 <= k < |AUX_MARKERS| && At(s, best.value, AUX_MARKERS[k])
    requires forall k, p: nat :: 0 <= k < |AUX_MARKERS| && At(s, p, AUX_MARKERS[k]) ==> best.Some? && p <= best.value
    ensures LastFit(s, |s|, |s|) == best
  {
    hide AUX_MARKERS, At, Fit;
    var last := LastFit(s, |s|, |s|);
    if last.Some? {
      var i := FitMarker(s, last.value);
    }
    if best.Some? {
      var k :| 0 <= k < |AUX_MARKERS| && At(s, best.value, AUX_MARKERS[k]);
      AtEnds(s, best.value, AUX_MARKERS[k]);
      FitIs(s, best.value, |s|, k);
    }
  }

  /** Strips until nothing changes. */
  method BaseProofWithoutAuxTails(proof: seq<Byte>) returns (base: seq<Byte>)
    ensures base == Base(proof)
  {
    hide Fit;
    base := proof;
    while true
      invariant |base| <= |proof| && base == proof[..|base|] && BaseLength(proof, |base|) == BaseLength(proof, |proof|)
      decreases |base|
    {
      var stripped := StripOneAuxTail(base);
      LastOfPrefix(proof, base);
      if |stripped| == |base| {
        return;
      }
      base := stripped;
    }
  }

  lemma LastOfPrefix(s: seq<Byte>, base: seq<Byte>)
    requires |base| <= |s| && base == s[..|base|]
    ensures LastFit(base, |base|, |base|) == LastFit(s, |base|, |base|)
  {
    hide Fit;
    forall j: nat
      ensures Fit(s, j, |base|) == Fit(base, j, |base|)
    {
      FitOfPrefix(s, base, j, |base|);
    }
  }
}
