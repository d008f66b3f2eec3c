/** The flat layout of the public values, and the builder that pushes it. */
module DeepLeafLayout {

  import opened Options
  import opened M31
  import opened Ef3
  import opened EfLimbs
  import opened DeepNative
  import opened DeepLeafAir

  const OFF_WIDTH: nat := 17
  const OFF_ACTIVE: nat := 18
  const OFF_PX: nat := OFF_ACTIVE + MAX_W
  const OFF_PZ_LOCAL: nat := OFF_PX + MAX_W
  const OFF_PZ_NEXT: nat := OFF_PZ_LOCAL + MAX_W * 3
  const OFF_APOW: nat := OFF_PZ_NEXT + MAX_W * 3
  const OFF_AW2: nat := OFF_APOW + (MAX_W + 1) * 3
  const OFF_D0: nat := OFF_AW2 + 3
  const OFF_POW0: nat := OFF_D0 + 18
  const OFF_ACC0: nat := OFF_POW0 + MAX_W * 3
  const OFF_D1: nat := OFF_ACC0 + MAX_W * 3
  const OFF_POW1: nat := OFF_D1 + 18
  const OFF_ACC1: nat := OFF_POW1 + MAX_W * 3
  const OFF_COMBINED: nat := OFF_ACC1 + MAX_W * 3
  const DEEP_RO_LEAF_NUM_PUBLIC: nat := OFF_COMBINED + 10

  /** The length the source states. */
  lemma LayoutLength()
    ensures DEEP_RO_LEAF_NUM_PUBLIC == 1634
  {
  }

  // ---- Reading the layout ----

  function EfsAt(pv: seq<Fp>, off: nat, n: nat): (r: seq<Ef>)
    requires off + 3 * n <= |pv|
    ensures |r| == n
  { seq(n, i requires 0 <= i < n => EfAt(pv, off + 3 * i)) }

  function PointAt(pv: seq<Fp>, off: nat): EfPoint
    requires off + 6 <= |pv|
  { EfPoint(EfAt(pv, off), EfAt(pv, off + 3)) }

  function PartialAt(pv: seq<Fp>, off: nat): DeepPartialWitness
    requires off + 18 <= |pv|
  {
    DeepPartialWitness(EfAt(pv, off), EfAt(pv, off + 3), EfAt(pv, off + 6), EfAt(pv, off + 9), EfAt(pv, off + 12), EfAt(pv, off + 15))
  }

  /** The public values as the constraints read them. */
  function View(pv: seq<Fp>): (l: Leaf)
    requires |pv| == DEEP_RO_LEAF_NUM_PUBLIC
    ensures l.Shaped()
  {
    Leaf(pv[0], pv[1], PointAt(pv, 2), PointAt(pv, 8), EfAt(pv, 14), pv[OFF_WIDTH],
         pv[OFF_ACTIVE..OFF_PX], pv[OFF_PX..OFF_PZ_LOCAL], EfsAt(pv, OFF_PZ_LOCAL, MAX_W), EfsAt(pv, OFF_PZ_NEXT, MAX_W),
         EfsAt(pv, OFF_APOW, MAX_W + 1), EfAt(pv, OFF_AW2),
         PartialAt(pv, OFF_D0), EfsAt(pv, OFF_POW0, MAX_W), EfsAt(pv, OFF_ACC0, MAX_W),
         PartialAt(pv, OFF_D1), EfsAt(pv, OFF_POW1, MAX_W), EfsAt(pv, OFF_ACC1, MAX_W),
         EfAt(pv, OFF_COMBINED), EfAt(pv, OFF_COMBINED + 3), pv[OFF_COMBINED + 6], EfAt(pv, OFF_COMBINED + 7))
  }

  // ---- Writing it ----

  function EfsFlat(es: seq<Ef>): (r: seq<Fp>)
    ensures |r| == 3 * |es|
  {
    if es == [] then [] else EfsFlat(es[..|es| - 1]) + Limbs(es[|es| - 1])
  }

  function PartialFlat(d: DeepPartialWitness): (r: seq<Fp>)
    ensures |r| == 18
  {
    Limbs(d.re) + Limbs(d.im) + Limbs(d.numer) + Limbs(d.denom) + Limbs(d.linear) + Limbs(d.outPre)
  }

  /** The blocks of the layout in order. */
  function Blocks(l: Leaf): (bs: seq<seq<Fp>>)
    ensures |bs| == 21
  {
    [[l.sx, l.sy], Limbs(l.at.x) + Limbs(l.at.y), Limbs(l.atn.x) + Limbs(l.atn.y), Limbs(l.alpha), [l.width],
     l.active, l.px, EfsFlat(l.pzLocal), EfsFlat(l.pzNext), EfsFlat(l.apow), Limbs(l.alphaW2),
     PartialFlat(l.deep0), EfsFlat(l.pow0), EfsFlat(l.acc0), PartialFlat(l.deep1), EfsFlat(l.pow1), EfsFlat(l.acc1),
     Limbs(l.combined), Limbs(l.lambda), [l.vN], Limbs(l.out)]
  }

  function Joined(bs: seq<seq<Fp>>): seq<Fp> {
    if bs == [] then [] else Joined(bs[..|bs| - 1]) + bs[|bs| - 1]
  }

  function Flat(l: Leaf): seq<Fp> { Joined(Blocks(l)) }

  /** Where block k starts. */
  function Start(bs: seq<seq<Fp>>, k: nat): nat
    requires k <= |bs|
  { |Joined(bs[..k])| }

  lemma StartStep(bs: seq<seq<Fp>>, k: nat)
    requires k < |bs|
    ensures Joined(bs[..k + 1]) == Joined(bs[..k]) + bs[k] && Start(bs, k + 1) == Start(bs, k) + |bs[k]|
  {
    assert bs[..k + 1][..k] == bs[..k];
  }

  lemma {:induction false} BlockStands(bs: seq<seq<Fp>>, k: nat, n: nat)
    requires k < n <= |bs|
    ensures Start(bs, k) + |bs[k]| <= |Joined(bs[..n])|
    ensures Joined(bs[..n])[Start(bs, k)..Start(bs, k) + |bs[k]|] == bs[k]
  {
    StartStep(bs, n - 1);
    if k < n - 1 {
      BlockStands(bs, k, n - 1);
      var shorter, longer := Joined(bs[..n - 1]), Joined(bs[..n]);
      var i, j := Start(bs, k), Start(bs, k) + |bs[k]|;
      assert longer[i..j] == shorter[i..j];
    }
  }

  lemma {:induction false} EfsRead(pv: seq<Fp>, off: nat, es: seq<Ef>)
    requires off + 3 * |es| <= |pv| && pv[off..off + 3 * |es|] == EfsFlat(es)
    ensures EfsAt(pv, off, |es|) == es
  {
    if es != [] {
      var n := |es| - 1;
      var init := es[..n];
      assert pv[off..off + 3 * n] == EfsFlat(es)[..3 * n] == EfsFlat(init);
      EfsRead(pv, off, init);
      LimbsRead(pv, off + 3 * n, es[n]) by {
        assert pv[off + 3 * n..off + 3 * n + 3] == EfsFlat(es)[3 * n..] == Limbs(es[n]);
      }
      forall i | 0 <= i < |es|
        ensures EfsAt(pv, off, |es|)[i] == es[i]
      {
        if i < n {
          assert EfsAt(pv, off, n)[i] == init[i];
        }
      }
    }
  }

  lemma LimbsRead(pv: seq<Fp>, off: nat, a: Ef)
    requires off + 3 <= |pv| && pv[off..off + 3] == Limbs(a)
    ensures EfAt(pv, off) == a
  {
    var window := pv[off..off + 3];
    assert window[0] == pv[off] && window[1] == pv[off + 1] && window[2] == pv[off + 2];
  }

  lemma SubSlice(pv: seq<Fp>, off: nat, n: nat, i: nat, j: nat)
    requires i <= j <= n && off + n <= |pv|
    ensures pv[off..off + n][i..j] == pv[off + i..off + j]
  {
    var a, b := pv[off..off + n][i..j], pv[off + i..off + j];
    forall k | 0 <= k < j - i
      ensures a[k] == b[k]
    {
    }
  }

  lemma PartialRead(pv: seq<Fp>, off: nat, d: DeepPartialWitness)
    requires off + 18 <= |pv| && pv[off..off + 18] == PartialFlat(d)
    ensures PartialAt(pv, off) == d
  {
    var window := pv[off..off + 18];
    assert window[..3] == Limbs(d.re) && window[3..6] == Limbs(d.im) && window[6..9] == Limbs(d.numer);
    assert window[9..12] == Limbs(d.denom) && window[12..15] == Limbs(d.linear) && window[15..] == Limbs(d.outPre);
    SubSlice(pv, off, 18, 0, 3); SubSlice(pv, off, 18, 3, 6); SubSlice(pv, off, 18, 6, 9);
    SubSlice(pv, off, 18, 9, 12); SubSlice(pv, off, 18, 12, 15); SubSlice(pv, off, 18, 15, 18);
    LimbsRead(pv, off, d.re); LimbsRead(pv, off + 3, d.im); LimbsRead(pv, off + 6, d.numer);
    LimbsRead(pv, off + 9, d.denom); LimbsRead(pv, off + 12, d.linear); LimbsRead(pv, off + 15, d.outPre);
  }

  lemma PointRead(pv: seq<Fp>, off: nat, p: EfPoint)
    requires off + 6 <= |pv| && pv[off..off + 6] == Limbs(p.x) + Limbs(p.y)
    ensures PointAt(pv, off) == p
  {
    var window := pv[off..off + 6];
    assert window[..3] == Limbs(p.x) && window[3..] == Limbs(p.y);
    assert pv[off..off + 3] == window[..3] && pv[off + 3..off + 6] == window[3..];
    LimbsRead(pv, off, p.x); LimbsRead(pv, off + 3, p.y);
  }

  /** The lengths of the blocks, in order. */
  ghost predicate BlockLengths(bs: seq<seq<Fp>>) {
    && |bs| == 21 && |bs[0]| == 2 && |bs[1]| == |bs[2]| == 6 && |bs[3]| == 3 && |bs[4]| == 1 && |bs[5]| == |bs[6]| == 68
    && |bs[7]| == |bs[8]| == 204 && |bs[9]| == 207 && |bs[10]| == 3
    && |bs[11]| == 18 && |bs[12]| == |bs[13]| == 204 && |bs[14]| == 18 && |bs[15]| == |bs[16]| == 204
    && |bs[17]| == |bs[18]| == 3 && |bs[19]| == 1 && |bs[20]| == 3
  }

  lemma Starts(bs: seq<seq<Fp>>)
    requires BlockLengths(bs)
    ensures Start(bs, 0) == 0 && Start(bs, 1) == 2 && Start(bs, 2) == 8 && Start(bs, 3) == 14 && Start(bs, 4) == OFF_WIDTH
    ensures Start(bs, 5) == OFF_ACTIVE && Start(bs, 6) == OFF_PX && Start(bs, 7) == OFF_PZ_LOCAL && Start(bs, 8) == OFF_PZ_NEXT
    ensures Start(bs, 9) == OFF_APOW && Start(bs, 10) == OFF_AW2 && Start(bs, 11) == OFF_D0 && Start(bs, 12) == OFF_POW0
    ensures Start(bs, 13) == OFF_ACC0 && Start(bs, 14) == OFF_D1 && Start(bs, 15) == OFF_POW1 && Start(bs, 16) == OFF_ACC1
    ensures Start(bs, 17) == OFF_COMBINED && Start(bs, 18) == OFF_COMBINED + 3 && Start(bs, 19) == OFF_COMBINED + 6
    ensures Start(bs, 20) == OFF_COMBINED + 7 && Start(bs, 21) == DEEP_RO_LEAF_NUM_PUBLIC
  {
    NoBlocks(bs);
    hide Start, Joined;
    StartStep(bs, 0); StartStep(bs, 1); StartStep(bs, 2); StartStep(bs, 3); StartStep(bs, 4); StartStep(bs, 5); StartStep(bs, 6);
    StartStep(bs, 7); StartStep(bs, 8); StartStep(bs, 9); StartStep(bs, 10); StartStep(bs, 11); StartStep(bs, 12); StartStep(bs, 13);
    StartStep(bs, 14); StartStep(bs, 15); StartStep(bs, 16); StartStep(bs, 17); StartStep(bs, 18); StartStep(bs, 19); StartStep(bs, 20);
  }

  lemma NoBlocks(bs: seq<seq<Fp>>)
    ensures Start(bs, 0) == 0 && Joined(bs[..0]) == []
  {
  }

  lemma Whole(bs: seq<seq<Fp>>, k: nat)
    requires k < |bs|
    ensures Start(bs, k) + |bs[k]| <= |Joined(bs)| && Joined(bs)[Start(bs, k)..Start(bs, k) + |bs[k]|] == bs[k]
    ensures |Joined(bs)| == Start(bs, |bs|)
  {
    assert bs[..|bs|] == bs;
    BlockStands(bs, k, |bs|);
  }

  /** Reading what was written gives every field back: no two blocks of the layout
      overlap, and the constraints read each at its own offset. */
  lemma ViewFlat(l: Leaf)
    requires l.Shaped()
    ensures |Flat(l)| == DEEP_RO_LEAF_NUM_PUBLIC && View(Flat(l)) == l
  {
    hide EfsAt, EfAt, Joined, PartialAt, PointAt, Blocks, HeadBlocks, ListBlocks, TailBlocks, BlockLengths;
    var bs := Blocks(l);
    BlocksAre(l);
    HeadRead(l, bs, Joined(bs));
    ListsRead(l, bs, Joined(bs));
    TailRead(l, bs, Joined(bs));
  }

  ghost predicate HeadBlocks(l: Leaf, bs: seq<seq<Fp>>) {
    hide Limbs;
    && |bs| == 21 && bs[0] == [l.sx, l.sy] && bs[1] == Limbs(l.at.x) + Limbs(l.at.y) && bs[2] == Limbs(l.atn.x) + Limbs(l.atn.y)
    && bs[3] == Limbs(l.alpha) && bs[4] == [l.width] && bs[5] == l.active && bs[6] == l.px
  }

  ghost predicate ListBlocks(l: Leaf, bs: seq<seq<Fp>>) {
    hide EfsFlat;
    && |bs| == 21 && bs[7] == EfsFlat(l.pzLocal) && bs[8] == EfsFlat(l.pzNext) && bs[9] == EfsFlat(l.apow)
    && bs[12] == EfsFlat(l.pow0) && bs[13] == EfsFlat(l.acc0) && bs[15] == EfsFlat(l.pow1) && bs[16] == EfsFlat(l.acc1)
  }

  ghost predicate TailBlocks(l: Leaf, bs: seq<seq<Fp>>) {
    hide Limbs, PartialFlat;
    && |bs| == 21 && bs[10] == Limbs(l.alphaW2) && bs[11] == PartialFlat(l.deep0) && bs[14] == PartialFlat(l.deep1)
    && bs[17] == Limbs(l.combined) && bs[18] == Limbs(l.lambda) && bs[19] == [l.vN] && bs[20] == Limbs(l.out)
  }

  lemma BlocksAre(l: Leaf)
    requires l.Shaped()
    ensures BlockLengths(Blocks(l)) && HeadBlocks(l, Blocks(l)) && ListBlocks(l, Blocks(l)) && TailBlocks(l, Blocks(l))
  {
    hide Limbs, PartialFlat, EfsFlat;
  }

  lemma HeadRead(l: Leaf, bs: seq<seq<Fp>>, pv: seq<Fp>)
    requires l.Shaped() && BlockLengths(bs) && HeadBlocks(l, bs) && pv == Joined(bs)
    ensures |pv| == DEEP_RO_LEAF_NUM_PUBLIC
    ensures pv[0] == l.sx && pv[1] == l.sy && PointAt(pv, 2) == l.at && PointAt(pv, 8) == l.atn && EfAt(pv, 14) == l.alpha
    ensures pv[OFF_WIDTH] == l.width && pv[OFF_ACTIVE..OFF_PX] == l.active && pv[OFF_PX..OFF_PZ_LOCAL] == l.px
  {
    hide EfAt, EfsFlat, Joined, Start, PartialFlat, PointAt, Limbs;
    Starts(bs);
    Whole(bs, 0); Whole(bs, 1); Whole(bs, 2); Whole(bs, 3); Whole(bs, 4); Whole(bs, 5); Whole(bs, 6);
    PointRead(pv, 2, l.at);
    PointRead(pv, 8, l.atn);
    LimbsRead(pv, 14, l.alpha);
    assert pv[0..2][0] == l.sx && pv[0..2][1] == l.sy && pv[17..18][0] == l.width;
  }

  lemma TailRead(l: Leaf, bs: seq<seq<Fp>>, pv: seq<Fp>)
    requires l.Shaped() && BlockLengths(bs) && TailBlocks(l, bs) && pv == Joined(bs)
    ensures |pv| == DEEP_RO_LEAF_NUM_PUBLIC
    ensures EfAt(pv, OFF_AW2) == l.alphaW2 && PartialAt(pv, OFF_D0) == l.deep0 && PartialAt(pv, OFF_D1) == l.deep1
    ensures EfAt(pv, OFF_COMBINED) == l.combined && EfAt(pv, OFF_COMBINED + 3) == l.lambda
    ensures pv[OFF_COMBINED + 6] == l.vN && EfAt(pv, OFF_COMBINED + 7) == l.out
  {
    hide EfAt, EfsFlat, Joined, Start, PartialAt, PartialFlat, Limbs;
    Starts(bs);
    Whole(bs, 10); Whole(bs, 11); Whole(bs, 14); Whole(bs, 17); Whole(bs, 18); Whole(bs, 19); Whole(bs, 20);
    LimbsRead(pv, OFF_AW2, l.alphaW2);
    PartialRead(pv, OFF_D0, l.deep0);
    PartialRead(pv, OFF_D1, l.deep1);
    LimbsRead(pv, OFF_COMBINED, l.combined);
    LimbsRead(pv, OFF_COMBINED + 3, l.lambda);
    assert pv[OFF_COMBINED + 6..OFF_COMBINED + 7][0] == l.vN;
    LimbsRead(pv, OFF_COMBINED + 7, l.out);
  }

  lemma ListsRead(l: Leaf, bs: seq<seq<Fp>>, pv: seq<Fp>)
    requires l.Shaped() && BlockLengths(bs) && ListBlocks(l, bs) && pv == Joined(bs)
    ensures |pv| == DEEP_RO_LEAF_NUM_PUBLIC
    ensures EfsAt(pv, OFF_PZ_LOCAL, MAX_W) == l.pzLocal && EfsAt(pv, OFF_PZ_NEXT, MAX_W) == l.pzNext
    ensures EfsAt(pv, OFF_APOW, MAX_W + 1) == l.apow
    ensures EfsAt(pv, OFF_POW0, MAX_W) == l.pow0 && EfsAt(pv, OFF_ACC0, MAX_W) == l.acc0
    ensures EfsAt(pv, OFF_POW1, MAX_W) == l.pow1 && EfsAt(pv, OFF_ACC1, MAX_W) == l.acc1
  {
    hide EfsAt, EfAt, EfsFlat, Joined, Start, PartialFlat, Limbs;
    Starts(bs);
    Whole(bs, 7); Whole(bs, 8); Whole(bs, 9); Whole(bs, 12); Whole(bs, 13); Whole(bs, 15); Whole(bs, 16);
    EfsRead(pv, OFF_PZ_LOCAL, l.pzLocal);
    EfsRead(pv, OFF_PZ_NEXT, l.pzNext);
    EfsRead(pv, OFF_APOW, l.apow);
    EfsRead(pv, OFF_POW0, l.pow0);
    EfsRead(pv, OFF_ACC0, l.acc0);
    EfsRead(pv, OFF_POW1, l.pow1);
    EfsRead(pv, OFF_ACC1, l.acc1);
  }

  // ---- The builder ----

  method PushEfs(pv0: seq<Fp>, es: seq<Ef>) returns (pv: seq<Fp>)
    ensures pv == pv0 + EfsFlat(es)
  {
    hide Limbs;
    pv := pv0;
    for i := 0 to |es|
      invariant pv == pv0 + EfsFlat(es[..i])
    {
      pv := pv + Limbs(es[i]);
      assert es[..i + 1][..i] == es[..i];
    }
    assert es[..|es|] == es;
  }

  method PushFlags(pv0: seq<Fp>, width: nat) returns (pv: seq<Fp>)
    ensures pv == pv0 + Flags(width)
  {
    pv := pv0;
    for i := 0 to MAX_W
      invariant pv == pv0 + Flags(width)[..i]
    {
      pv := pv + [if i < width then 1 else 0];
    }
    assert Flags(width)[..MAX_W] == Flags(width);
  }

  /** apow starts at 1 and is multiplied while the slot is active. */
  method PushApow(pv0: seq<Fp>, alpha: Ef, width: nat) returns (pv: seq<Fp>, apow: Ef)
    requires width <= MAX_W
    ensures pv == pv0 + EfsFlat(ActivePowers(alpha, width)) && apow == EPow(alpha, width)
  {
    hide Limbs, EMul;
    ghost var all := ActivePowers(alpha, width);
    apow := ONE;
    pv := pv0 + Limbs(apow);
    assert all[..1] == [all[0]] && all[..1][..0] == [];
    for i := 0 to MAX_W
      invariant apow == EPow(alpha, Least(i, width))
      invariant pv == pv0 + EfsFlat(all[..i + 1])
    {
      if i < width {
        apow := EMul(apow, alpha);
        EPowStep(alpha, i);
      }
      pv := pv + Limbs(apow);
      assert all[..i + 2][..i + 1] == all[..i + 1] && all[i + 1] == apow;
    }
    assert all[..MAX_W + 1] == all;
  }

  method PushHornerBlocksPadded(pv0: seq<Fp>, alpha: Ef, px: seq<Fp>, pz: seq<Ef>) returns (pv: seq<Fp>)
    requires |px| == |pz| == MAX_W
    ensures pv == pv0 + EfsFlat(Powers(alpha)) + EfsFlat(Sums(alpha, px, pz))
  {
    hide Limbs, EMul, EAdd, ESub, Embed, EfsFlat, LinearSum, EPow;
    var pow, acc := ONE, ZERO;
    var pows, accs := [], [];
    StartValues(alpha, px, pz);
    for i := 0 to MAX_W
      invariant pow == EPow(alpha, if i == 0 then 0 else i - 1) && acc == LinearSum(alpha, px, pz, i)
      invariant |pows| == |accs| == i
      invariant forall j :: 0 <= j < i ==> pows[j] == EPow(alpha, j)
      invariant forall j :: 0 <= j < i ==> accs[j] == LinearSum(alpha, px, pz, j + 1)
    {
      if i > 0 {
        pow := EMul(pow, alpha);
        EPowStep(alpha, i - 1);
      }
      var c := ESub(Embed(px[i]), pz[i]);
      acc := EAdd(acc, EMul(pow, c));
      NextTerm(alpha, px, pz, i);
      pows, accs := pows + [pow], accs + [acc];
    }
    assert pows == Powers(alpha) && accs == Sums(alpha, px, pz);
    pv := PushEfs(pv0, pows);
    pv := PushEfs(pv, accs);
  }

  lemma StartValues(alpha: Ef, px: seq<Fp>, pz: seq<Ef>)
    ensures EPow(alpha, 0) == ONE && LinearSum(alpha, px, pz, 0) == ZERO
  {
  }

  /** Builds the public vector of an opening, when the host's witness exists. */
  method BuildPublicValues(sx: Fp, sy: Fp, alpha: Ef, width: nat, px: seq<Fp>, pzLocal: seq<Ef>, pzNext: seq<Ef>, lambda: Ef,
                           logN: nat, zeta: Ef, zetaNext: Ef) returns (r: Option<(seq<Fp>, Ef)>)
    ensures var w := DeepRoLeafWitness(alpha, sx, sy, zeta, zetaNext, px, pzLocal, pzNext, lambda, logN);
      && (r.Some? <==> |px| == width && w.Some?)
      && (r.Some? ==> |px| <= MAX_W && r.value == (Flat(LeafOf(alpha, sx, sy, px, pzLocal, pzNext, lambda, w.value)), w.value.out))
    ensures r.Some? ==> |r.value.0| == 1634
  {
    hide DeepRoLeafWitness, Limbs, PartialFlat, EfsFlat, Joined, Flags, Powers, Sums, ActivePowers, PadFp, PadEf, LinearSum, EPow;
    NoWitnessOutside(alpha, sx, sy, zeta, zetaNext, px, pzLocal, pzNext, lambda, logN);
    if width == 0 || width > MAX_W || |px| != width {
      return None;
    }
    var host := DeepRoLeafWitness(alpha, sx, sy, zeta, zetaNext, px, pzLocal, pzNext, lambda, logN);
    if host.None? {
      return None;
    }
    var w := host.value;
    var px0, local0, next0 := PadFp(px), PadEf(pzLocal), PadEf(pzNext);
    var pv := [sx, sy];
    pv := pv + (Limbs(w.at.x) + Limbs(w.at.y));
    pv := pv + (Limbs(w.atn.x) + Limbs(w.atn.y));
    pv := pv + Limbs(alpha);
    pv := pv + [width];
    pv := PushFlags(pv, width);
    pv := pv + px0;
    pv := PushEfs(pv, local0);
    pv := PushEfs(pv, next0);
    var apow;
    pv, apow := PushApow(pv, alpha, width);
    pv := pv + Limbs(w.alphaW2);
    pv := pv + PartialFlat(w.deep0);
    pv := PushHornerBlocksPadded(pv, alpha, px0, local0);
    pv := pv + PartialFlat(w.deep1);
    pv := PushHornerBlocksPadded(pv, alpha, px0, next0);
    pv := pv + Limbs(w.combined);
    pv := pv + Limbs(lambda);
    pv := pv + [w.vN];
    pv := pv + Limbs(w.out);
    JoinedBlocks(LeafOf(alpha, sx, sy, px, pzLocal, pzNext, lambda, w));
    LayoutLength();
    return Some((pv, w.out));
  }

  lemma NoWitnessOutside(alpha: Ef, sx: Fp, sy: Fp, zeta: Ef, zetaNext: Ef, px: seq<Fp>, pzLocal: seq<Ef>, pzNext: seq<Ef>,
                         lambda: Ef, logN: nat)
    ensures |px| == 0 || |px| > MAX_W ==> DeepRoLeafWitness(alpha, sx, sy, zeta, zetaNext, px, pzLocal, pzNext, lambda, logN).None?
  {
    hide DeepPartial, TryFromProjectiveLine, EMul, EAdd, ESub, EPow;
  }

  /** The blocks pushed one after the other. */
  lemma JoinedBlocks(l: Leaf)
    ensures Flat(l)
            == [l.sx, l.sy] + (Limbs(l.at.x) + Limbs(l.at.y)) + (Limbs(l.atn.x) + Limbs(l.atn.y)) + Limbs(l.alpha) + [l.width]
               + l.active + l.px + EfsFlat(l.pzLocal) + EfsFlat(l.pzNext) + EfsFlat(l.apow) + Limbs(l.alphaW2)
               + PartialFlat(l.deep0) + EfsFlat(l.pow0) + EfsFlat(l.acc0) + PartialFlat(l.deep1) + EfsFlat(l.pow1) + EfsFlat(l.acc1)
               + Limbs(l.combined) + Limbs(l.lambda) + [l.vN] + Limbs(l.out)
  {
    hide Limbs, PartialFlat, EfsFlat, Joined;
    var bs := Blocks(l);
    NoBlocks(bs);
    StartStep(bs, 0); StartStep(bs, 1); StartStep(bs, 2); StartStep(bs, 3); StartStep(bs, 4); StartStep(bs, 5); StartStep(bs, 6);
    StartStep(bs, 7); StartStep(bs, 8); StartStep(bs, 9); StartStep(bs, 10); StartStep(bs, 11); StartStep(bs, 12); StartStep(bs, 13);
    StartStep(bs, 14); StartStep(bs, 15); StartStep(bs, 16); StartStep(bs, 17); StartStep(bs, 18); StartStep(bs, 19); StartStep(bs, 20);
    assert bs[..21] == bs;
    assert [] + [l.sx, l.sy] == [l.sx, l.sy];
  }

  /** What the builder pushes, read back by the circuit, satisfies every constraint. */
  lemma BuiltSatisfies(alpha: Ef, sx: Fp, sy: Fp, zeta: Ef, zetaNext: Ef, px: seq<Fp>, pzLocal: seq<Ef>, pzNext: seq<Ef>,
                       lambda: Ef, logN: nat, w: DeepRoLeafTraceWitness)
    requires DeepRoLeafWitness(alpha, sx, sy, zeta, zetaNext, px, pzLocal, pzNext, lambda, logN) == Some(w)
    ensures |px| <= MAX_W
    ensures var pv := Flat(LeafOf(alpha, sx, sy, px, pzLocal, pzNext, lambda, w));
      |pv| == DEEP_RO_LEAF_NUM_PUBLIC && Satisfies(View(pv))
  {
    hide DeepRoLeafWitness, Flat, View, Satisfies;
    Completeness(alpha, sx, sy, zeta, zetaNext, px, pzLocal, pzNext, lambda, logN, w);
    ViewFlat(LeafOf(alpha, sx, sy, px, pzLocal, pzNext, lambda, w));
  }
}
