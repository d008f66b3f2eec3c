/** Audit walk over a tree of compose transcripts, and the compose step that builds one. */
module ProofTree {

  import opened Options
  import opened Bytes
  import opened ComposeV3

  const V4_AGG_TAIL_MARKER: seq<Byte> := Ascii("_WQC_AGG_TAIL_V4_")
  const UNITARY_TRAJ_COMPOSE_LABEL: seq<Byte> := Ascii("leaf:unitary_traj")
  const UNITARY_BORN_COMPOSE_LABEL: seq<Byte> := Ascii("leaf:unitary_born")
  const ROOT_LABEL: seq<Byte> := Ascii("root")

  datatype StarkContext = StarkContext(binding: seq<seq<Byte>>, securityLevel: seq<Byte>)

  datatype ComposeContext = ComposeContext(parentTaskId: seq<Byte>, composeLabel: seq<Byte>, manifestRootHash: seq<Byte>,
                                           securityLevel: seq<Byte>)

  datatype AggregationContext = AggregationContext(header: ComposeHeader, securityLevel: seq<Byte>)

  /** The hash, the leaf checks and the aggregation STARK, uninterpreted. */
  datatype Oracles = Oracles(digest: Digest,
                             isTrajectoryLeaf: seq<Byte> -> bool,
                             verifyTrajectoryLeaf: (seq<Byte>, seq<Byte>, seq<Byte>) -> bool,
                             isBornLeaf: seq<Byte> -> bool,
                             verifyBornLeaf: (seq<Byte>, seq<Byte>, seq<Byte>) -> bool,
                             parseLeafBinding: seq<Byte> -> Option<StarkContext>,
                             verifyStarkProofCore: (StarkContext, seq<Byte>) -> bool,
                             proveAggregation: AggregationContext -> Option<seq<Byte>>,
                             verifyAggregation: (AggregationContext, seq<Byte>) -> bool)

  // ---- The aggregation tail ----

  method AppendAggTail(v3: seq<Byte>, aggProof: seq<Byte>) returns (out: seq<Byte>)
    ensures out == WithAggTail(v3, aggProof)
  {
    hide Le32;
    out := v3;
    out := out + V4_AGG_TAIL_MARKER;
    out := out + Le32(|aggProof|);
    out := out + aggProof;
    assert out == v3 + (V4_AGG_TAIL_MARKER + (Le32(|aggProof|) + aggProof));
  }

  function WithAggTail(v3: seq<Byte>, aggProof: seq<Byte>): seq<Byte> {
    v3 + (V4_AGG_TAIL_MARKER + (Le32(|aggProof|) + aggProof))
  }

  /** Splits at the last tail marker, whose length must reach the end. */
  function SplitAggTail(proof: seq<Byte>): (r: Option<(seq<Byte>, seq<Byte>)>)
    ensures r.Some? ==> |r.value.0| <= |proof| && r.value.0 == proof[..|r.value.0|]
  {
    var pos :- RPosition(proof, V4_AGG_TAIL_MARKER);
    var (len, cursor) :- ReadU32(proof, pos + |V4_AGG_TAIL_MARKER|);
    var (agg, end) :- ReadFixed(proof, cursor, len);
    if end != |proof| then None else Some((proof[..pos], agg))
  }

  /** Nothing behind the start of the tail spells another tail marker. */
  predicate TailClean(aggProof: seq<Byte>) {
    |aggProof| < 0x1_0000_0000 && !Occurs(V4_AGG_TAIL_MARKER[1..] + (Le32(|aggProof|) + aggProof), V4_AGG_TAIL_MARKER)
  }

  lemma AggMarkerLength()
    ensures |V4_AGG_TAIL_MARKER| == 17
  {
  }

  /** Splitting gives back what was appended exactly when the tail is clean. */
  lemma SplitAppended(v3: seq<Byte>, aggProof: seq<Byte>)
    ensures SplitAggTail(WithAggTail(v3, aggProof)) == Some((v3, aggProof)) <==> TailClean(aggProof)
  {
    AggMarkerLength();
    hide Ascii, Le32, FindDown, ReadU32;
    var m, n := V4_AGG_TAIL_MARKER, |v3|;
    var tail := m[1..] + (Le32(|aggProof|) + aggProof);
    var s := WithAggTail(v3, aggProof);
    assert s == v3 + m + (Le32(|aggProof|) + aggProof);
    AtHere(v3, m, Le32(|aggProof|) + aggProof);
    assert s[n + 1..] == tail;
    forall j: nat
      ensures At(s, n + 1 + j, m) <==> At(tail, j, m)
    {
      if j + 17 <= |tail| {
        assert s[n + 1 + j..n + 1 + j + 17] == tail[j..j + 17];
      }
    }
    assert RPosition(s, m) == Some(n) <==> !Occurs(tail, m) by { LastIsAt(s, n, m, tail); }
    assert At(s, n + 17, Le32(|aggProof|));
    assert At(s, n + 21, aggProof);
    if |aggProof| < 0x1_0000_0000 {
      ReadU32Iff(s, n + 17, |aggProof|, n + 21);
    }
    if RPosition(s, m) == Some(n) {
      assert s[..n] == v3;
      if SplitAggTail(s) == Some((v3, aggProof)) {
        var (len, cursor) := ReadU32(s, n + 17).value;
        assert |aggProof| == len;
      }
    } else {
      OtherSplit(s, n);
    }
  }

  lemma LastIsAt(s: seq<Byte>, n: nat, m: seq<Byte>, tail: seq<Byte>)
    requires At(s, n, m) && forall j: nat :: At(s, n + 1 + j, m) <==> At(tail, j, m)
    ensures RPosition(s, m) == Some(n) <==> !Occurs(tail, m)
  {
    hide FindDown;
    if Occurs(tail, m) {
      var j := Position(tail, m).value;
      assert At(s, n + 1 + j, m);
    } else {
      forall k: nat | k > n
        ensures !At(s, k, m)
      {
        assert !At(tail, k - n - 1, m);
        assert n + 1 + (k - n - 1) == k;
      }
    }
  }

  /** A split at another position has another prefix. */
  lemma OtherSplit(s: seq<Byte>, n: nat)
    requires RPosition(s, V4_AGG_TAIL_MARKER) != Some(n) && n <= |s|
    ensures SplitAggTail(s).Some? ==> |SplitAggTail(s).value.0| != n
  {
    hide FindDown, ReadU32;
  }

  /** Whatever splits was appended: the tail reaches the end and is clean. */
  lemma SplitIffAppended(proof: seq<Byte>, v3: seq<Byte>, agg: seq<Byte>)
    ensures SplitAggTail(proof) == Some((v3, agg)) <==> proof == WithAggTail(v3, agg) && TailClean(agg)
  {
    AggMarkerLength();
    SplitAppended(v3, agg);
    hide Ascii, Le32, FindDown, ReadU32, TailClean;
    if SplitAggTail(proof) == Some((v3, agg)) {
      var n := |v3|;
      assert RPosition(proof, V4_AGG_TAIL_MARKER) == Some(n);
      var (len, cursor) := ReadU32(proof, n + 17).value;
      ReadU32Iff(proof, n + 17, len, cursor);
      assert ReadFixed(proof, cursor, len) == Some((agg, |proof|));
      AtConcat(proof, n + 17, Le32(len), agg);
      AtConcat(proof, n, V4_AGG_TAIL_MARKER, Le32(len) + agg);
      var tail := V4_AGG_TAIL_MARKER + (Le32(len) + agg);
      assert len == |agg| && At(proof, n, tail) && n + |tail| == |proof|;
      assert proof == proof[..n] + proof[n..];
      assert proof[..n] == v3;
      assert proof[n..] == tail;
    }
  }

  function ComposeV3Body(proof: seq<Byte>): seq<Byte> {
    match SplitAggTail(proof)
    case Some(parts) => parts.0
    case None => proof
  }

  // ---- Verification ----

  predicate AuxLabel(composeLabel: seq<Byte>) {
    composeLabel == UNITARY_TRAJ_COMPOSE_LABEL || composeLabel == UNITARY_BORN_COMPOSE_LABEL
  }

  /** The parent id a unitary+aux compose carries for itself. */
  function EmbeddedParent(proof: seq<Byte>): Option<seq<Byte>> {
    var c :- DecodeComposeV3(ComposeV3Body(proof));
    if AuxLabel(c.header.composeLabel) then Some(c.header.parentTaskId) else None
  }

  function EffectiveParent(proof: seq<Byte>, parentTaskId: seq<Byte>): seq<Byte> {
    match EmbeddedParent(proof)
    case Some(parent) => parent
    case None => parentTaskId
  }

  predicate LeafVerifies(o: Oracles, child: seq<Byte>, leafCtx: Option<StarkContext>, fallback: seq<Byte>) {
    match leafCtx
    case Some(ctx) => o.verifyStarkProofCore(ctx, child)
    case None =>
      match o.parseLeafBinding(child)
      case None => false
      case Some(ctx) =>
        o.verifyStarkProofCore(if ctx.securityLevel == [] && fallback != [] then ctx.(securityLevel := fallback) else ctx, child)
  }

  function SecurityFor(leafCtx: Option<StarkContext>, fallback: seq<Byte>): seq<Byte> {
    if leafCtx.Some? && leafCtx.value.securityLevel != [] then leafCtx.value.securityLevel else fallback
  }

  /** Verifies a leaf or a nested compose. */
  predicate VerifyChildProof(o: Oracles, child: seq<Byte>, parentTaskId: seq<Byte>, leafCtx: Option<StarkContext>,
                             fallback: seq<Byte>)
    decreases |child|, 1
  {
    if child == [] then false
    else
      var securityLevel := SecurityFor(leafCtx, fallback);
      if o.isTrajectoryLeaf(child) then o.verifyTrajectoryLeaf(parentTaskId, child, securityLevel)
      else if o.isBornLeaf(child) then o.verifyBornLeaf(parentTaskId, child, securityLevel)
      else if IsComposeV3(child) then
        VerifyComposedProof(o, ComposeContext(EffectiveParent(child, parentTaskId), [], [], securityLevel), child)
      else LeafVerifies(o, child, leafCtx, fallback)
  }

  /** Recursively verifies a compose tree. */
  predicate VerifyComposedProof(o: Oracles, ctx: ComposeContext, proof: seq<Byte>)
    decreases |proof|, 0
  {
    var v3 := ComposeV3Body(proof);
    if !IsComposeV3(v3) then false
    else
      match DecodeComposeV3(v3)
      case None => false
      case Some(c) =>
        DecodedFields(v3, c);
        && c.header.parentTaskId == ctx.parentTaskId
        && o.digest(c.left) == c.header.leftChildHash && o.digest(c.right) == c.header.rightChildHash
        && RootChecks(ctx, c.header)
        && VerifyChildProof(o, c.left, ctx.parentTaskId, None, ctx.securityLevel)
        && VerifyChildProof(o, c.right, ctx.parentTaskId, None, ctx.securityLevel)
        && AggTailVerifies(o, ctx, c.header, proof)
  }

  predicate RootChecks(ctx: ComposeContext, header: ComposeHeader) {
    ctx.composeLabel == ROOT_LABEL ==>
      (header.composeLabel == ROOT_LABEL && (ctx.manifestRootHash == [] || header.manifestRootHash == ctx.manifestRootHash))
  }

  predicate AggTailVerifies(o: Oracles, ctx: ComposeContext, header: ComposeHeader, proof: seq<Byte>) {
    match SplitAggTail(proof)
    case None => true
    case Some(parts) => o.verifyAggregation(AggregationContext(header.(parentTaskId := ctx.parentTaskId), ctx.securityLevel), parts.1)
  }

  // ---- What acceptance says of the whole tree ----

  datatype Turn = ToLeft | ToRight

  /** A sub-proof and the parent id it is verified under. */
  datatype Seen = Seen(proof: seq<Byte>, parentTaskId: seq<Byte>)

  predicate IsNode(o: Oracles, proof: seq<Byte>) {
    proof != [] && !o.isTrajectoryLeaf(proof) && !o.isBornLeaf(proof) && IsComposeV3(proof)
  }

  /** The child of a node in one direction. */
  function Child(o: Oracles, s: Seen, turn: Turn): (r: Option<Seen>)
    ensures r.Some? ==> |r.value.proof| < |s.proof|
  {
    hide SplitAggTail;
    if !IsNode(o, s.proof) then None
    else
      var c :- DecodeComposeV3(ComposeV3Body(s.proof));
      DecodedFields(ComposeV3Body(s.proof), c);
      Some(Seen(if turn == ToLeft then c.left else c.right, EffectiveParent(s.proof, s.parentTaskId)))
  }

  function Descend(o: Oracles, s: Seen, path: seq<Turn>): Option<Seen>
    decreases |path|
  {
    hide Child;
    if path == [] then Some(s)
    else
      var child :- Child(o, s, path[0]);
      Descend(o, child, path[1..])
  }

  /** The checks at one sub-proof, children aside. */
  predicate LocallyOk(o: Oracles, s: Seen, security: seq<Byte>) {
    && s.proof != []
    && if o.isTrajectoryLeaf(s.proof) then o.verifyTrajectoryLeaf(s.parentTaskId, s.proof, security)
       else if o.isBornLeaf(s.proof) then o.verifyBornLeaf(s.parentTaskId, s.proof, security)
       else if IsComposeV3(s.proof) then
         NodeOk(o, ComposeContext(EffectiveParent(s.proof, s.parentTaskId), [], [], security), s.proof)
       else LeafVerifies(o, s.proof, None, security)
  }

  /** At a node: it decodes, carries the expected parent id, both hashes are the digests
      of the children, and an aggregation tail, if any, verifies. */
  predicate NodeOk(o: Oracles, ctx: ComposeContext, proof: seq<Byte>) {
    match DecodeComposeV3(ComposeV3Body(proof))
    case None => false
    case Some(c) =>
      && c.header.parentTaskId == ctx.parentTaskId
      && o.digest(c.left) == c.header.leftChildHash && o.digest(c.right) == c.header.rightChildHash
      && RootChecks(ctx, c.header) && AggTailVerifies(o, ctx, c.header, proof)
  }

  ghost predicate EverywhereOk(o: Oracles, s: Seen, security: seq<Byte>) {
    forall path: seq<Turn> :: Descend(o, s, path).Some? ==> LocallyOk(o, Descend(o, s, path).value, security)
  }

  /** One level: a sub-proof passes everywhere when it passes here and its children do. */
  lemma EverywhereStep(o: Oracles, s: Seen, security: seq<Byte>)
    ensures EverywhereOk(o, s, security) <==>
      && LocallyOk(o, s, security)
      && forall turn: Turn :: Child(o, s, turn).Some? ==> EverywhereOk(o, Child(o, s, turn).value, security)
  {
    hide Child, LocallyOk;
    if EverywhereOk(o, s, security) {
      assert Descend(o, s, []) == Some(s);
      forall turn: Turn | Child(o, s, turn).Some?
        ensures EverywhereOk(o, Child(o, s, turn).value, security)
      {
        forall path: seq<Turn> | Descend(o, Child(o, s, turn).value, path).Some?
          ensures LocallyOk(o, Descend(o, Child(o, s, turn).value, path).value, security)
        {
          var longer := [turn] + path;
          assert longer[0] == turn && longer[1..] == path;
          assert Descend(o, s, longer) == Descend(o, Child(o, s, turn).value, path);
        }
      }
    }
    if LocallyOk(o, s, security) && forall turn: Turn :: Child(o, s, turn).Some? ==> EverywhereOk(o, Child(o, s, turn).value, security) {
      forall path: seq<Turn> | Descend(o, s, path).Some?
        ensures LocallyOk(o, Descend(o, s, path).value, security)
      {
        if path != [] {
          assert EverywhereOk(o, Child(o, s, path[0]).value, security);
        }
      }
    }
  }

  /** Acceptance of a nested proof is the local checks at every sub-proof reached. */
  lemma {:induction false} AcceptanceIsEverywhere(o: Oracles, s: Seen, security: seq<Byte>)
    ensures VerifyChildProof(o, s.proof, s.parentTaskId, None, security) <==> EverywhereOk(o, s, security)
    decreases |s.proof|
  {
    hide EverywhereOk, SplitAggTail, EmbeddedParent;
    EverywhereStep(o, s, security);
    if IsNode(o, s.proof) {
      var v3 := ComposeV3Body(s.proof);
      match DecodeComposeV3(v3) {
        case None =>
        case Some(c) =>
          DecodedFields(v3, c);
          DecodedIsCompose(v3);
          var parent := EffectiveParent(s.proof, s.parentTaskId);
          AcceptanceIsEverywhere(o, Seen(c.left, parent), security);
          AcceptanceIsEverywhere(o, Seen(c.right, parent), security);
          assert Child(o, s, ToLeft) == Some(Seen(c.left, parent));
          assert Child(o, s, ToRight) == Some(Seen(c.right, parent));
      }
    }
  }

  lemma DecodedIsCompose(proof: seq<Byte>)
    requires DecodeComposeV3(proof).Some?
    ensures IsComposeV3(proof)
  {
    hide ReadBody;
  }

  /** What a root label asks of the header: the same label and, if one is given, the same
      manifest. */
  predicate FitsRoot(ctx: ComposeContext, header: ComposeHeader) {
    ctx.composeLabel == Ascii("root") ==>
      && header.composeLabel == Ascii("root")
      && (ctx.manifestRootHash != [] ==> header.manifestRootHash == ctx.manifestRootHash)
  }

  lemma RootChecksAre(ctx: ComposeContext, header: ComposeHeader)
    ensures RootChecks(ctx, header) <==> FitsRoot(ctx, header)
  {
    hide Ascii;
  }

  /** The root accepts exactly when it decodes, carries the expected parent id and the
      digests of its children, fits a root label, has no aggregation tail or one that
      verifies for its header, and both child trees pass everywhere under its parent id
      and security level. */
  lemma RootAcceptance(o: Oracles, ctx: ComposeContext, proof: seq<Byte>)
    ensures VerifyComposedProof(o, ctx, proof) <==>
      && DecodeComposeV3(ComposeV3Body(proof)).Some?
      && var c := DecodeComposeV3(ComposeV3Body(proof)).value;
         && c.header.parentTaskId == ctx.parentTaskId
         && c.header.leftChildHash == o.digest(c.left) && c.header.rightChildHash == o.digest(c.right)
         && FitsRoot(ctx, c.header)
         && (SplitAggTail(proof).Some? ==> o.verifyAggregation(AggregationContext(c.header, ctx.securityLevel), SplitAggTail(proof).value.1))
         && EverywhereOk(o, Seen(c.left, ctx.parentTaskId), ctx.securityLevel)
         && EverywhereOk(o, Seen(c.right, ctx.parentTaskId), ctx.securityLevel)
  {
    hide EverywhereOk, SplitAggTail, VerifyChildProof, ComposeV3Body, FitsRoot, RootChecks;
    var v3 := ComposeV3Body(proof);
    match DecodeComposeV3(v3) {
      case None =>
      case Some(c) =>
        DecodedIsCompose(v3);
        RootChecksAre(ctx, c.header);
        AcceptanceIsEverywhere(o, Seen(c.left, ctx.parentTaskId), ctx.securityLevel);
        AcceptanceIsEverywhere(o, Seen(c.right, ctx.parentTaskId), ctx.securityLevel);
    }
  }

  /** A proof carries an id for itself exactly when it decodes with one of the two
      unitary+aux labels. */
  lemma EmbeddedParentIff(proof: seq<Byte>, parent: seq<Byte>)
    ensures EmbeddedParent(proof) == Some(parent) <==>
      && DecodeComposeV3(ComposeV3Body(proof)).Some?
      && var h := DecodeComposeV3(ComposeV3Body(proof)).value.header; h.parentTaskId == parent && NamesUnitaryAux(h.composeLabel)
  {
    hide DecodeComposeV3, ComposeV3Body, AuxLabel, NamesUnitaryAux;
    if DecodeComposeV3(ComposeV3Body(proof)).Some? {
      AuxLabelsAre(DecodeComposeV3(ComposeV3Body(proof)).value.header.composeLabel);
    }
  }

  predicate NamesUnitaryAux(name: seq<Byte>) { name == Ascii("leaf:unitary_traj") || name == Ascii("leaf:unitary_born") }

  lemma AuxLabelsAre(name: seq<Byte>)
    ensures AuxLabel(name) <==> NamesUnitaryAux(name)
  {
    hide Ascii;
  }

  /** No node strictly above the end of the path is a unitary+aux leaf compose. */
  ghost predicate NoAuxAbove(o: Oracles, s: Seen, path: seq<Turn>)
    decreases |path|
  {
    hide Child, EmbeddedParent;
    path != [] ==>
      (EmbeddedParent(s.proof).None? && (Child(o, s, path[0]).Some? ==> NoAuxAbove(o, Child(o, s, path[0]).value, path[1..])))
  }

  /** Outside unitary+aux composes every sub-proof is verified under the root's parent id. */
  lemma {:induction false} ParentInherited(o: Oracles, s: Seen, path: seq<Turn>)
    requires Descend(o, s, path).Some? && NoAuxAbove(o, s, path)
    ensures Descend(o, s, path).value.parentTaskId == s.parentTaskId
    decreases |path|
  {
    hide EmbeddedParent, ComposeV3Body;
    if path != [] {
      ParentInherited(o, Child(o, s, path[0]).value, path[1..]);
    }
  }

  /** Below a unitary+aux compose it is that compose's own id, up to the next one. */
  lemma ParentBelowAux(o: Oracles, s: Seen, turn: Turn, path: seq<Turn>, parent: seq<Byte>)
    requires EmbeddedParent(s.proof) == Some(parent)
    requires Child(o, s, turn).Some? && NoAuxAbove(o, Child(o, s, turn).value, path)
    requires Descend(o, Child(o, s, turn).value, path).Some?
    ensures Descend(o, Child(o, s, turn).value, path).value.parentTaskId == parent
  {
    hide EmbeddedParent, ComposeV3Body, NoAuxAbove, Descend;
    ParentInherited(o, Child(o, s, turn).value, path);
  }

  /** In an accepted tree, a nested node whose path passes no unitary+aux compose, and
      which is none itself, carries the root's parent id; its hashes are the digests of
      its children, and its aggregation tail, if any, verifies for its header. */
  lemma NodesCarryRootParent(o: Oracles, s: Seen, path: seq<Turn>, security: seq<Byte>, c: Compose)
    requires EverywhereOk(o, s, security) && NoAuxAbove(o, s, path)
    requires Descend(o, s, path).Some? && IsNode(o, Descend(o, s, path).value.proof)
    requires DecodeComposeV3(ComposeV3Body(Descend(o, s, path).value.proof)) == Some(c)
    ensures o.digest(c.left) == c.header.leftChildHash && o.digest(c.right) == c.header.rightChildHash
    ensures EmbeddedParent(Descend(o, s, path).value.proof).None? ==> c.header.parentTaskId == s.parentTaskId
    ensures var tail := SplitAggTail(Descend(o, s, path).value.proof);
      tail.Some? ==> o.verifyAggregation(AggregationContext(c.header, security), tail.value.1)
  {
    hide SplitAggTail, ComposeV3Body, EmbeddedParent, Descend, NoAuxAbove;
    ParentInherited(o, s, path);
    assert LocallyOk(o, Descend(o, s, path).value, security);
  }

  /** A leaf's context with the root's security level where it carries none. */
  function UnderLevel(ctx: StarkContext, security: seq<Byte>): StarkContext {
    StarkContext(ctx.binding, if ctx.securityLevel == [] then security else ctx.securityLevel)
  }

  /** In an accepted tree every plain leaf reached was verified, under its own security
      level if it carries one and the root's otherwise; every trajectory or Born leaf
      under the id of its parent. */
  lemma EveryLeafVerified(o: Oracles, s: Seen, path: seq<Turn>, security: seq<Byte>)
    requires EverywhereOk(o, s, security) && Descend(o, s, path).Some?
    ensures var leaf := Descend(o, s, path).value;
      && (o.isTrajectoryLeaf(leaf.proof) ==> o.verifyTrajectoryLeaf(leaf.parentTaskId, leaf.proof, security))
      && (!o.isTrajectoryLeaf(leaf.proof) && o.isBornLeaf(leaf.proof) ==> o.verifyBornLeaf(leaf.parentTaskId, leaf.proof, security))
      && (!o.isTrajectoryLeaf(leaf.proof) && !o.isBornLeaf(leaf.proof) && !IsNode(o, leaf.proof) ==>
            var bound := o.parseLeafBinding(leaf.proof);
            bound.Some? && o.verifyStarkProofCore(UnderLevel(bound.value, security), leaf.proof))
  {
    hide SplitAggTail, ComposeV3Body, EmbeddedParent, Descend, NodeOk;
    var leaf := Descend(o, s, path).value;
    assert LocallyOk(o, leaf, security);
  }

  /** Two accepted nodes with equal headers have equal children, or two children of equal
      digest and different bytes. */
  lemma HeadersBind(o: Oracles, ctx: ComposeContext, ctx': ComposeContext, proof: seq<Byte>, proof': seq<Byte>, c: Compose, c': Compose)
    requires VerifyComposedProof(o, ctx, proof) && DecodeComposeV3(ComposeV3Body(proof)) == Some(c)
    requires VerifyComposedProof(o, ctx', proof') && DecodeComposeV3(ComposeV3Body(proof')) == Some(c')
    requires c.header == c'.header
    ensures || ComposeV3Body(proof) == ComposeV3Body(proof')
            || (c.left != c'.left && o.digest(c.left) == o.digest(c'.left))
            || (c.right != c'.right && o.digest(c.right) == o.digest(c'.right))
  {
    hide SplitAggTail, ComposeV3Body, VerifyChildProof;
    DecodedFields(ComposeV3Body(proof), c);
    DecodedFields(ComposeV3Body(proof'), c');
  }

  // ---- Composing ----

  /** The transcript that pairs two children, when both verify and the aggregation
      proof can be made. */
  function Composed(o: Oracles, ctx: ComposeContext, left: seq<Byte>, right: seq<Byte>,
                    leftCtx: Option<StarkContext>, rightCtx: Option<StarkContext>): Option<seq<Byte>>
  {
    if ctx.parentTaskId == [] then None
    else if !VerifyChildProof(o, left, ctx.parentTaskId, leftCtx, ctx.securityLevel) then None
    else if !VerifyChildProof(o, right, ctx.parentTaskId, rightCtx, ctx.securityLevel) then None
    else
      var c := ComposeOf(o.digest, ctx.parentTaskId, ctx.composeLabel, ctx.manifestRootHash, left, right);
      var agg :- o.proveAggregation(AggregationContext(c.header, ctx.securityLevel));
      Some(WithAggTail(Encoded(c), agg))
  }

  /** Pairs two children into a compose transcript with its aggregation tail. */
  method ComposeStarkProofs(o: Oracles, ctx: ComposeContext, left: seq<Byte>, right: seq<Byte>,
                            leftCtx: Option<StarkContext>, rightCtx: Option<StarkContext>) returns (r: Option<seq<Byte>>)
    ensures r == Composed(o, ctx, left, right, leftCtx, rightCtx)
  {
    hide VerifyChildProof, Encoded, Le32;
    if ctx.parentTaskId == [] {
      return None;
    }
    if !VerifyChildProof(o, left, ctx.parentTaskId, leftCtx, ctx.securityLevel) {
      return None;
    }
    if !VerifyChildProof(o, right, ctx.parentTaskId, rightCtx, ctx.securityLevel) {
      return None;
    }
    var out := EncodeComposeV3(o.digest, ctx.parentTaskId, ctx.composeLabel, ctx.manifestRootHash, left, right);
    var header := ComposeHeader(ctx.parentTaskId, ctx.composeLabel, ctx.manifestRootHash, o.digest(left), o.digest(right));
    var aggProof := o.proveAggregation(AggregationContext(header, ctx.securityLevel));
    if aggProof.None? {
      return None;
    }
    out := AppendAggTail(out, aggProof.value);
    return Some(out);
  }

  /** The level a child is checked under: its own context's if that names one. */
  function LevelFor(leafCtx: Option<StarkContext>, level: seq<Byte>): seq<Byte> {
    match leafCtx
    case None => level
    case Some(ctx) => if |ctx.securityLevel| > 0 then ctx.securityLevel else level
  }

  /** What composing asks of one child: a trajectory or Born leaf, and everything below a
      compose, is verified under the parent id and that level; a plain leaf under the
      context given for it, or under the one it is bound to, at the compose's level if
      it names none. */
  ghost predicate ChildPasses(o: Oracles, child: seq<Byte>, leafCtx: Option<StarkContext>, parent: seq<Byte>, level: seq<Byte>) {
    && child != []
    && (o.isTrajectoryLeaf(child) ==> o.verifyTrajectoryLeaf(parent, child, LevelFor(leafCtx, level)))
    && (!o.isTrajectoryLeaf(child) && o.isBornLeaf(child) ==> o.verifyBornLeaf(parent, child, LevelFor(leafCtx, level)))
    && (IsNode(o, child) ==> EverywhereOk(o, Seen(child, parent), LevelFor(leafCtx, level)))
    && (!o.isTrajectoryLeaf(child) && !o.isBornLeaf(child) && !IsNode(o, child) ==>
          match leafCtx
          case Some(ctx) => o.verifyStarkProofCore(ctx, child)
          case None =>
            o.parseLeafBinding(child).Some? && o.verifyStarkProofCore(UnderLevel(o.parseLeafBinding(child).value, level), child))
  }

  lemma ChildPassesIff(o: Oracles, child: seq<Byte>, leafCtx: Option<StarkContext>, parent: seq<Byte>, level: seq<Byte>)
    ensures VerifyChildProof(o, child, parent, leafCtx, level) <==> ChildPasses(o, child, leafCtx, parent, level)
  {
    hide EverywhereOk, VerifyComposedProof, IsComposeV3, EffectiveParent;
    if IsNode(o, child) {
      AcceptanceIsEverywhere(o, Seen(child, parent), LevelFor(leafCtx, level));
    }
  }

  /** Composing with leaf contexts succeeds exactly when the parent id is not empty, the
      left child passes with the left context and the right one with the right, and the
      aggregation prover answers; it returns the two children under their digests, with
      the answer as tail. */
  lemma ComposedIff(o: Oracles, ctx: ComposeContext, left: seq<Byte>, right: seq<Byte>,
                    leftCtx: Option<StarkContext>, rightCtx: Option<StarkContext>, out: seq<Byte>)
    ensures Composed(o, ctx, left, right, leftCtx, rightCtx) == Some(out) <==>
      var header := ComposeHeader(ctx.parentTaskId, ctx.composeLabel, ctx.manifestRootHash, o.digest(left), o.digest(right));
      var agg := o.proveAggregation(AggregationContext(header, ctx.securityLevel));
      && |ctx.parentTaskId| > 0 && agg.Some? && out == WithAggTail(Encoded(Compose(header, left, right)), agg.value)
      && ChildPasses(o, left, leftCtx, ctx.parentTaskId, ctx.securityLevel)
      && ChildPasses(o, right, rightCtx, ctx.parentTaskId, ctx.securityLevel)
  {
    hide VerifyChildProof, ChildPasses, Encoded, WithAggTail;
    ChildPassesIff(o, left, leftCtx, ctx.parentTaskId, ctx.securityLevel);
    ChildPassesIff(o, right, rightCtx, ctx.parentTaskId, ctx.securityLevel);
  }

  /** Behind an appended tail the body still starts with the transcript, and is the
      transcript exactly when the tail is clean. */
  lemma BodyExtends(v3: seq<Byte>, agg: seq<Byte>) returns (extra: seq<Byte>)
    ensures ComposeV3Body(WithAggTail(v3, agg)) == v3 + extra && (extra == [] <==> TailClean(agg))
  {
    hide Ascii, Le32, FindDown, ReadU32, TailClean;
    AggMarkerLength();
    SplitAppended(v3, agg);
    var proof := WithAggTail(v3, agg);
    match SplitAggTail(proof)
    case None =>
      extra := V4_AGG_TAIL_MARKER + (Le32(|agg|) + agg);
    case Some(parts) =>
      SplitIffAppended(proof, parts.0, parts.1);
      assert proof == v3 + V4_AGG_TAIL_MARKER + (Le32(|agg|) + agg);
      AtHere(v3, V4_AGG_TAIL_MARKER, Le32(|agg|) + agg);
      extra := proof[|v3|..|parts.0|];
      assert parts.0 == v3 + extra;
      if extra == [] {
        assert parts.1 == agg by { SameTail(v3, parts.1, agg); }
      }
  }

  lemma SameTail(v3: seq<Byte>, agg: seq<Byte>, agg': seq<Byte>)
    requires WithAggTail(v3, agg) == WithAggTail(v3, agg')
    ensures agg == agg'
  {
    hide Ascii, Le32;
    var n := |v3| + |V4_AGG_TAIL_MARKER| + 4;
    assert WithAggTail(v3, agg)[n..] == agg && WithAggTail(v3, agg')[n..] == agg';
  }

  /** Whatever decoded carries a parent id without the marker, so no other id is accepted. */
  lemma AcceptedParentMarkerFree(o: Oracles, ctx: ComposeContext, proof: seq<Byte>)
    requires VerifyComposedProof(o, ctx, proof)
    ensures MarkerFree(ctx.parentTaskId)
  {
    hide SplitAggTail, VerifyChildProof, ComposeV3Body, AggTailVerifies, RootChecks, Encodable;
    DecodedFields(ComposeV3Body(proof), DecodeComposeV3(ComposeV3Body(proof)).value);
  }

  /** What compose builds from children it verified without leaf contexts, and from fields
      that can be encoded, is accepted by the audit walk under the same parent id and
      security level exactly when the parent id does not contain the marker, the tail is
      clean, the aggregation proof verifies and a root check, if asked for, fits. Compose
      itself checks none of the four. */
  lemma ComposedIsAccepted(o: Oracles, ctx: ComposeContext, verifier: ComposeContext, left: seq<Byte>, right: seq<Byte>, agg: seq<Byte>)
    requires VerifyChildProof(o, left, ctx.parentTaskId, None, ctx.securityLevel)
    requires VerifyChildProof(o, right, ctx.parentTaskId, None, ctx.securityLevel)
    requires verifier.parentTaskId == ctx.parentTaskId && verifier.securityLevel == ctx.securityLevel
    requires Encodable(ComposeOf(o.digest, ctx.parentTaskId, ctx.composeLabel, ctx.manifestRootHash, left, right))
    ensures var c := ComposeOf(o.digest, ctx.parentTaskId, ctx.composeLabel, ctx.manifestRootHash, left, right);
      VerifyComposedProof(o, verifier, WithAggTail(Encoded(c), agg)) <==>
      && MarkerFree(ctx.parentTaskId) && TailClean(agg)
      && FitsRoot(verifier, c.header) && o.verifyAggregation(AggregationContext(c.header, ctx.securityLevel), agg)
  {
    hide VerifyChildProof, Encoded, Le32, TailClean, Encodable, SplitAggTail, WithAggTail, RootChecks, FitsRoot;
    var c := ComposeOf(o.digest, ctx.parentTaskId, ctx.composeLabel, ctx.manifestRootHash, left, right);
    var proof := WithAggTail(Encoded(c), agg);
    RootChecksAre(verifier, c.header);
    if VerifyComposedProof(o, verifier, proof) {
      AcceptedParentMarkerFree(o, verifier, proof);
    }
    if MarkerFree(ctx.parentTaskId) {
      var extra := BodyExtends(Encoded(c), agg);
      if extra == [] {
        SplitAppended(Encoded(c), agg);
        DecodeEncoded(c);
        DecodedIsCompose(Encoded(c));
      } else {
        DecodeExtended(c, extra);
      }
    }
  }

  /** A parent id that contains the marker but no zero byte: compose may succeed, and no
      verifier accepts what it returns. */
  lemma MarkedParentRejected(o: Oracles, ctx: ComposeContext, left: seq<Byte>, right: seq<Byte>,
                             leftCtx: Option<StarkContext>, rightCtx: Option<StarkContext>, verifier: ComposeContext)
    requires NulFree(ctx.parentTaskId) && !MarkerFree(ctx.parentTaskId)
    requires Composed(o, ctx, left, right, leftCtx, rightCtx).Some?
    ensures !VerifyComposedProof(o, verifier, Composed(o, ctx, left, right, leftCtx, rightCtx).value)
  {
    hide VerifyChildProof, Encoded, Le32, TailClean, SplitAggTail, WithAggTail, ComposeV3Body, MarkerFree, NulFree;
    var c := ComposeOf(o.digest, ctx.parentTaskId, ctx.composeLabel, ctx.manifestRootHash, left, right);
    var agg := o.proveAggregation(AggregationContext(c.header, ctx.securityLevel)).value;
    var extra := BodyExtends(Encoded(c), agg);
    DecodeMarked(c, extra);
  }

  const NO_HASH: ChildHash := seq(CHILD_HASH_LEN, _ => 0)

  /** Oracles that accept and prove everything. */
  function Lenient(): Oracles {
    Oracles(_ => NO_HASH, _ => false, (_, _, _) => true, _ => false, (_, _, _) => true, _ => Some(StarkContext([], [])),
            (_, _) => true, _ => Some([]), (_, _) => true)
  }

  lemma LenientLeaf(parentTaskId: seq<Byte>, security: seq<Byte>)
    ensures VerifyChildProof(Lenient(), [1], parentTaskId, None, security)
  {
    hide Ascii;
    assert !IsComposeV3([1]) by { MarkerBytes(); }
  }

  /** The input on which compose returns what the verifier rejects: the marker as parent id. */
  lemma MarkerAsParent(verifier: ComposeContext)
    ensures var r := Composed(Lenient(), ComposeContext(V3_COMPOSE_MARKER, [], [], []), [1], [1], None, None);
      r.Some? && !VerifyComposedProof(Lenient(), verifier, r.value)
  {
    hide VerifyChildProof, Encoded, WithAggTail, Ascii, VerifyComposedProof, FindFrom;
    MarkerBytes();
    var ctx := ComposeContext(V3_COMPOSE_MARKER, [], [], []);
    LenientLeaf(V3_COMPOSE_MARKER, []);
    assert At(V3_COMPOSE_MARKER, 0, V3_COMPOSE_MARKER);
    MarkedParentRejected(Lenient(), ctx, [1], [1], None, None, verifier);
  }

  // ---- Whole trees ----

  /** A plan for composing: leaf proofs, and the context of every pairing. */
  datatype Tree = Leaf(proof: seq<Byte>) | Node(ctx: ComposeContext, left: Tree, right: Tree)

  /** Composing bottom-up, without leaf contexts. */
  function Built(o: Oracles, t: Tree): Option<seq<Byte>> {
    match t
    case Leaf(proof) => Some(proof)
    case Node(ctx, left, right) =>
      var l :- Built(o, left);
      var r :- Built(o, right);
      Composed(o, ctx, l, r, None, None)
  }

  /** A pairing whose fields the codec can carry and whose transcript does not read as a
      bare trajectory or Born leaf. */
  predicate Plain(o: Oracles, ctx: ComposeContext, left: seq<Byte>, right: seq<Byte>) {
    var c := ComposeOf(o.digest, ctx.parentTaskId, ctx.composeLabel, ctx.manifestRootHash, left, right);
    && NulFree(ctx.parentTaskId) && Encodable(c)
    && match o.proveAggregation(AggregationContext(c.header, ctx.securityLevel))
       case None => true
       case Some(agg) => !o.isTrajectoryLeaf(WithAggTail(Encoded(c), agg)) && !o.isBornLeaf(WithAggTail(Encoded(c), agg))
  }

  /** Every pairing of the plan is plain and uses one security level. */
  predicate PlainTree(o: Oracles, t: Tree, security: seq<Byte>) {
    match t
    case Leaf(_) => true
    case Node(ctx, left, right) =>
      && ctx.securityLevel == security && PlainTree(o, left, security) && PlainTree(o, right, security)
      && (Built(o, left).Some? && Built(o, right).Some? ==> Plain(o, ctx, Built(o, left).value, Built(o, right).value))
  }

  /** One pairing is as the verifier wants it: its id does not contain the marker, and the
      aggregation prover answers with a clean tail its verifier accepts. */
  predicate Pairs(o: Oracles, ctx: ComposeContext, left: seq<Byte>, right: seq<Byte>) {
    var c := ComposeOf(o.digest, ctx.parentTaskId, ctx.composeLabel, ctx.manifestRootHash, left, right);
    && ctx.parentTaskId != [] && MarkerFree(ctx.parentTaskId)
    && match o.proveAggregation(AggregationContext(c.header, ctx.securityLevel))
       case None => false
       case Some(agg) => TailClean(agg) && o.verifyAggregation(AggregationContext(c.header, ctx.securityLevel), agg)
  }

  /** Every leaf verifies under the id of the pairing above it, every pairing is as the
      verifier wants it, and only a unitary+aux pairing has an id of its own. */
  predicate Sound(o: Oracles, t: Tree, parentTaskId: seq<Byte>, security: seq<Byte>) {
    match t
    case Leaf(proof) => VerifyChildProof(o, proof, parentTaskId, None, security)
    case Node(ctx, left, right) =>
      && (ctx.parentTaskId == parentTaskId || AuxLabel(ctx.composeLabel))
      && Sound(o, left, ctx.parentTaskId, security) && Sound(o, right, ctx.parentTaskId, security)
      && (Built(o, left).Some? && Built(o, right).Some? ==> Pairs(o, ctx, Built(o, left).value, Built(o, right).value))
  }

  /** Composing a plan never gets stuck and what it builds is accepted, exactly when the
      plan is sound. */
  lemma {:induction false} EveryTreeBuilds(o: Oracles, t: Tree, parentTaskId: seq<Byte>, security: seq<Byte>)
    requires PlainTree(o, t, security)
    ensures (Built(o, t).Some? && VerifyChildProof(o, Built(o, t).value, parentTaskId, None, security))
            <==> Sound(o, t, parentTaskId, security)
  {
    hide VerifyChildProof, Pairs, Plain, Encoded, WithAggTail;
    match t {
      case Leaf(_) =>
      case Node(ctx, left, right) =>
        EveryTreeBuilds(o, left, ctx.parentTaskId, security);
        EveryTreeBuilds(o, right, ctx.parentTaskId, security);
        if Built(o, left).Some? && Built(o, right).Some? {
          PairNests(o, ctx, Built(o, left).value, Built(o, right).value, parentTaskId);
        }
    }
  }

  /** A pairing succeeds and is accepted below a parent exactly when its children verify
      under its id, it is as the verifier wants it, and its id is the parent's unless it
      is a unitary+aux pairing. */
  lemma PairNests(o: Oracles, ctx: ComposeContext, left: seq<Byte>, right: seq<Byte>, parentTaskId: seq<Byte>)
    requires Plain(o, ctx, left, right)
    ensures var r := Composed(o, ctx, left, right, None, None);
      (r.Some? && VerifyChildProof(o, r.value, parentTaskId, None, ctx.securityLevel)) <==>
      && VerifyChildProof(o, left, ctx.parentTaskId, None, ctx.securityLevel)
      && VerifyChildProof(o, right, ctx.parentTaskId, None, ctx.securityLevel)
      && Pairs(o, ctx, left, right) && (ctx.parentTaskId == parentTaskId || AuxLabel(ctx.composeLabel))
  {
    hide VerifyChildProof, VerifyComposedProof, Encoded, Le32, TailClean, Encodable, SplitAggTail, WithAggTail, DecodeComposeV3,
      NulFree, MarkerFree, AuxLabel;
    if Composed(o, ctx, left, right, None, None).None? {
      return;
    }
    var c := ComposeOf(o.digest, ctx.parentTaskId, ctx.composeLabel, ctx.manifestRootHash, left, right);
    var agg := o.proveAggregation(AggregationContext(c.header, ctx.securityLevel)).value;
    var proof := WithAggTail(Encoded(c), agg);
    var verifier := ComposeContext(EffectiveParent(proof, parentTaskId), [], [], ctx.securityLevel);
    ChildIsComposed(o, c, agg, parentTaskId, ctx.securityLevel);
    BodyDecodes(c, agg);
    if MarkerFree(ctx.parentTaskId) && TailClean(agg) {
      assert verifier.parentTaskId == if AuxLabel(c.header.composeLabel) then ctx.parentTaskId else parentTaskId;
      if verifier.parentTaskId == ctx.parentTaskId {
        assert ROOT_LABEL != [] by { assert |ROOT_LABEL| == 4; }
        ComposedIsAccepted(o, ctx, verifier, left, right, agg);
      } else {
        OtherParentRejected(o, verifier, proof, c);
      }
    } else {
      UnreadableRejected(o, verifier, proof);
    }
  }

  /** An appended transcript decodes to what was encoded exactly when the parent id does
      not contain the marker and the tail is clean, and to nothing otherwise. */
  lemma BodyDecodes(c: Compose, agg: seq<Byte>)
    requires Encodable(c) && NulFree(c.header.parentTaskId)
    ensures DecodeComposeV3(ComposeV3Body(WithAggTail(Encoded(c), agg)))
            == if MarkerFree(c.header.parentTaskId) && TailClean(agg) then Some(c) else None
  {
    hide Encoded, TailClean, Encodable, SplitAggTail, WithAggTail, DecodeComposeV3, NulFree, MarkerFree;
    var extra := BodyExtends(Encoded(c), agg);
    if !MarkerFree(c.header.parentTaskId) {
      DecodeMarked(c, extra);
    } else if extra == [] {
      DecodeEncoded(c);
      assert Encoded(c) + extra == Encoded(c);
    } else {
      DecodeExtended(c, extra);
    }
  }

  lemma OtherParentRejected(o: Oracles, ctx: ComposeContext, proof: seq<Byte>, c: Compose)
    requires DecodeComposeV3(ComposeV3Body(proof)) == Some(c) && c.header.parentTaskId != ctx.parentTaskId
    ensures !VerifyComposedProof(o, ctx, proof)
  {
    hide SplitAggTail, VerifyChildProof, ComposeV3Body, AggTailVerifies, RootChecks;
  }

  lemma UnreadableRejected(o: Oracles, ctx: ComposeContext, proof: seq<Byte>)
    requires DecodeComposeV3(ComposeV3Body(proof)).None?
    ensures !VerifyComposedProof(o, ctx, proof)
  {
    hide SplitAggTail, VerifyChildProof, ComposeV3Body, AggTailVerifies, RootChecks;
  }

  lemma BuiltIsNode(o: Oracles, c: Compose, agg: seq<Byte>)
    requires var proof := WithAggTail(Encoded(c), agg); !o.isTrajectoryLeaf(proof) && !o.isBornLeaf(proof)
    ensures IsNode(o, WithAggTail(Encoded(c), agg))
  {
    hide Ascii, Le32, Body, FindFrom;
    var rest := Body(c) + (V4_AGG_TAIL_MARKER + (Le32(|agg|) + agg));
    assert WithAggTail(Encoded(c), agg) == Cstr(c.header.parentTaskId) + V3_COMPOSE_MARKER + rest;
    AtHere(Cstr(c.header.parentTaskId), V3_COMPOSE_MARKER, rest);
  }

  /** Where no leaf check claims it, a transcript is verified as a nested compose. */
  lemma ChildIsComposed(o: Oracles, c: Compose, agg: seq<Byte>, parentTaskId: seq<Byte>, security: seq<Byte>)
    requires var proof := WithAggTail(Encoded(c), agg); !o.isTrajectoryLeaf(proof) && !o.isBornLeaf(proof)
    ensures var proof := WithAggTail(Encoded(c), agg);
      VerifyChildProof(o, proof, parentTaskId, None, security)
      <==> VerifyComposedProof(o, ComposeContext(EffectiveParent(proof, parentTaskId), [], [], security), proof)
  {
    hide EffectiveParent, WithAggTail, Encoded, IsComposeV3, VerifyComposedProof;
    BuiltIsNode(o, c, agg);
  }

  // ---- The walk over what was built ----

  /** Over an accepted tree the walk meets the plan: a child of a built pairing is what its
      half of the plan builds, under the pairing's own id. */
  lemma BuiltChild(o: Oracles, t: Tree, parentTaskId: seq<Byte>, security: seq<Byte>, turn: Turn)
    requires t.Node? && PlainTree(o, t, security) && Sound(o, t, parentTaskId, security)
    ensures var half := if turn == ToLeft then t.left else t.right;
      && Built(o, t).Some? && Built(o, t.left).Some? && Built(o, t.right).Some? && IsNode(o, Built(o, t).value)
      && Child(o, Seen(Built(o, t).value, parentTaskId), turn) == Some(Seen(Built(o, half).value, t.ctx.parentTaskId))
      && DecodeComposeV3(ComposeV3Body(Built(o, t).value)) == Some(ComposeOf(o.digest, t.ctx.parentTaskId, t.ctx.composeLabel,
           t.ctx.manifestRootHash, Built(o, t.left).value, Built(o, t.right).value))
  {
    hide VerifyChildProof, VerifyComposedProof, Encoded, Le32, TailClean, Encodable, SplitAggTail, WithAggTail, DecodeComposeV3,
      NulFree, MarkerFree, AuxLabel, ComposeV3Body;
    EveryTreeBuilds(o, t, parentTaskId, security);
    EveryTreeBuilds(o, t.left, t.ctx.parentTaskId, security);
    EveryTreeBuilds(o, t.right, t.ctx.parentTaskId, security);
    var left, right := Built(o, t.left).value, Built(o, t.right).value;
    var c := ComposeOf(o.digest, t.ctx.parentTaskId, t.ctx.composeLabel, t.ctx.manifestRootHash, left, right);
    var agg := o.proveAggregation(AggregationContext(c.header, security)).value;
    BodyDecodes(c, agg);
    BuiltIsNode(o, c, agg);
  }

  // ---- A tree with two ids ----

  lemma AggMarkerStart()
    ensures V4_AGG_TAIL_MARKER[..6] == [95, 87, 81, 67, 95, 65]
  {
  }

  /** An empty tail is clean. */
  lemma CleanEmpty()
    ensures TailClean([])
  {
    hide FindFrom, Ascii, Le32;
    AggMarkerLength();
    AggMarkerStart();
    var m := V4_AGG_TAIL_MARKER;
    var tail := m[1..] + (Le32(0) + []);
    forall j: nat
      ensures !At(tail, j, m)
    {
      if j + 17 <= |tail| {
        assert |tail| == 20 && tail[j] == m[j + 1] && tail[j + 1] == m[j + 2];
        assert tail[j..j + 17][0] == tail[j] && tail[j..j + 17][1] == tail[j + 1];
      }
    }
  }

  lemma ShortIsMarkerFree(s: seq<Byte>)
    requires |s| < 16
    ensures MarkerFree(s)
  {
    MarkerBytes();
    hide Ascii;
  }

  /** Names that a small example may use. */
  predicate Simple(ctx: ComposeContext) {
    && 0 < |ctx.parentTaskId| < 16 && |ctx.composeLabel| <= 20 && ctx.manifestRootHash == [] && ctx.securityLevel == []
    && NulFree(ctx.parentTaskId) && NulFree(ctx.composeLabel)
  }

  lemma LenientPair(ctx: ComposeContext, left: seq<Byte>, right: seq<Byte>)
    requires Simple(ctx) && |left| < 1000 && |right| < 1000
    ensures Plain(Lenient(), ctx, left, right) && Pairs(Lenient(), ctx, left, right)
    ensures var r := Composed(Lenient(), ctx, left, right, None, None); r.Some? ==> |r.value| <= |left| + |right| + 200
  {
    hide TailClean, MarkerFree, VerifyChildProof, Body, Ascii, Le32;
    CleanEmpty();
    ShortIsMarkerFree(ctx.parentTaskId);
    MarkerBytes();
    AggMarkerLength();
    var c := ComposeOf(Lenient().digest, ctx.parentTaskId, ctx.composeLabel, ctx.manifestRootHash, left, right);
    BodyLength(c);
  }

  /** A pairing of plain names whose halves are plain and sound, under the lenient oracles. */
  lemma LenientNode(ctx: ComposeContext, left: Tree, right: Tree, parentTaskId: seq<Byte>, n: nat)
    requires Simple(ctx) && n < 1000
    requires PlainTree(Lenient(), left, []) && Sound(Lenient(), left, ctx.parentTaskId, [])
    requires PlainTree(Lenient(), right, []) && Sound(Lenient(), right, ctx.parentTaskId, [])
    requires ctx.parentTaskId == parentTaskId || AuxLabel(ctx.composeLabel)
    requires Built(Lenient(), left).Some? ==> |Built(Lenient(), left).value| <= n
    requires Built(Lenient(), right).Some? ==> |Built(Lenient(), right).value| <= n
    ensures PlainTree(Lenient(), Node(ctx, left, right), []) && Sound(Lenient(), Node(ctx, left, right), parentTaskId, [])
    ensures var r := Built(Lenient(), Node(ctx, left, right)); r.Some? ==> |r.value| <= 2 * n + 200
  {
    hide VerifyChildProof, AuxLabel, Ascii, Composed, Plain, Pairs;
    if Built(Lenient(), left).Some? && Built(Lenient(), right).Some? {
      LenientPair(ctx, Built(Lenient(), left).value, Built(Lenient(), right).value);
    }
  }

  /** A tree under the id "A" with a unitary+aux pairing of the id "B" over a pairing of
      the id "B". */
  function TwoIds(): Tree {
    var leaf := Leaf([1]);
    Node(ComposeContext([65], [], [], []),
         Node(ComposeContext([66], UNITARY_TRAJ_COMPOSE_LABEL, [], []), Node(ComposeContext([66], [], [], []), leaf, leaf), leaf),
         leaf)
  }

  /** A nested compose accepted under its own id is accepted as a root. */
  lemma NestedIsRoot(o: Oracles, proof: seq<Byte>, parentTaskId: seq<Byte>, security: seq<Byte>)
    requires IsNode(o, proof) && VerifyChildProof(o, proof, parentTaskId, None, security)
    requires EffectiveParent(proof, parentTaskId) == parentTaskId
    ensures VerifyComposedProof(o, ComposeContext(parentTaskId, [], [], security), proof)
  {
    hide IsComposeV3, EffectiveParent, VerifyComposedProof;
  }

  /** It builds, it is accepted under "A", and two steps down stands a node, no unitary+aux
      compose itself, that carries another parent id than the root. */
  lemma InnerIdDiffers()
    ensures var r := Built(Lenient(), TwoIds());
      && r.Some? && VerifyComposedProof(Lenient(), ComposeContext([65], [], [], []), r.value)
      && var inner := Descend(Lenient(), Seen(r.value, [65]), [ToLeft, ToLeft]);
         && inner.Some? && inner.value.parentTaskId == [66]
         && var c := DecodeComposeV3(ComposeV3Body(inner.value.proof));
            c.Some? && c.value.header.parentTaskId == [66] && c.value.header.composeLabel == []
  {
    hide VerifyChildProof, Ascii, Composed, Plain, Pairs, VerifyComposedProof, Child, DecodeComposeV3, ComposeV3Body, AuxLabel, Encodable;
    var o, root := Lenient(), TwoIds();
    TwoIdsSound();
    EveryTreeBuilds(o, root, [65], []);
    var r := Built(o, root).value;
    BuiltChild(o, root, [65], [], ToLeft);
    BuiltChild(o, root.left, [65], [], ToLeft);
    BuiltChild(o, root.left.left, [66], [], ToLeft);
    var s, mid := Seen(r, [65]), Built(o, root.left).value;
    assert [ToLeft, ToLeft][1..] == [ToLeft] && [ToLeft][1..] == [];
    assert Descend(o, s, [ToLeft, ToLeft]) == Descend(o, Seen(mid, [65]), [ToLeft]);
    assert Descend(o, Seen(mid, [65]), [ToLeft]) == Some(Seen(Built(o, root.left.left).value, [66]));
    NestedIsRoot(o, r, [65], []);
  }

  lemma TwoIdsSound()
    ensures PlainTree(Lenient(), TwoIds(), []) && Sound(Lenient(), TwoIds(), [65], [])
    ensures PlainTree(Lenient(), TwoIds().left, []) && Sound(Lenient(), TwoIds().left, [65], [])
    ensures PlainTree(Lenient(), TwoIds().left.left, []) && Sound(Lenient(), TwoIds().left.left, [66], [])
  {
    hide VerifyChildProof, Ascii, Composed, Plain, Pairs;
    var leaf, t := Leaf([1]), TwoIds();
    assert |UNITARY_TRAJ_COMPOSE_LABEL| == 17 && NulFree(UNITARY_TRAJ_COMPOSE_LABEL) by { LabelBytes(); }
    LenientLeaf([65], []);
    LenientLeaf([66], []);
    LenientNode(t.left.left.ctx, leaf, leaf, [66], 1);
    LenientNode(t.left.ctx, t.left.left, leaf, [65], 202);
    LenientNode(t.ctx, t.left, leaf, [65], 604);
  }

  lemma LabelBytes()
    ensures |UNITARY_TRAJ_COMPOSE_LABEL| == 17 && NulFree(UNITARY_TRAJ_COMPOSE_LABEL)
  {
  }
}
