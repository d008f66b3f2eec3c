/** Batch path proofs: the generator, the replay verifier and the digest verifier. */
module MerkleOpenings {

  import opened Options
  import opened M31
  import opened PowersOfTwo
  import opened MerkleBatch

  const FRI_MMCS_MAX_DEPTH: nat := 20

  /** A hash step with its digest; the nested proof bytes are empty. */
  datatype Stub = Stub(msgLen: nat, digest: Digest)

  datatype BatchProof = BatchProof(index: nat, siblings: seq<Digest>,
                                   leafRows: seq<seq<Fp>>, leafKeccs: seq<Stub>, leafDigests: seq<Digest>,
                                   sibCompresses: seq<Stub>, sibLayerDigests: seq<Digest>,
                                   injectCompresses: seq<Stub>, injectDigests: seq<Digest>, injectLeafIndices: seq<nat>)

  /** An out-of-range read panics in the source. */
  datatype Verdict = Accepted | Rejected | Panicked

  function BatchFor(h: Hasher, dims: seq<Dimensions>, rows: seq<seq<Fp>>, index: nat): Batch {
    Batch(h, dims, rows, index, Log2(MaxHeight(dims)))
  }

  /** Number of steps up to k after which some matrix joins. */
  function JoinCount(b: Batch, k: nat): nat
    requires k <= b.depth
  {
    if k == 0 then 0 else JoinCount(b, k - 1) + (if b.Joining(k) == [] then 0 else 1)
  }

  lemma {:induction false} JoinCountMonotone(b: Batch, k: nat, l: nat)
    requires k <= l <= b.depth
    ensures JoinCount(b, k) <= JoinCount(b, l)
    decreases l
  {
    if k < l {
      JoinCountMonotone(b, k, l - 1);
    }
  }

  // ---- What the walk keeps ----

  /** The indices that remain still hold everything that joins after step k. */
  ghost predicate Remaining(b: Batch, remaining: seq<nat>, k: nat) {
    && Below(remaining, |b.dims|)
    && forall e: nat :: k + e < b.depth ==> WithHeight(b.dims, remaining, Pow2(e)) == WithHeight(b.dims, b.Sorted(), Pow2(e))
  }

  lemma RemainingAfterLeaves(b: Batch, remaining: seq<nat>)
    requires remaining == Filter(b.Sorted(), (i: nat) => !(i < |b.dims| && NextPowerOfTwo(b.dims[i].height) == Pow2(b.depth)))
    ensures Remaining(b, remaining, 0)
  {
    hide Order, Filter, NextPowerOfTwo, Pow2;
    var p := (i: nat) => !(i < |b.dims| && NextPowerOfTwo(b.dims[i].height) == Pow2(b.depth));
    FilterBelow(b.Sorted(), p, |b.dims|);
    forall e: nat | e < b.depth
      ensures WithHeight(b.dims, remaining, Pow2(e)) == WithHeight(b.dims, b.Sorted(), Pow2(e))
    {
      var q := (i: nat) => i < |b.dims| && b.dims[i].height == Pow2(e);
      NextOfPower(e);
      Pow2Strict(e, b.depth);
      FilterFilter(b.Sorted(), p, q);
    }
  }

  lemma RemainingAfterJoin(b: Batch, remaining: seq<nat>, rest: seq<nat>, joining: seq<nat>, k: nat)
    requires k < b.depth && Remaining(b, remaining, k)
    requires joining == WithHeight(b.dims, remaining, Pow2(b.depth - k - 1))
    requires rest == Filter(remaining, (i: nat) => i !in joining)
    ensures Remaining(b, rest, k + 1) && Below(rest, |b.dims|)
  {
    hide Order, Filter, Pow2;
    var p := (i: nat) => i !in joining;
    FilterBelow(remaining, p, |b.dims|);
    FilterHolds(remaining, (i: nat) => i < |b.dims| && b.dims[i].height == Pow2(b.depth - k - 1));
    forall e: nat | k + 1 + e < b.depth
      ensures WithHeight(b.dims, rest, Pow2(e)) == WithHeight(b.dims, b.Sorted(), Pow2(e))
    {
      var q := (i: nat) => i < |b.dims| && b.dims[i].height == Pow2(e);
      Pow2Strict(e, b.depth - k - 1);
      FilterFilter(remaining, p, q);
    }
  }

  /** A matrix is its own position in the order, by position. */
  ghost predicate Positions(digestOf: seq<nat>, order: seq<nat>) {
    |digestOf| == |order| && forall i :: 0 <= i < |digestOf| ==> digestOf[i] < |order| && order[digestOf[i]] == i
  }

  /** Position of every matrix in the tallest-first order. */
  method DigestOf(b: Batch) returns (digestOf: seq<nat>)
    ensures Positions(digestOf, b.Sorted())
  {
    hide Order;
    var order := b.Sorted();
    var positions := new nat[|order|](_ => 0);
    OrderIsSorted(b.dims, |b.dims|);
    for pos := 0 to |order|
      invariant forall q :: 0 <= q < pos ==> positions[order[q]] == q
    {
      forall q | 0 <= q < pos
        ensures order[q] != order[pos]
      {
        assert Before(b.dims, order[q], order[pos]);
      }
      positions[order[pos]] := pos;
    }
    forall i | 0 <= i < |order|
      ensures positions[i] < |order| && order[positions[i]] == i
    {
      OrderIsPermutation(b.dims, |b.dims|, i);
      assert i in multiset(order);
      var q :| 0 <= q < |order| && order[q] == i;
    }
    return positions[..];
  }

  /** Splits off the matrices hashed into the leaf. */
  method SplitLeaves(b: Batch) returns (atLeaf: seq<nat>, remaining: seq<nat>)
    ensures atLeaf == b.Leaves() && Remaining(b, remaining, 0) && Below(remaining, |b.dims|)
  {
    var top := Pow2(b.depth);
    atLeaf := AtTop(b.dims, b.Sorted(), top);
    remaining := Filter(b.Sorted(), (i: nat) => !(i < |b.dims| && NextPowerOfTwo(b.dims[i].height) == top));
    RemainingAfterLeaves(b, remaining);
  }

  lemma SingleRow(b: Batch, i: nat)
    requires |b.dims| == |b.rows| && i < |b.dims|
    ensures Below([i], |b.dims|) && ConcatRows(b.rows, [i]) == b.rows[i]
  {
    assert ConcatRows(b.rows, [i]) == b.rows[i] + ConcatRows(b.rows, [i][1..]);
  }

  /** Some matrix reaches the top, so the leaf hashes at least one row. */
  lemma LeavesNotEmpty(b: Batch)
    requires b.Valid()
    ensures b.Leaves() != []
  {
    hide Order, Filter, NextPowerOfTwo;
    MaxHeightBounds(b.dims);
    var i :| 0 <= i < |b.dims| && b.dims[i].height == MaxHeight(b.dims);
    NextOfPower(b.depth);
    JoiningCount(b, i, 0);
    assert i in multiset(b.Leaves());
  }

  // ---- An honest proof ----

  /** The concatenations hashed beside the single rows up to step k: that of the leaf
      level, then one for every step after which several matrices join. */
  function ExtraRows(b: Batch, k: nat): seq<seq<Fp>>
    requires |b.dims| == |b.rows| && k <= b.depth
  {
    if k == 0 then (if |b.Leaves()| == 1 then [] else [ConcatRows(b.rows, b.Leaves())])
    else ExtraRows(b, k - 1) + (if |b.Joining(k)| <= 1 then [] else [ConcatRows(b.rows, b.Joining(k))])
  }

  lemma {:induction false} FirstExtra(b: Batch, k: nat)
    requires |b.dims| == |b.rows| && k <= b.depth && |b.Leaves()| != 1
    ensures ExtraRows(b, k) != [] && ExtraRows(b, k)[0] == ConcatRows(b.rows, b.Leaves())
  {
    hide Batch.Leaves, Batch.Joining, ConcatRows;
    if k > 0 {
      FirstExtra(b, k - 1);
    }
  }

  /** Leaf entries after k steps: the rows in order, then the extra concatenations, all
      with their hashes. */
  ghost predicate HonestLeaves(p: BatchProof, b: Batch, k: nat)
    requires |b.dims| == |b.rows| && k <= b.depth
  {
    && |p.leafRows| == |p.leafKeccs| == |p.leafDigests| >= |b.dims|
    && (forall pos :: 0 <= pos < |b.dims| ==> p.leafRows[pos] == b.rows[b.Sorted()[pos]])
    && (forall pos :: 0 <= pos < |p.leafRows| ==>
          p.leafDigests[pos] == b.h.leaf(p.leafRows[pos]) && p.leafKeccs[pos] == Stub(4 * |p.leafRows[pos]|, p.leafDigests[pos]))
    && p.leafRows[|b.dims|..] == ExtraRows(b, k)
  }

  ghost predicate SibEntry(p: BatchProof, b: Batch, k: nat)
    requires |b.dims| == |b.rows| && 0 < k <= b.depth
  {
    && k <= |p.siblings| && k <= |p.sibCompresses| && k <= |p.sibLayerDigests|
    && p.sibLayerDigests[k - 1] == b.Up(p.siblings, k) && p.sibCompresses[k - 1].digest == b.Up(p.siblings, k)
  }

  ghost predicate InjectEntry(p: BatchProof, b: Batch, k: nat)
    requires |b.dims| == |b.rows| && 0 < k <= b.depth
  {
    b.Joining(k) != [] ==>
      (var c := JoinCount(b, k) - 1;
       k <= |p.siblings| && c < |p.injectCompresses| && c < |p.injectDigests|
       && p.injectDigests[c] == b.At(p.siblings, k) && p.injectCompresses[c].digest == b.At(p.siblings, k))
  }

  /** What the generator records of step k beside the digests: stubs of 64 bytes and the
      place of the first joining matrix in the order of the leaf digests. */
  ghost predicate Recorded(p: BatchProof, b: Batch, k: nat)
    requires |b.dims| == |b.rows| && 0 < k <= b.depth
  {
    && k <= |p.sibCompresses| && p.sibCompresses[k - 1].msgLen == 64
    && (b.Joining(k) != [] ==>
          (var c := JoinCount(b, k) - 1;
           c < |p.injectCompresses| && c < |p.injectLeafIndices| && p.injectCompresses[c].msgLen == 64
           && p.injectLeafIndices[c] < |b.dims| && b.Sorted()[p.injectLeafIndices[c]] == b.Joining(k)[0]))
  }

  ghost predicate HonestLayers(p: BatchProof, b: Batch, k: nat)
    requires |b.dims| == |b.rows| && k <= b.depth
  {
    && |p.sibCompresses| == |p.sibLayerDigests| == k
    && |p.injectCompresses| == |p.injectDigests| == |p.injectLeafIndices| == JoinCount(b, k)
    && (forall j: nat :: 0 < j <= k ==> SibEntry(p, b, j))
    && (forall j: nat :: 0 < j <= k ==> InjectEntry(p, b, j))
    && (forall j: nat :: 0 < j <= k ==> Recorded(p, b, j))
  }

  /** The generator's checks: shapes, depth, widths, sibling count and root. */
  ghost predicate Generates(h: Hasher, dims: seq<Dimensions>, rows: seq<seq<Fp>>, index: nat, siblings: seq<Digest>, root: Digest) {
    && |dims| == |rows| && |dims| > 0 && |siblings| <= FRI_MMCS_MAX_DEPTH
    && IsPowerOfTwo(MaxHeight(dims)) && index < MaxHeight(dims)
    && (forall i :: 0 <= i < |dims| ==> |rows[i]| == dims[i].width)
    && BatchFor(h, dims, rows, index).Opens(siblings, root)
  }

  // ---- The generator ----

  method HashLeaves(b: Batch) returns (r: Option<BatchProof>)
    requires |b.dims| == |b.rows|
    ensures r.Some? <==> forall i :: 0 <= i < |b.dims| ==> |b.rows[i]| == b.dims[i].width
    ensures r.Some? ==> var p := r.value;
      && |p.leafRows| == |p.leafKeccs| == |p.leafDigests| == |b.dims|
      && (forall pos :: 0 <= pos < |b.dims| ==> p.leafRows[pos] == b.rows[b.Sorted()[pos]])
      && (forall pos :: 0 <= pos < |b.dims| ==>
            p.leafDigests[pos] == b.h.leaf(p.leafRows[pos]) && p.leafKeccs[pos] == Stub(4 * |p.leafRows[pos]|, p.leafDigests[pos]))
      && p.sibCompresses == [] && p.sibLayerDigests == [] && p.injectCompresses == [] && p.injectDigests == [] && p.injectLeafIndices == []
  {
    hide Order;
    var order := b.Sorted();
    var rows, keccs, digests := [], [], [];
    for pos := 0 to |order|
      invariant |rows| == |keccs| == |digests| == pos
      invariant forall q :: 0 <= q < pos ==> |b.rows[order[q]]| == b.dims[order[q]].width
      invariant forall q :: 0 <= q < pos ==> rows[q] == b.rows[order[q]]
      invariant forall q :: 0 <= q < pos ==> digests[q] == b.h.leaf(rows[q]) && keccs[q] == Stub(4 * |rows[q]|, digests[q])
    {
      var row := b.rows[order[pos]];
      if |row| != b.dims[order[pos]].width {
        return None;
      }
      var digest := b.h.leaf(row);
      rows, keccs, digests := rows + [row], keccs + [Stub(4 * |row|, digest)], digests + [digest];
    }
    forall i | 0 <= i < |b.dims|
      ensures |b.rows[i]| == b.dims[i].width
    {
      OrderIsPermutation(b.dims, |b.dims|, i);
      assert i in multiset(order);
      var q :| 0 <= q < |order| && order[q] == i;
    }
    return Some(BatchProof(0, [], rows, keccs, digests, [], [], [], [], []));
  }

  /** The leaf digest: a single row's own, else that of the concatenation, which becomes
      an extra entry. */
  method HashLeaf(b: Batch, p: BatchProof, digestOf: seq<nat>, atLeaf: seq<nat>) returns (q: BatchProof, digest: Digest)
    requires |b.dims| == |b.rows| && atLeaf == b.Leaves() != [] && Positions(digestOf, b.Sorted())
    requires |p.leafRows| == |p.leafKeccs| == |p.leafDigests| == |b.dims|
    requires forall pos :: 0 <= pos < |b.dims| ==> p.leafRows[pos] == b.rows[b.Sorted()[pos]]
    requires forall pos :: 0 <= pos < |b.dims| ==>
      p.leafDigests[pos] == b.h.leaf(p.leafRows[pos]) && p.leafKeccs[pos] == Stub(4 * |p.leafRows[pos]|, p.leafDigests[pos])
    ensures digest == b.HashOf(b.Leaves()) && HonestLeaves(q, b, 0)
    ensures q == p.(leafRows := q.leafRows, leafKeccs := q.leafKeccs, leafDigests := q.leafDigests)
  {
    hide Order, Filter, ConcatRows, Batch.Leaves;
    q := p;
    var concat := ConcatRows(b.rows, atLeaf);
    digest := b.h.leaf(concat);
    if |atLeaf| == 1 {
      SingleRow(b, atLeaf[0]);
      assert atLeaf == [atLeaf[0]];
      digest := p.leafDigests[digestOf[atLeaf[0]]];
    } else {
      q := p.(leafRows := p.leafRows + [concat], leafDigests := p.leafDigests + [digest],
              leafKeccs := p.leafKeccs + [Stub(4 * |concat|, digest)]);
    }
  }

  /** The digest of the matrices that join after a step. */
  method HashJoining(b: Batch, p: BatchProof, digestOf: seq<nat>, joining: seq<nat>, ghost k: nat) returns (q: BatchProof, digest: Digest)
    requires |b.dims| == |b.rows| && Below(joining, |b.dims|) && joining != [] && Positions(digestOf, b.Sorted())
    requires k < b.depth && joining == b.Joining(k + 1) && HonestLeaves(p, b, k)
    ensures digest == b.HashOf(joining) && HonestLeaves(q, b, k + 1)
    ensures q == p.(leafRows := q.leafRows, leafKeccs := q.leafKeccs, leafDigests := q.leafDigests)
  {
    hide Order, Filter, ConcatRows, Batch.Leaves, Batch.Joining;
    q := p;
    var concat := ConcatRows(b.rows, joining);
    digest := b.h.leaf(concat);
    if |joining| == 1 {
      SingleRow(b, joining[0]);
      assert joining == [joining[0]];
      digest := p.leafDigests[digestOf[joining[0]]];
    } else {
      q := p.(leafRows := p.leafRows + [concat], leafDigests := p.leafDigests + [digest],
              leafKeccs := p.leafKeccs + [Stub(4 * |concat|, digest)]);
      LeavesGrow(p, q, b, k, concat);
    }
  }

  /** Builds the proof of an opening, or fails when the opening does not lead to the root. */
  method GenerateChalBatchPath(h: Hasher, dims: seq<Dimensions>, rows: seq<seq<Fp>>, index0: nat, siblings: seq<Digest>, root: Digest)
    returns (r: Option<BatchProof>)
    ensures r.Some? <==> Generates(h, dims, rows, index0, siblings, root)
    ensures r.Some? ==> var b := BatchFor(h, dims, rows, index0);
      r.value.siblings == siblings && r.value.index == 0 && HonestLeaves(r.value, b, b.depth) && HonestLayers(r.value, b, b.depth)
  {
    hide Order, Filter, ConcatRows, Pow2, Log2, Shr, MaxHeight, Batch.At, Batch.Joining, Batch.Leaves, JoinCount, NextPowerOfTwo,
      Remaining, WithHeight, HonestLeaves, HonestLayers, ExtraRows;
    if |dims| != |rows| || |dims| == 0 {
      return None;
    }
    if |siblings| > FRI_MMCS_MAX_DEPTH {
      return None;
    }
    var maxHeight := MaxHeight(dims);
    if !IsPowerOfTwo(maxHeight) {
      return None;
    }
    if index0 >= maxHeight {
      return None;
    }
    var b := BatchFor(h, dims, rows, index0);
    var leaves := HashLeaves(b);
    if leaves.None? {
      return None;
    }
    var p := leaves.value.(siblings := siblings);
    var digestOf := DigestOf(b);
    var atLeaf, remaining := SplitLeaves(b);
    LeavesNotEmpty(b);
    var digest;
    p, digest := HashLeaf(b, p, digestOf, atLeaf);
    assert HonestLayers(p, b, 0) by { NoLayers(p, b); }
    StartOfWalk(b, siblings);
    var step, index, currHeight := 0, index0, maxHeight;
    ghost var depth := b.depth;
    while step < Log2(maxHeight)
      invariant step <= depth && step <= |siblings|
      invariant digest == b.At(siblings, step) && index == Shr(index0, step) && currHeight == Pow2(depth - step)
      invariant Remaining(b, remaining, step) && Below(remaining, |dims|)
      invariant p.siblings == siblings && HonestLeaves(p, b, step) && HonestLayers(p, b, step)
      decreases depth - step
    {
      if step >= |siblings| {
        return None;
      }
      var sib := siblings[step];
      ghost var before := p;
      var (left, right) := if index % 2 == 0 then (digest, sib) else (sib, digest);
      digest := h.compress(left, right);
      ghost var up, place := digest, 0;
      StepUp(b, siblings, step + 1);
      p := p.(sibLayerDigests := p.sibLayerDigests + [digest], sibCompresses := p.sibCompresses + [Stub(64, digest)]);
      SameLeaves(before, p, b, step);
      HalfPower(depth - step);
      ShrStep(index0, step);
      index, currHeight := index / 2, currHeight / 2;
      var joining := WithHeight(dims, remaining, currHeight);
      assert joining == b.Joining(step + 1) by { JoiningIs(b, remaining, step); }
      if joining != [] {
        ghost var was := remaining;
        remaining := Filter(remaining, (i: nat) => i !in joining);
        RemainingAfterJoin(b, was, remaining, joining, step);
        var injDigest;
        p, injDigest := HashJoining(b, p, digestOf, joining, step);
        digest := h.compress(digest, injDigest);
        ghost var hashed := p;
        place := digestOf[joining[0]];
        p := p.(injectDigests := p.injectDigests + [digest], injectCompresses := p.injectCompresses + [Stub(64, digest)],
                injectLeafIndices := p.injectLeafIndices + [digestOf[joining[0]]]);
        SameLeaves(hashed, p, b, step + 1);
      } else {
        NoExtra(p, b, step);
        RemainingWeakens(b, remaining, step);
      }
      assert digest == b.At(siblings, step + 1) by { StepAt(b, siblings, step + 1, up); }
      LayersGrow(before, p, b, step, up, digest, place);
      step := step + 1;
    }
    if step != |siblings| {
      return None;
    }
    if digest != root {
      return None;
    }
    IndexRunsOut(index0, depth);
    IndexIsFree(p, index, b);
    SameLeaves(p, p.(index := index), b, depth);
    return Some(p.(index := index));
  }

  lemma IndexRunsOut(index: nat, depth: nat)
    requires index < Pow2(depth)
    ensures Shr(index, depth) == 0
  {
    hide Shr;
    ShrBound(index, depth, 0);
  }

  lemma NoLayers(p: BatchProof, b: Batch)
    requires |b.dims| == |b.rows|
    requires p.sibCompresses == [] && p.sibLayerDigests == [] && p.injectCompresses == [] && p.injectDigests == [] && p.injectLeafIndices == []
    ensures HonestLayers(p, b, 0)
  {
  }

  lemma NoExtra(p: BatchProof, b: Batch, k: nat)
    requires |b.dims| == |b.rows| && k < b.depth && b.Joining(k + 1) == [] && HonestLeaves(p, b, k)
    ensures HonestLeaves(p, b, k + 1)
  {
    hide Order, Batch.Joining;
  }

  lemma SameLeaves(p: BatchProof, q: BatchProof, b: Batch, k: nat)
    requires |b.dims| == |b.rows| && k <= b.depth && HonestLeaves(p, b, k)
    requires q.leafRows == p.leafRows && q.leafDigests == p.leafDigests && q.leafKeccs == p.leafKeccs
    ensures HonestLeaves(q, b, k)
  {
    hide Order, Filter, ConcatRows, Batch.Leaves;
  }

  lemma StartOfWalk(b: Batch, sibs: seq<Digest>)
    requires |b.dims| == |b.rows|
    ensures b.At(sibs, 0) == b.HashOf(b.Leaves())
    ensures Shr(b.index, 0) == b.index && JoinCount(b, 0) == 0
  {
  }

  lemma StepUp(b: Batch, sibs: seq<Digest>, k: nat)
    requires |b.dims| == |b.rows| && 0 < k <= b.depth && k <= |sibs|
    ensures b.Up(sibs, k) == if Shr(b.index, k - 1) % 2 == 0 then b.h.compress(b.At(sibs, k - 1), sibs[k - 1])
                             else b.h.compress(sibs[k - 1], b.At(sibs, k - 1))
  {
    hide Shr, Batch.At;
  }

  lemma StepAt(b: Batch, sibs: seq<Digest>, k: nat, up: Digest)
    requires |b.dims| == |b.rows| && 0 < k <= b.depth && k <= |sibs| && up == b.Up(sibs, k)
    ensures b.At(sibs, k) == if b.Joining(k) == [] then up else b.h.compress(up, b.HashOf(b.Joining(k)))
    ensures JoinCount(b, k) == JoinCount(b, k - 1) + (if b.Joining(k) == [] then 0 else 1)
  {
    hide Batch.Up, Batch.Joining, Order, Filter, ConcatRows;
  }

  lemma JoiningIs(b: Batch, remaining: seq<nat>, k: nat)
    requires k < b.depth && Remaining(b, remaining, k)
    ensures WithHeight(b.dims, remaining, Pow2(b.depth - k - 1)) == b.Joining(k + 1)
  {
    hide WithHeight;
  }

  lemma RemainingWeakens(b: Batch, remaining: seq<nat>, k: nat)
    requires Remaining(b, remaining, k)
    ensures Remaining(b, remaining, k + 1)
  {
    hide WithHeight;
  }

  /** One more step of honest layers. */
  lemma LayersGrow(p: BatchProof, q: BatchProof, b: Batch, k: nat, up: Digest, at: Digest, place: nat)
    requires |b.dims| == |b.rows| && k < b.depth && k < |p.siblings| && HonestLayers(p, b, k)
    requires q.siblings == p.siblings && up == b.Up(p.siblings, k + 1) && at == b.At(p.siblings, k + 1)
    requires q.sibLayerDigests == p.sibLayerDigests + [up] && q.sibCompresses == p.sibCompresses + [Stub(64, up)]
    requires if b.Joining(k + 1) == [] then
        q.injectDigests == p.injectDigests && q.injectCompresses == p.injectCompresses && q.injectLeafIndices == p.injectLeafIndices
      else
        q.injectDigests == p.injectDigests + [at] && q.injectCompresses == p.injectCompresses + [Stub(64, at)]
        && q.injectLeafIndices == p.injectLeafIndices + [place]
        && place < |b.dims| && b.Sorted()[place] == b.Joining(k + 1)[0]
    ensures HonestLayers(q, b, k + 1)
  {
    hide Batch.Up, Batch.At, Batch.Joining, Batch.Sorted;
    forall j: nat | 0 < j <= k + 1
      ensures SibEntry(q, b, j) && InjectEntry(q, b, j) && Recorded(q, b, j)
    {
      if j <= k {
        assert SibEntry(p, b, j) && InjectEntry(p, b, j) && Recorded(p, b, j);
        JoinCountMonotone(b, j, k);
      }
    }
  }

  lemma LeavesGrow(p: BatchProof, q: BatchProof, b: Batch, k: nat, concat: seq<Fp>)
    requires |b.dims| == |b.rows| && k < b.depth && HonestLeaves(p, b, k)
    requires |b.Joining(k + 1)| > 1 && concat == ConcatRows(b.rows, b.Joining(k + 1))
    requires q.leafRows == p.leafRows + [concat] && q.leafDigests == p.leafDigests + [b.h.leaf(concat)]
    requires q.leafKeccs == p.leafKeccs + [Stub(4 * |concat|, b.h.leaf(concat))]
    ensures HonestLeaves(q, b, k + 1)
  {
    hide Order, Batch.Joining, ConcatRows;
  }

  lemma IndexIsFree(p: BatchProof, index: nat, b: Batch)
    requires |b.dims| == |b.rows| && HonestLayers(p, b, b.depth)
    ensures HonestLayers(p.(index := index), b, b.depth)
  {
    hide Batch.Up, Batch.At, Batch.Joining, JoinCount;
    var q := p.(index := index);
    forall j: nat | 0 < j <= b.depth
      ensures SibEntry(q, b, j) && InjectEntry(q, b, j) && Recorded(q, b, j)
    {
      assert SibEntry(p, b, j) && InjectEntry(p, b, j) && Recorded(p, b, j);
    }
  }

  // ---- What the verifiers accept ----

  /** Entry pos holds the row of its matrix. */
  ghost predicate RowEntry(p: BatchProof, b: Batch, pos: nat)
    requires |b.dims| == |b.rows| && pos < |b.dims|
  {
    pos < |p.leafRows| && p.leafRows[pos] == b.rows[b.Sorted()[pos]]
  }

  /** And its digests are the hash of that row. */
  ghost predicate LeafEntry(p: BatchProof, b: Batch, pos: nat)
    requires |b.dims| == |b.rows| && pos < |b.dims|
  {
    && RowEntry(p, b, pos) && pos < |p.leafDigests| && pos < |p.leafKeccs|
    && p.leafDigests[pos] == b.h.leaf(p.leafRows[pos]) && p.leafKeccs[pos].digest == p.leafDigests[pos]
  }

  ghost predicate ExtraEntry(p: BatchProof, b: Batch, claimed: Digest, pos: nat) {
    && pos < |p.leafRows| && pos < |p.leafDigests| && pos < |p.leafKeccs|
    && p.leafDigests[pos] == claimed && b.h.leaf(p.leafRows[pos]) == claimed && p.leafKeccs[pos].digest == claimed
  }

  /** An entry past the rows shows the digest. */
  ghost predicate HasExtra(p: BatchProof, b: Batch, claimed: Digest) {
    exists pos: nat :: pos >= |b.dims| && ExtraEntry(p, b, claimed, pos)
  }

  ghost predicate Shaped(dims: seq<Dimensions>, rows: seq<seq<Fp>>) {
    |dims| == |rows| && |dims| > 0 && IsPowerOfTwo(MaxHeight(dims))
  }

  /** Exactly what the replay verifier accepts. */
  ghost predicate ReplayAccepts(p: BatchProof, b: Batch, root: Digest)
    requires |b.dims| == |b.rows|
  {
    && (forall pos: nat :: pos < |b.dims| ==> LeafEntry(p, b, pos))
    && (|b.Leaves()| != 1 ==> HasExtra(p, b, b.HashOf(b.Leaves())))
    && (forall k: nat :: 0 < k <= b.depth ==> SibEntry(p, b, k))
    && (forall k: nat :: 0 < k <= b.depth ==> InjectEntry(p, b, k))
    && b.Opens(p.siblings, root)
  }

  /** Without stubs: the layer digests alone. */
  ghost predicate SibDigest(p: BatchProof, b: Batch, k: nat)
    requires |b.dims| == |b.rows| && 0 < k <= b.depth
  {
    k <= |p.siblings| && k <= |p.sibLayerDigests| && p.sibLayerDigests[k - 1] == b.Up(p.siblings, k)
  }

  ghost predicate InjectDigest(p: BatchProof, b: Batch, k: nat)
    requires |b.dims| == |b.rows| && 0 < k <= b.depth
  {
    b.Joining(k) != [] ==>
      (var c := JoinCount(b, k) - 1;
       k <= |p.siblings| && c < |p.injectDigests| && p.injectDigests[c] == b.At(p.siblings, k))
  }

  /** Exactly what the digest verifier accepts, with and without digests on the wire. */
  ghost predicate DigestsAccept(p: BatchProof, b: Batch, root: Digest)
    requires |b.dims| == |b.rows|
  {
    && (forall pos: nat :: pos < |b.dims| ==> RowEntry(p, b, pos))
    && b.Opens(p.siblings, root)
    && (if p.leafDigests == [] then |p.injectLeafIndices| == JoinCount(b, b.depth)
        else
          && (forall pos: nat :: pos < |b.dims| ==> LeafEntry(p, b, pos))
          && (|b.Leaves()| != 1 ==> HasExtra(p, b, b.HashOf(b.Leaves())))
          && (forall k: nat :: 0 < k <= b.depth ==> SibDigest(p, b, k))
          && (forall k: nat :: 0 < k <= b.depth ==> InjectDigest(p, b, k))
          && |p.injectDigests| == JoinCount(b, b.depth))
  }

  // ---- The replay verifier ----

  /** Scans the entries past the rows; a read past the digests panics. */
  method FindExtra(p: BatchProof, b: Batch, claimed: Digest) returns (v: Verdict)
    requires |b.dims| <= |p.leafRows|
    ensures v == Accepted <==> HasExtra(p, b, claimed)
  {
    for i := |b.dims| to |p.leafRows|
      invariant forall pos: nat :: |b.dims| <= pos < i ==> !ExtraEntry(p, b, claimed, pos) && pos < |p.leafDigests|
    {
      if i >= |p.leafDigests| {
        return Panicked;
      }
      if p.leafDigests[i] == claimed && b.h.leaf(p.leafRows[i]) == claimed {
        if i >= |p.leafKeccs| {
          assert !HasExtra(p, b, claimed);
          return Panicked;
        }
        if p.leafKeccs[i].digest == claimed {
          assert ExtraEntry(p, b, claimed, i);
          return Accepted;
        }
      }
    }
    return Rejected;
  }

  /** The row of every matrix, tallest first, with its digest and stub. */
  method ReplayLeaves(b: Batch, p: BatchProof) returns (v: Verdict)
    requires |b.dims| == |b.rows|
    ensures v == Accepted <==> forall pos: nat :: pos < |b.dims| ==> LeafEntry(p, b, pos)
  {
    hide Order;
    var order := b.Sorted();
    if |p.leafKeccs| < |b.dims| {
      assert !LeafEntry(p, b, |p.leafKeccs|);
      return Rejected;
    }
    for i := 0 to |order|
      invariant forall pos: nat :: pos < i ==> LeafEntry(p, b, pos)
    {
      if i >= |p.leafRows| || p.leafRows[i] != b.rows[order[i]] {
        assert !LeafEntry(p, b, i);
        return Rejected;
      }
      if i >= |p.leafDigests| {
        assert !LeafEntry(p, b, i);
        return Panicked;
      }
      if b.h.leaf(p.leafRows[i]) != p.leafDigests[i] || p.leafKeccs[i].digest != p.leafDigests[i] {
        assert !LeafEntry(p, b, i);
        return Rejected;
      }
    }
    return Accepted;
  }

  /** Replays the path from the digests in the proof. */
  method VerifyChalBatchPathReplay(h: Hasher, dims: seq<Dimensions>, rows: seq<seq<Fp>>, index0: nat, root: Digest, p: BatchProof)
    returns (v: Verdict)
    ensures v == Accepted <==> Shaped(dims, rows) && ReplayAccepts(p, BatchFor(h, dims, rows, index0), root)
  {
    hide Order, Filter, ConcatRows, Pow2, Log2, Shr, MaxHeight, Batch.At, Batch.Up, Batch.Joining, Batch.Leaves, JoinCount, NextPowerOfTwo,
      HasExtra, Remaining, WithHeight, ReplayAccepts;
    if |dims| != |rows| {
      return Rejected;
    }
    if |dims| == 0 || !IsPowerOfTwo(MaxHeight(dims)) {
      return Rejected;
    }
    var b := BatchFor(h, dims, rows, index0);
    var leavesOk := ReplayLeaves(b, p);
    if leavesOk != Accepted {
      LeavesNotReplayed(p, b, root);
      return leavesOk;
    }
    var digestOf := DigestOf(b);
    var atLeaf, remaining := SplitLeaves(b);
    assert LeafEntry(p, b, |dims| - 1);
    var digest := h.leaf(ConcatRows(rows, atLeaf));
    if |atLeaf| == 1 {
      SingleRow(b, atLeaf[0]);
      assert atLeaf == [atLeaf[0]];
      assert LeafEntry(p, b, digestOf[atLeaf[0]]);
      digest := p.leafDigests[digestOf[atLeaf[0]]];
    } else {
      var found := FindExtra(p, b, digest);
      if found != Accepted {
        LeavesNotReplayed(p, b, root);
        return found;
      }
    }
    StartOfWalk(b, p.siblings);
    var sibI, injI, index, currHeight := 0, 0, index0, MaxHeight(dims);
    ghost var depth := b.depth;
    while sibI < Log2(MaxHeight(dims))
      invariant sibI <= depth && sibI <= |p.siblings| && injI == JoinCount(b, sibI)
      invariant digest == b.At(p.siblings, sibI) && index == Shr(index0, sibI) && currHeight == Pow2(depth - sibI)
      invariant Remaining(b, remaining, sibI) && Below(remaining, |dims|)
      invariant forall k: nat :: 0 < k <= sibI ==> SibEntry(p, b, k)
      invariant forall k: nat :: 0 < k <= sibI ==> InjectEntry(p, b, k)
      decreases depth - sibI
    {
      ghost var k := sibI + 1;
      if sibI >= |p.siblings| || sibI >= |p.sibCompresses| {
        NotReplayed(p, b, root, k);
        return Rejected;
      }
      var sib := p.siblings[sibI];
      var (left, right) := if index % 2 == 0 then (digest, sib) else (sib, digest);
      StepUp(b, p.siblings, k);
      if sibI >= |p.sibLayerDigests| {
        NotReplayed(p, b, root, k);
        return Panicked;
      }
      var claimed := p.sibLayerDigests[sibI];
      if h.compress(left, right) != claimed || p.sibCompresses[sibI].digest != claimed {
        NotReplayed(p, b, root, k);
        return Rejected;
      }
      digest := claimed;
      HalfPower(depth - sibI);
      ShrStep(index0, sibI);
      index, currHeight := index / 2, currHeight / 2;
      var joining := WithHeight(dims, remaining, currHeight);
      assert joining == b.Joining(k) by { JoiningIs(b, remaining, sibI); }
      StepAt(b, p.siblings, k, digest);
      if joining != [] {
        ghost var was := remaining;
        remaining := Filter(remaining, (i: nat) => i !in joining);
        RemainingAfterJoin(b, was, remaining, joining, sibI);
        var injDigest := h.leaf(ConcatRows(rows, joining));
        if |joining| == 1 {
          SingleRow(b, joining[0]);
          assert joining == [joining[0]];
          assert LeafEntry(p, b, digestOf[joining[0]]);
          injDigest := p.leafDigests[digestOf[joining[0]]];
        }
        if injI >= |p.injectCompresses| {
          NotReplayed(p, b, root, k);
          return Rejected;
        }
        if injI >= |p.injectDigests| {
          NotReplayed(p, b, root, k);
          return Panicked;
        }
        var claimedInj := p.injectDigests[injI];
        if h.compress(digest, injDigest) != claimedInj || p.injectCompresses[injI].digest != claimedInj {
          NotReplayed(p, b, root, k);
          return Rejected;
        }
        digest := claimedInj;
        injI := injI + 1;
      } else {
        RemainingWeakens(b, remaining, sibI);
      }
      sibI := sibI + 1;
    }
    if sibI != |p.siblings| || digest != root {
      RootNotReplayed(p, b, root);
      return Rejected;
    }
    Replayed(p, b, root);
    return Accepted;
  }

  lemma LeavesNotReplayed(p: BatchProof, b: Batch, root: Digest)
    requires |b.dims| == |b.rows|
    requires (exists pos: nat :: pos < |b.dims| && !LeafEntry(p, b, pos)) || (|b.Leaves()| != 1 && !HasExtra(p, b, b.HashOf(b.Leaves())))
    ensures !ReplayAccepts(p, b, root)
  {
  }

  lemma NotReplayed(p: BatchProof, b: Batch, root: Digest, k: nat)
    requires |b.dims| == |b.rows| && 0 < k <= b.depth && (!SibEntry(p, b, k) || !InjectEntry(p, b, k))
    ensures !ReplayAccepts(p, b, root)
  {
    hide SibEntry, InjectEntry;
  }

  lemma RootNotReplayed(p: BatchProof, b: Batch, root: Digest)
    requires |b.dims| == |b.rows| && !b.Opens(p.siblings, root)
    ensures !ReplayAccepts(p, b, root)
  {
  }

  lemma Replayed(p: BatchProof, b: Batch, root: Digest)
    requires |b.dims| == |b.rows| && b.Opens(p.siblings, root)
    requires forall pos: nat :: pos < |b.dims| ==> LeafEntry(p, b, pos)
    requires |b.Leaves()| != 1 ==> HasExtra(p, b, b.HashOf(b.Leaves()))
    requires forall k: nat :: 0 < k <= b.depth ==> SibEntry(p, b, k)
    requires forall k: nat :: 0 < k <= b.depth ==> InjectEntry(p, b, k)
    ensures ReplayAccepts(p, b, root)
  {
    hide SibEntry, InjectEntry, LeafEntry;
  }

  // ---- The digest verifier ----

  /** The row of every matrix, and its digests when they are on the wire. */
  method CheckLeaves(b: Batch, p: BatchProof) returns (ok: bool)
    requires |b.dims| == |b.rows|
    ensures ok <==> && (forall pos: nat :: pos < |b.dims| ==> RowEntry(p, b, pos))
                    && (p.leafDigests != [] ==> forall pos: nat :: pos < |b.dims| ==> LeafEntry(p, b, pos))
  {
    hide Order;
    var order := b.Sorted();
    var onWire := p.leafDigests != [];
    if onWire && (|p.leafKeccs| < |b.dims| || |p.leafDigests| < |b.dims|) {
      assert !LeafEntry(p, b, if |p.leafKeccs| < |b.dims| then |p.leafKeccs| else |p.leafDigests|);
      return false;
    }
    if |p.leafRows| < |b.dims| {
      assert !RowEntry(p, b, |p.leafRows|);
      return false;
    }
    for i := 0 to |order|
      invariant forall pos: nat :: pos < i ==> RowEntry(p, b, pos)
      invariant onWire ==> forall pos: nat :: pos < i ==> LeafEntry(p, b, pos)
    {
      if p.leafRows[i] != b.rows[order[i]] {
        assert !RowEntry(p, b, i);
        return false;
      }
      if onWire && (b.h.leaf(p.leafRows[i]) != p.leafDigests[i] || p.leafKeccs[i].digest != p.leafDigests[i]) {
        assert !LeafEntry(p, b, i);
        return false;
      }
    }
    return true;
  }

  /** Recomputes the digests from the rows, and compares them with those on the wire when
      there are any. */
  method VerifyChalBatchPathDigests(h: Hasher, dims: seq<Dimensions>, rows: seq<seq<Fp>>, index0: nat, root: Digest, p: BatchProof)
    returns (v: Verdict)
    ensures v == Accepted <==> Shaped(dims, rows) && DigestsAccept(p, BatchFor(h, dims, rows, index0), root)
  {
    hide Order, Filter, ConcatRows, Pow2, Log2, Shr, MaxHeight, Batch.At, Batch.Up, Batch.Joining, Batch.Leaves, JoinCount, NextPowerOfTwo,
      HasExtra, Remaining, WithHeight, DigestsAccept;
    if |dims| != |rows| {
      return Rejected;
    }
    if |dims| == 0 || !IsPowerOfTwo(MaxHeight(dims)) {
      return Rejected;
    }
    var b := BatchFor(h, dims, rows, index0);
    var onWire := p.leafDigests != [];
    var leavesOk := CheckLeaves(b, p);
    if !leavesOk {
      LeavesNotDigested(p, b, root);
      return Rejected;
    }
    var digestOf := DigestOf(b);
    var atLeaf, remaining := SplitLeaves(b);
    var digest := h.leaf(ConcatRows(rows, atLeaf));
    if |atLeaf| == 1 {
      SingleRow(b, atLeaf[0]);
      assert atLeaf == [atLeaf[0]];
      assert RowEntry(p, b, digestOf[atLeaf[0]]);
      digest := h.leaf(p.leafRows[digestOf[atLeaf[0]]]);
    } else if onWire {
      assert RowEntry(p, b, |dims| - 1);
      var found := FindExtra(p, b, digest);
      if found != Accepted {
        LeavesNotDigested(p, b, root);
        return found;
      }
    }
    StartOfWalk(b, p.siblings);
    var sibI, injI, index, currHeight := 0, 0, index0, MaxHeight(dims);
    ghost var depth := b.depth;
    while sibI < Log2(MaxHeight(dims))
      invariant sibI <= depth && sibI <= |p.siblings| && injI == JoinCount(b, sibI)
      invariant digest == b.At(p.siblings, sibI) && index == Shr(index0, sibI) && currHeight == Pow2(depth - sibI)
      invariant Remaining(b, remaining, sibI) && Below(remaining, |dims|)
      invariant onWire ==> forall k: nat :: 0 < k <= sibI ==> SibDigest(p, b, k)
      invariant onWire ==> forall k: nat :: 0 < k <= sibI ==> InjectDigest(p, b, k)
      decreases depth - sibI
    {
      ghost var k := sibI + 1;
      JoinCountMonotone(b, k, depth);
      if sibI >= |p.siblings| {
        RootNotDigested(p, b, root);
        return Rejected;
      }
      if onWire && sibI >= |p.sibLayerDigests| {
        NotDigested(p, b, root, k);
        return Rejected;
      }
      var sib := p.siblings[sibI];
      var (left, right) := if index % 2 == 0 then (digest, sib) else (sib, digest);
      StepUp(b, p.siblings, k);
      var next := h.compress(left, right);
      if onWire && next != p.sibLayerDigests[sibI] {
        NotDigested(p, b, root, k);
        return Rejected;
      }
      digest := next;
      HalfPower(depth - sibI);
      ShrStep(index0, sibI);
      index, currHeight := index / 2, currHeight / 2;
      var joining := WithHeight(dims, remaining, currHeight);
      assert joining == b.Joining(k) by { JoiningIs(b, remaining, sibI); }
      StepAt(b, p.siblings, k, digest);
      if joining != [] {
        ghost var was := remaining;
        remaining := Filter(remaining, (i: nat) => i !in joining);
        RemainingAfterJoin(b, was, remaining, joining, sibI);
        var injDigest := h.leaf(ConcatRows(rows, joining));
        if |joining| == 1 {
          SingleRow(b, joining[0]);
          assert joining == [joining[0]];
          assert RowEntry(p, b, digestOf[joining[0]]);
          injDigest := h.leaf(p.leafRows[digestOf[joining[0]]]);
        }
        var nextInj := h.compress(digest, injDigest);
        if onWire {
          if injI >= |p.injectDigests| {
            NotDigested(p, b, root, k);
            return Rejected;
          }
          if nextInj != p.injectDigests[injI] {
            NotDigested(p, b, root, k);
            return Rejected;
          }
        } else if injI >= |p.injectLeafIndices| {
          CountNotDigested(p, b, root);
          return Rejected;
        }
        digest := nextInj;
        injI := injI + 1;
      } else {
        RemainingWeakens(b, remaining, sibI);
      }
      sibI := sibI + 1;
    }
    if sibI != |p.siblings| || digest != root {
      RootNotDigested(p, b, root);
      return Rejected;
    }
    if onWire && injI != |p.injectDigests| {
      CountNotDigested(p, b, root);
      return Rejected;
    }
    if !onWire && injI != |p.injectLeafIndices| {
      CountNotDigested(p, b, root);
      return Rejected;
    }
    Digested(p, b, root);
    return Accepted;
  }

  lemma LeavesNotDigested(p: BatchProof, b: Batch, root: Digest)
    requires |b.dims| == |b.rows|
    requires || (exists pos: nat :: pos < |b.dims| && !RowEntry(p, b, pos))
             || (p.leafDigests != [] && exists pos: nat :: pos < |b.dims| && !LeafEntry(p, b, pos))
             || (p.leafDigests != [] && |b.Leaves()| != 1 && !HasExtra(p, b, b.HashOf(b.Leaves())))
    ensures !DigestsAccept(p, b, root)
  {
  }

  lemma NotDigested(p: BatchProof, b: Batch, root: Digest, k: nat)
    requires |b.dims| == |b.rows| && p.leafDigests != []
    requires 0 < k <= b.depth && (!SibDigest(p, b, k) || !InjectDigest(p, b, k))
    ensures !DigestsAccept(p, b, root)
  {
    hide SibDigest, InjectDigest;
  }

  lemma RootNotDigested(p: BatchProof, b: Batch, root: Digest)
    requires |b.dims| == |b.rows| && !b.Opens(p.siblings, root)
    ensures !DigestsAccept(p, b, root)
  {
  }

  lemma CountNotDigested(p: BatchProof, b: Batch, root: Digest)
    requires |b.dims| == |b.rows|
    requires JoinCount(b, b.depth) != if p.leafDigests == [] then |p.injectLeafIndices| else |p.injectDigests|
    ensures !DigestsAccept(p, b, root)
  {
    hide JoinCount;
  }

  lemma Digested(p: BatchProof, b: Batch, root: Digest)
    requires |b.dims| == |b.rows| && b.Opens(p.siblings, root)
    requires forall pos: nat :: pos < |b.dims| ==> RowEntry(p, b, pos)
    requires p.leafDigests != [] ==> forall pos: nat :: pos < |b.dims| ==> LeafEntry(p, b, pos)
    requires p.leafDigests != [] && |b.Leaves()| != 1 ==> HasExtra(p, b, b.HashOf(b.Leaves()))
    requires p.leafDigests != [] ==> forall k: nat :: 0 < k <= b.depth ==> SibDigest(p, b, k)
    requires p.leafDigests != [] ==> forall k: nat :: 0 < k <= b.depth ==> InjectDigest(p, b, k)
    requires JoinCount(b, b.depth) == if p.leafDigests == [] then |p.injectLeafIndices| else |p.injectDigests|
    ensures DigestsAccept(p, b, root)
  {
    hide SibDigest, InjectDigest, LeafEntry, RowEntry;
  }

  // ---- The verifiers against the generator and each other ----

  /** The proof with every digest and stub left off the wire. */
  function Stripped(p: BatchProof): BatchProof {
    p.(leafKeccs := [], leafDigests := [], sibCompresses := [], sibLayerDigests := [], injectCompresses := [], injectDigests := [])
  }

  /** Completeness: what the generator produces is accepted by the replay verifier, and by
      the digest verifier with and without the digests. */
  lemma GeneratedIsAccepted(h: Hasher, dims: seq<Dimensions>, rows: seq<seq<Fp>>, index: nat, root: Digest, p: BatchProof)
    requires Generates(h, dims, rows, index, p.siblings, root)
    requires var b := BatchFor(h, dims, rows, index); HonestLeaves(p, b, b.depth) && HonestLayers(p, b, b.depth)
    ensures Shaped(dims, rows)
    ensures var b := BatchFor(h, dims, rows, index);
      ReplayAccepts(p, b, root) && DigestsAccept(p, b, root) && DigestsAccept(Stripped(p), b, root)
  {
    hide Order, Filter, ConcatRows, Pow2, Log2, MaxHeight, Batch.At, Batch.Up, Batch.Joining, Batch.Leaves, JoinCount, NextPowerOfTwo, ExtraRows;
    var b := BatchFor(h, dims, rows, index);
    forall pos: nat | pos < |dims|
      ensures LeafEntry(p, b, pos) && RowEntry(p, b, pos) && RowEntry(Stripped(p), b, pos)
    {
    }
    if |b.Leaves()| != 1 {
      FirstExtra(b, b.depth);
      assert p.leafRows[|b.dims|] == p.leafRows[|b.dims|..][0];
      assert ExtraEntry(p, b, b.HashOf(b.Leaves()), |b.dims|);
    }
    forall k: nat | 0 < k <= b.depth
      ensures SibDigest(p, b, k) && InjectDigest(p, b, k)
    {
      assert SibEntry(p, b, k) && InjectEntry(p, b, k);
    }
  }

  /** Soundness: whatever either verifier accepts opens the given rows to the root. */
  lemma AcceptedOpens(p: BatchProof, b: Batch, root: Digest)
    requires |b.dims| == |b.rows| && (ReplayAccepts(p, b, root) || DigestsAccept(p, b, root))
    ensures b.Opens(p.siblings, root)
  {
  }

  /** Two accepted proofs, by either verifier, for the same shape, index and root: the
      absorbed rows agree exactly when their widths do, or a collision is at hand. */
  lemma AcceptedBind(b: Batch, c: Batch, p: BatchProof, q: BatchProof, root: Digest) returns (r: Collision)
    requires SameShape(b, c)
    requires ReplayAccepts(p, b, root) || DigestsAccept(p, b, root)
    requires ReplayAccepts(q, c, root) || DigestsAccept(q, c, root)
    ensures r.Real(b.h) || (r == NoCollision && SameHashed(b, c, b.depth))
    ensures r == NoCollision ==> (AbsorbedRowsSame(b, c) <==> AbsorbedWidthsSame(b, c))
  {
    AcceptedOpens(p, b, root);
    AcceptedOpens(q, c, root);
    hide Batch.Opens, ReplayAccepts, DigestsAccept, SameHashed, AbsorbedRowsSame, AbsorbedWidthsSame;
    r := OpeningsBind(b, c, p.siblings, q.siblings, root);
  }

  /** Neither verifier compares row widths with the dimensions: under any hash the rows
      [1, 2], [3] and the rows [1], [2, 3] of two matrices of one height open one root, by
      the replay verifier and, with the digests and without, by the digest verifier. */
  lemma WidthsShift(h: Hasher)
    ensures var dims, root := [Dimensions(2, 1), Dimensions(1, 1)], h.leaf([1, 2, 3]);
      var b, c := BatchFor(h, dims, [[1, 2], [3]], 0), BatchFor(h, dims, [[1], [2, 3]], 0);
      var p, q := OneLevelProof(h, [1, 2], [3]), OneLevelProof(h, [1], [2, 3]);
      && Shaped(dims, b.rows) && Shaped(dims, c.rows)
      && ReplayAccepts(p, b, root) && ReplayAccepts(q, c, root)
      && DigestsAccept(p, b, root) && DigestsAccept(q, c, root)
      && DigestsAccept(Stripped(p), b, root) && DigestsAccept(Stripped(q), c, root)
  {
    hide ReplayAccepts, DigestsAccept, Shaped, Stripped, OneLevelProof, MaxHeight, Log2;
    OneLevel(h, [1, 2], [3]);
    OneLevel(h, [1], [2, 3]);
    assert [1, 2] + [3] == [1, 2, 3] == [1] + [2, 3];
  }

  function Hashed(h: Hasher, row: seq<Fp>): Stub { Stub(4 * |row|, h.leaf(row)) }

  /** The proof the generator records for two rows of height one: both rows and their
      concatenation, with stubs and digests. */
  function OneLevelProof(h: Hasher, x: seq<Fp>, y: seq<Fp>): BatchProof {
    BatchProof(0, [], [x, y, x + y], [Hashed(h, x), Hashed(h, y), Hashed(h, x + y)], [h.leaf(x), h.leaf(y), h.leaf(x + y)],
               [], [], [], [], [])
  }

  lemma OneLevelShape(h: Hasher, x: seq<Fp>, y: seq<Fp>)
    ensures var dims := [Dimensions(2, 1), Dimensions(1, 1)]; var b := BatchFor(h, dims, [x, y], 0);
      && Shaped(dims, b.rows) && b.Valid() && b.depth == 0 && b.Sorted() == [0, 1] && b.Leaves() == [0, 1] && ConcatRows(b.rows, [0, 1]) == x + y
  {
    var dims := [Dimensions(2, 1), Dimensions(1, 1)];
    assert dims[..1][..0] == [] && MaxHeight(dims[..1]) == 1 && MaxHeight(dims) == 1;
    Log2OfPower(0);
    NextOfPower(0);
    var b := BatchFor(h, dims, [x, y], 0);
    assert b.Sorted() == [0, 1] by {
      assert Order(dims, 0) == [] && Order(dims, 1) == [0];
      assert [0][1..] == [];
    }
    assert b.Leaves() == [0, 1] by {
      assert [0, 1][1..] == [1] && [1][1..] == [];
    }
    assert ConcatRows(b.rows, [0, 1]) == x + y by {
      assert [0, 1][1..] == [1] && [1][1..] == [];
      assert ConcatRows(b.rows, [1]) == y;
    }
  }

  lemma OneLevel(h: Hasher, x: seq<Fp>, y: seq<Fp>)
    ensures var dims := [Dimensions(2, 1), Dimensions(1, 1)]; var b, p := BatchFor(h, dims, [x, y], 0), OneLevelProof(h, x, y);
      && Shaped(dims, b.rows) && b.depth == 0 && HonestLeaves(p, b, 0) && ReplayAccepts(p, b, h.leaf(x + y))
      && DigestsAccept(p, b, h.leaf(x + y)) && DigestsAccept(Stripped(p), b, h.leaf(x + y))
  {
    hide Order, Filter, MaxHeight, NextPowerOfTwo, Log2, ConcatRows, Batch.Sorted, Batch.Leaves, IsPowerOfTwo;
    OneLevelShape(h, x, y);
    var b, p := BatchFor(h, [Dimensions(2, 1), Dimensions(1, 1)], [x, y], 0), OneLevelProof(h, x, y);
    assert LeafEntry(p, b, 0) && LeafEntry(p, b, 1) && ExtraEntry(p, b, h.leaf(x + y), 2);
    assert p.leafRows[2..] == [x + y];
    assert RowEntry(Stripped(p), b, 0) && RowEntry(Stripped(p), b, 1);
  }

  /** Replacing a row that is not absorbed, at its width, leaves the generator's success,
      and with it both verifiers' acceptance, as they were. */
  lemma UnabsorbedGenerates(h: Hasher, dims: seq<Dimensions>, rows: seq<seq<Fp>>, index: nat, siblings: seq<Digest>, root: Digest,
                            i: nat, row: seq<Fp>)
    requires Generates(h, dims, rows, index, siblings, root) && i < |dims| && |row| == dims[i].width
    requires !IsAbsorbed(BatchFor(h, dims, rows, index), i)
    ensures i < |rows| && Generates(h, dims, rows[i := row], index, siblings, root)
  {
    hide IsAbsorbed, Batch.Opens, Log2, MaxHeight;
    var b := BatchFor(h, dims, rows, index);
    ValidByOpening(b, siblings, root);
    UnabsorbedOpens(b, i, row, siblings, root);
  }

  lemma ValidByOpening(b: Batch, siblings: seq<Digest>, root: Digest)
    requires b.Opens(siblings, root)
    ensures b.Valid()
  {
  }

  /** Completeness from the tree: rows and siblings taken from the full injected tree of
      matrices of power-of-two heights, within the depth limit, generate a proof that the
      replay verifier and the digest verifier accept, with its digests and stripped. */
  method OpenFromTree(h: Hasher, dims: seq<Dimensions>, rows: seq<seq<Fp>>, ghost mats: seq<Matrix>, index: nat,
                      siblings: seq<Digest>, root: Digest) returns (p: BatchProof, replayed: Verdict, digested: Verdict, stripped: Verdict)
    requires OpensMatrices(BatchFor(h, dims, rows, index), mats)
    requires siblings == Siblings(BatchFor(h, dims, rows, index), mats) && |siblings| <= FRI_MMCS_MAX_DEPTH
    requires root == Node(BatchFor(h, dims, rows, index), mats, BatchFor(h, dims, rows, index).depth, 0)
    requires forall i :: 0 <= i < |dims| && i < |rows| ==> |rows[i]| == dims[i].width
    ensures p.siblings == siblings && replayed == digested == stripped == Accepted
  {
    hide OpensMatrices, Siblings, Node, Generates, ReplayAccepts, DigestsAccept, HonestLeaves, HonestLayers, Shaped;
    TreeGenerates(h, dims, rows, mats, index);
    var r := GenerateChalBatchPath(h, dims, rows, index, siblings, root);
    p := r.value;
    GeneratedIsAccepted(h, dims, rows, index, root, p);
    replayed := VerifyChalBatchPathReplay(h, dims, rows, index, root, p);
    digested := VerifyChalBatchPathDigests(h, dims, rows, index, root, p);
    stripped := VerifyChalBatchPathDigests(h, dims, rows, index, root, Stripped(p));
  }

  /** The generator's checks hold of rows and siblings taken from the tree. */
  lemma TreeGenerates(h: Hasher, dims: seq<Dimensions>, rows: seq<seq<Fp>>, mats: seq<Matrix>, index: nat)
    requires OpensMatrices(BatchFor(h, dims, rows, index), mats)
    requires |Siblings(BatchFor(h, dims, rows, index), mats)| <= FRI_MMCS_MAX_DEPTH
    requires forall i :: 0 <= i < |dims| && i < |rows| ==> |rows[i]| == dims[i].width
    ensures var b := BatchFor(h, dims, rows, index);
      Generates(h, dims, rows, index, Siblings(b, mats), Node(b, mats, b.depth, 0))
  {
    hide Siblings, Node, Batch.Opens, Log2, MaxHeight, Shr, RowOpenedSomewhere;
    var b := BatchFor(h, dims, rows, index);
    TreeOpens(b, mats);
    ValidByOpening(b, Siblings(b, mats), Node(b, mats, b.depth, 0));
    Log2OfPower(b.depth);
  }

  /** Entry k of the stubs carries digest k. */
  ghost predicate StubAt(stubs: seq<Stub>, digests: seq<Digest>, k: nat) {
    k < |stubs| && k < |digests| && stubs[k].digest == digests[k]
  }

  /** Every hash step's stub carries the digest of its layer. */
  ghost predicate StubsMatch(p: BatchProof, b: Batch) {
    && (forall k: nat :: k < b.depth ==> StubAt(p.sibCompresses, p.sibLayerDigests, k))
    && (forall c: nat :: c < JoinCount(b, b.depth) ==> StubAt(p.injectCompresses, p.injectDigests, c))
  }

  lemma {:induction false} JoinOfCount(b: Batch, c: nat, k: nat) returns (j: nat)
    requires k <= b.depth && c < JoinCount(b, k)
    ensures 0 < j <= k && b.Joining(j) != [] && JoinCount(b, j) == c + 1
  {
    hide Batch.Joining;
    if c < JoinCount(b, k - 1) {
      j := JoinOfCount(b, c, k - 1);
    } else {
      j := k;
    }
  }

  /** With digests on the wire the two verifiers differ only in the stubs, which the
      digest verifier ignores, and in surplus injections, which the replay ignores. */
  lemma VerifiersAgree(p: BatchProof, b: Batch, root: Digest)
    requires |b.dims| == |b.rows| && |b.dims| > 0 && p.leafDigests != []
    ensures ReplayAccepts(p, b, root) && |p.injectDigests| == JoinCount(b, b.depth) <==> DigestsAccept(p, b, root) && StubsMatch(p, b)
  {
    hide Order, Filter, ConcatRows, Batch.At, Batch.Up, Batch.Joining, Batch.Leaves, HasExtra, Batch.Opens, LeafEntry, RowEntry;
    if ReplayAccepts(p, b, root) && |p.injectDigests| == JoinCount(b, b.depth) {
      ReplayToDigests(p, b, root);
    }
    if DigestsAccept(p, b, root) && StubsMatch(p, b) {
      forall k: nat | 0 < k <= b.depth
        ensures SibEntry(p, b, k) && InjectEntry(p, b, k)
      {
        assert SibDigest(p, b, k) && InjectDigest(p, b, k);
        JoinCountMonotone(b, k, b.depth);
        assert StubAt(p.sibCompresses, p.sibLayerDigests, k - 1);
        if b.Joining(k) != [] {
          assert StubAt(p.injectCompresses, p.injectDigests, JoinCount(b, k) - 1);
        }
      }
    }
  }

  lemma ReplayToDigests(p: BatchProof, b: Batch, root: Digest)
    requires |b.dims| == |b.rows| && p.leafDigests != []
    requires ReplayAccepts(p, b, root) && |p.injectDigests| == JoinCount(b, b.depth)
    ensures DigestsAccept(p, b, root) && StubsMatch(p, b)
  {
    hide Order, Filter, ConcatRows, Batch.At, Batch.Up, Batch.Joining, Batch.Leaves, HasExtra, Batch.Opens;
    forall pos: nat | pos < |b.dims|
      ensures RowEntry(p, b, pos)
    {
      assert LeafEntry(p, b, pos);
    }
    forall k: nat | 0 < k <= b.depth
      ensures SibDigest(p, b, k) && InjectDigest(p, b, k)
    {
      assert SibEntry(p, b, k) && InjectEntry(p, b, k);
    }
    forall k: nat | k < b.depth
      ensures StubAt(p.sibCompresses, p.sibLayerDigests, k)
    {
      assert SibEntry(p, b, k + 1);
    }
    forall c: nat | c < JoinCount(b, b.depth)
      ensures StubAt(p.injectCompresses, p.injectDigests, c)
    {
      var j := JoinOfCount(b, c, b.depth);
      assert InjectEntry(p, b, j);
    }
  }
}
