/** Single-matrix Merkle paths. */
module MerklePath {

  import opened Options
  import opened M31
  import opened PowersOfTwo
  import opened MerkleBatch
  import opened MerkleOpenings

  datatype FriMmcsPathProof = FriMmcsPathProof(depth: nat, leafWidth: nat, leafDigest: Digest, layerDigests: seq<Digest>,
                                               leafKeccak: Stub, compressStarks: seq<Stub>)

  /** The digest k levels up from a leaf digest. */
  function PathDigest(h: Hasher, leaf: Digest, siblings: seq<Digest>, index: nat, k: nat): Digest
    requires k <= |siblings|
  {
    if k == 0 then leaf
    else
      var d := PathDigest(h, leaf, siblings, index, k - 1);
      if Shr(index, k - 1) % 2 == 0 then h.compress(d, siblings[k - 1]) else h.compress(siblings[k - 1], d)
  }

  method MerkleRootFromPath(h: Hasher, leafDigest: Digest, siblings: seq<Digest>, index0: nat) returns (digest: Digest)
    ensures digest == PathDigest(h, leafDigest, siblings, index0, |siblings|)
  {
    hide Shr;
    digest := leafDigest;
    var index := index0;
    ShrNone(index0);
    for i := 0 to |siblings|
      invariant digest == PathDigest(h, leafDigest, siblings, index0, i) && index == Shr(index0, i)
    {
      ShrStep(index0, i);
      digest := if index % 2 == 0 then h.compress(digest, siblings[i]) else h.compress(siblings[i], digest);
      index := index / 2;
    }
  }

  /** The digests of every layer, with matching stubs. */
  ghost predicate Layers(h: Hasher, row: seq<Fp>, siblings: seq<Digest>, index: nat, digests: seq<Digest>, starks: seq<Stub>, n: nat)
    requires n <= |siblings|
  {
    && n <= |digests| && n <= |starks|
    && forall k: nat :: k < n ==>
         digests[k] == PathDigest(h, h.leaf(row), siblings, index, k + 1) && starks[k].digest == digests[k]
  }

  ghost predicate DepthOk(n: nat) { 0 < n <= FRI_MMCS_MAX_DEPTH }

  method GenerateFriMmcsPathProof(h: Hasher, row: seq<Fp>, siblings: seq<Digest>, index: nat, root: Digest)
    returns (r: Option<FriMmcsPathProof>)
    ensures r.Some? <==> 1 <= |siblings| <= 20 && PathDigest(h, h.leaf(row), siblings, index, |siblings|) == root
    ensures r.Some? ==> PathVerifies(h, row, siblings, index, root, r.value)
    ensures r.Some? ==> r.value.leafKeccak.msgLen == 4 * |row|
    ensures r.Some? ==> forall s :: s in r.value.compressStarks ==> s.msgLen == 64
  {
    hide Shr;
    var depth := |siblings|;
    if depth == 0 || depth > FRI_MMCS_MAX_DEPTH {
      return None;
    }
    var leafDigest := h.leaf(row);
    var digest, idx := leafDigest, index;
    var digests: seq<Digest>, starks: seq<Stub> := [], [];
    ShrNone(index);
    for i := 0 to depth
      invariant digest == PathDigest(h, leafDigest, siblings, index, i) && idx == Shr(index, i)
      invariant |digests| == |starks| == i && Layers(h, row, siblings, index, digests, starks, i)
      invariant forall s :: s in starks ==> s.msgLen == 64
    {
      ShrStep(index, i);
      var (left, right) := if idx % 2 == 0 then (digest, siblings[i]) else (siblings[i], digest);
      digest := h.compress(left, right);
      digests, starks := digests + [digest], starks + [Stub(64, digest)];
      idx := idx / 2;
    }
    if digest != root {
      return None;
    }
    return Some(FriMmcsPathProof(depth, |row|, leafDigest, digests, Stub(4 * |row|, leafDigest), starks));
  }

  /** What the path verifier accepts: shapes, every digest recomputed, and the root. */
  ghost predicate PathVerifies(h: Hasher, row: seq<Fp>, siblings: seq<Digest>, index: nat, root: Digest, p: FriMmcsPathProof) {
    && |siblings| == |p.layerDigests| == |p.compressStarks| == p.depth && |row| == p.leafWidth && DepthOk(p.depth)
    && p.leafDigest == p.leafKeccak.digest == h.leaf(row)
    && Layers(h, row, siblings, index, p.layerDigests, p.compressStarks, p.depth)
    && PathDigest(h, h.leaf(row), siblings, index, p.depth) == root
  }

  method VerifyFriMmcsPathProof(h: Hasher, row: seq<Fp>, siblings: seq<Digest>, index: nat, root: Digest, p: FriMmcsPathProof)
    returns (ok: bool)
    ensures ok <==> PathVerifies(h, row, siblings, index, root, p)
  {
    hide Shr;
    var depth := p.depth;
    if |siblings| != depth || |p.layerDigests| != depth || |p.compressStarks| != depth || |row| != p.leafWidth
      || depth == 0 || depth > FRI_MMCS_MAX_DEPTH
    {
      return false;
    }
    var leaf := h.leaf(row);
    if leaf != p.leafDigest || leaf != p.leafKeccak.digest {
      return false;
    }
    var digest, idx := leaf, index;
    ShrNone(index);
    for i := 0 to depth
      invariant digest == PathDigest(h, leaf, siblings, index, i) && idx == Shr(index, i)
      invariant Layers(h, row, siblings, index, p.layerDigests, p.compressStarks, i)
    {
      ShrStep(index, i);
      var (left, right) := if idx % 2 == 0 then (digest, siblings[i]) else (siblings[i], digest);
      var next := h.compress(left, right);
      if next != p.layerDigests[i] || next != p.compressStarks[i].digest {
        return false;
      }
      digest := next;
      idx := idx / 2;
    }
    return digest == root;
  }

  /** The single path is the one-matrix batch, so its root is that of merkle_root_from_path. */
  lemma {:induction false} OneMatrixBatch(h: Hasher, width: nat, row: seq<Fp>, siblings: seq<Digest>, index: nat, depth: nat, k: nat)
    requires k <= depth && k <= |siblings|
    ensures Batch(h, [Dimensions(width, Pow2(depth))], [row], index, depth).At(siblings, k)
            == PathDigest(h, h.leaf(row), siblings, index, k)
  {
    hide Shr, NextPowerOfTwo, Pow2;
    var dims := [Dimensions(width, Pow2(depth))];
    var b := Batch(h, dims, [row], index, depth);
    assert Order(dims, 1) == [0] by { assert Order(dims, 0) == []; }
    if k == 0 {
      NextOfPower(depth);
      assert b.Leaves() == [0];
      SingleRow(b, 0);
    } else {
      OneMatrixBatch(h, width, row, siblings, index, depth, k - 1);
      Pow2Strict(depth - k, depth);
      assert b.Joining(k) == [];
    }
  }

  /** The path verifier accepts exactly the proofs of 1 to 20 layers in which every digest
      and every stub is that of the one-matrix batch at its level, up to the root. */
  lemma VerifiesAlongBatch(h: Hasher, row: seq<Fp>, siblings: seq<Digest>, index: nat, root: Digest, p: FriMmcsPathProof, width: nat)
    ensures PathVerifies(h, row, siblings, index, root, p) <==>
      var b := Batch(h, [Dimensions(width, Pow2(p.depth))], [row], index, p.depth);
      && 1 <= p.depth <= 20 && |siblings| == p.depth && |p.layerDigests| == p.depth && |p.compressStarks| == p.depth
      && |row| == p.leafWidth && h.leaf(row) == p.leafDigest && h.leaf(row) == p.leafKeccak.digest
      && (forall k: nat :: k < p.depth ==> b.At(siblings, k + 1) == p.layerDigests[k] && b.At(siblings, k + 1) == p.compressStarks[k].digest)
      && b.At(siblings, p.depth) == root
  {
    hide Shr, Batch.At, PathDigest, Pow2;
    if |siblings| == p.depth {
      forall k: nat | k <= p.depth
        ensures Batch(h, [Dimensions(width, Pow2(p.depth))], [row], index, p.depth).At(siblings, k)
                == PathDigest(h, h.leaf(row), siblings, index, k)
      {
        OneMatrixBatch(h, width, row, siblings, index, p.depth, k);
      }
    }
  }

  /** Acceptance by the path verifier is an opening of the one-matrix batch. */
  lemma PathOpensBatch(h: Hasher, row: seq<Fp>, siblings: seq<Digest>, index: nat, root: Digest, p: FriMmcsPathProof, width: nat)
    requires PathVerifies(h, row, siblings, index, root, p)
    ensures Batch(h, [Dimensions(width, Pow2(p.depth))], [row], index, p.depth).Opens(siblings, root)
  {
    hide Shr, Batch.At, PathDigest, Pow2;
    OneMatrixBatch(h, width, row, siblings, index, p.depth, p.depth);
    var dims := [Dimensions(width, Pow2(p.depth))];
    assert dims[..0] == [];
    assert MaxHeight(dims) == Pow2(p.depth);
  }

  /** Two rows that verify at the same index, depth and root agree, or a collision is at
      hand. */
  lemma PathsBind(h: Hasher, row: seq<Fp>, row': seq<Fp>, siblings: seq<Digest>, siblings': seq<Digest>, index: nat,
                  root: Digest, p: FriMmcsPathProof, q: FriMmcsPathProof) returns (r: Collision)
    requires PathVerifies(h, row, siblings, index, root, p) && PathVerifies(h, row', siblings', index, root, q)
    requires p.depth == q.depth
    ensures r.Real(h) || (r == NoCollision && row == row')
  {
    PathOpensBatch(h, row, siblings, index, root, p, |row|);
    PathOpensBatch(h, row', siblings', index, root, q, |row|);
    hide Batch.Opens, Pow2, ConcatRows, Batch.Leaves;
    var dims := [Dimensions(|row|, Pow2(p.depth))];
    var b, c := Batch(h, dims, [row], index, p.depth), Batch(h, dims, [row'], index, p.depth);
    OneLeaf(b);
    OnlyRow(row);
    OnlyRow(row');
    r := OpeningsBind(b, c, siblings, siblings', root);
  }

  lemma OneLeaf(b: Batch)
    requires |b.dims| == 1 && b.dims[0].height == Pow2(b.depth)
    ensures b.Leaves() == [0]
  {
    hide Pow2, NextPowerOfTwo;
    NextOfPower(b.depth);
    assert Order(b.dims, 0) == [];
    assert b.Sorted() == [0];
  }

  lemma OnlyRow(row: seq<Fp>)
    ensures ConcatRows([row], [0]) == row
  {
    assert [0][1..] == [];
  }
}
