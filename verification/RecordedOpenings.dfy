/** Acceptance of a batch proof, told by the fields of the one the generator records. */
module RecordedOpenings {

  import opened M31
  import opened PowersOfTwo
  import opened MerkleBatch
  import opened MerkleOpenings

  /** g is what the generator records of the opening b with these siblings. */
  ghost predicate Records(g: BatchProof, b: Batch, siblings: seq<Digest>) {
    |b.dims| == |b.rows| && g.siblings == siblings && HonestLeaves(g, b, b.depth) && HonestLayers(g, b, b.depth)
  }

  function Digests(stubs: seq<Stub>): seq<Digest> { seq(|stubs|, k requires 0 <= k < |stubs| => stubs[k].digest) }

  /** The recorded leaf entries: rows, digests and stubs, in order, before anything else. */
  ghost predicate SameLeafEntries(p: BatchProof, g: BatchProof, n: nat) {
    && n <= |g.leafRows| && n <= |g.leafDigests|
    && g.leafRows[..n] <= p.leafRows && g.leafDigests[..n] <= p.leafDigests && g.leafDigests[..n] <= Digests(p.leafKeccs)
  }

  /** Some entry from n on repeats the digest, with its own row and stub. */
  ghost predicate Repeats(p: BatchProof, h: Hasher, n: nat, digest: Digest) {
    exists pos :: n <= pos < |p.leafDigests| && pos < |p.leafRows| && pos < |p.leafKeccs|
      && p.leafDigests[pos] == digest && p.leafKeccs[pos].digest == digest && h.leaf(p.leafRows[pos]) == digest
  }

  lemma LeafPart(p: BatchProof, g: BatchProof, b: Batch, siblings: seq<Digest>)
    requires Records(g, b, siblings)
    ensures (forall pos: nat :: pos < |b.dims| ==> LeafEntry(p, b, pos)) <==> SameLeafEntries(p, g, |b.dims|)
    ensures (forall pos: nat :: pos < |b.dims| ==> RowEntry(p, b, pos)) <==> g.leafRows[..|b.dims|] <= p.leafRows
  {
    hide Order, ExtraRows, HonestLayers;
    var n := |b.dims|;
    if forall pos: nat :: pos < n ==> RowEntry(p, b, pos) {
      assert n > 0 ==> RowEntry(p, b, n - 1);
      forall pos | 0 <= pos < n
        ensures p.leafRows[pos] == g.leafRows[pos]
      {
        assert RowEntry(p, b, pos);
      }
    }
    if forall pos: nat :: pos < n ==> LeafEntry(p, b, pos) {
      assert n > 0 ==> LeafEntry(p, b, n - 1);
      forall pos: nat | pos < n
        ensures RowEntry(p, b, pos) && p.leafDigests[pos] == g.leafDigests[pos] == Digests(p.leafKeccs)[pos]
      {
        assert LeafEntry(p, b, pos);
      }
    }
    if SameLeafEntries(p, g, n) {
      forall pos: nat | pos < n
        ensures LeafEntry(p, b, pos)
      {
        assert Digests(p.leafKeccs)[pos] == g.leafDigests[..n][pos];
      }
    }
  }

  lemma ExtraPart(p: BatchProof, b: Batch, digest: Digest)
    ensures HasExtra(p, b, digest) <==> Repeats(p, b.h, |b.dims|, digest)
  {
    if HasExtra(p, b, digest) {
      var pos: nat :| pos >= |b.dims| && ExtraEntry(p, b, digest, pos);
      assert p.leafDigests[pos] == digest;
    }
    if Repeats(p, b.h, |b.dims|, digest) {
      var pos :| |b.dims| <= pos < |p.leafDigests| && pos < |p.leafRows| && pos < |p.leafKeccs|
        && p.leafDigests[pos] == digest && p.leafKeccs[pos].digest == digest && b.h.leaf(p.leafRows[pos]) == digest;
      assert ExtraEntry(p, b, digest, pos);
    }
  }

  lemma SibPart(p: BatchProof, g: BatchProof, b: Batch, siblings: seq<Digest>)
    requires Records(g, b, siblings) && p.siblings == siblings && |siblings| == b.depth
    ensures (forall k: nat :: 0 < k <= b.depth ==> SibDigest(p, b, k)) <==> g.sibLayerDigests <= p.sibLayerDigests
    ensures (forall k: nat :: 0 < k <= b.depth ==> SibEntry(p, b, k)) <==>
            g.sibLayerDigests <= p.sibLayerDigests && g.sibLayerDigests <= Digests(p.sibCompresses)
  {
    hide Order, ExtraRows, HonestLeaves, Batch.Up, Batch.At, Batch.Joining, JoinCount;
    var d := b.depth;
    forall k: nat | k < d
      ensures g.sibLayerDigests[k] == b.Up(siblings, k + 1)
    {
      assert SibEntry(g, b, k + 1);
    }
    if forall k: nat :: 0 < k <= d ==> SibDigest(p, b, k) {
      assert d > 0 ==> SibDigest(p, b, d);
      forall k | 0 <= k < d
        ensures p.sibLayerDigests[k] == g.sibLayerDigests[k]
      {
        assert SibDigest(p, b, k + 1);
      }
    }
    if forall k: nat :: 0 < k <= d ==> SibEntry(p, b, k) {
      assert d > 0 ==> SibEntry(p, b, d);
      forall k | 0 <= k < d
        ensures p.sibLayerDigests[k] == g.sibLayerDigests[k] == Digests(p.sibCompresses)[k]
      {
        assert SibEntry(p, b, k + 1);
      }
    }
    if g.sibLayerDigests <= p.sibLayerDigests && g.sibLayerDigests <= Digests(p.sibCompresses) {
      forall k: nat | 0 < k <= d
        ensures SibEntry(p, b, k)
      {
        assert Digests(p.sibCompresses)[k - 1] == g.sibLayerDigests[k - 1];
      }
    }
  }

  /** Injection c is the one after the step at which the count reaches c + 1. */
  lemma RecordedInjection(g: BatchProof, b: Batch, siblings: seq<Digest>, c: nat) returns (k: nat)
    requires Records(g, b, siblings) && c < |g.injectDigests|
    ensures 0 < k <= b.depth && b.Joining(k) != [] && JoinCount(b, k) == c + 1
    ensures k <= |siblings| && c < |g.injectDigests| && g.injectDigests[c] == b.At(siblings, k)
  {
    hide Order, ExtraRows, HonestLeaves, Batch.Up, Batch.At, Batch.Joining;
    k := JoinOfCount(b, c, b.depth);
    assert InjectEntry(g, b, k);
  }

  ghost predicate SameEntry(a: seq<Digest>, b: seq<Digest>, c: nat) { c < |a| && c < |b| && b[c] == a[c] }

  lemma PrefixByEntries(a: seq<Digest>, b: seq<Digest>)
    requires forall c: nat :: c < |a| ==> SameEntry(a, b, c)
    ensures a <= b
  {
    if a != [] {
      assert SameEntry(a, b, |a| - 1);
    }
    forall c: nat | c < |a|
      ensures a[c] == b[c]
    {
      assert SameEntry(a, b, c);
    }
  }

  /** The digest after step k is that of its injection. */
  lemma InjectionAt(g: BatchProof, b: Batch, siblings: seq<Digest>, k: nat)
    requires Records(g, b, siblings) && 0 < k <= b.depth && k <= |siblings| && b.Joining(k) != []
    ensures var c := JoinCount(b, k) - 1; 0 <= c < |g.injectDigests| && g.injectDigests[c] == b.At(siblings, k)
  {
    hide Order, ExtraRows, HonestLeaves, Batch.Up, Batch.At, Batch.Joining;
    JoinCountMonotone(b, k, b.depth);
    assert InjectEntry(g, b, k);
  }

  lemma InjectDigestPart(p: BatchProof, g: BatchProof, b: Batch, siblings: seq<Digest>)
    requires Records(g, b, siblings) && p.siblings == siblings && |siblings| == b.depth
    ensures |g.injectDigests| == |g.injectLeafIndices| == JoinCount(b, b.depth)
    ensures (forall k: nat :: 0 < k <= b.depth ==> InjectDigest(p, b, k)) <==> g.injectDigests <= p.injectDigests
  {
    hide Order, ExtraRows, HonestLeaves, Batch.Up, Batch.At, Batch.Joining, JoinCount;
    if forall k: nat :: 0 < k <= b.depth ==> InjectDigest(p, b, k) {
      forall c: nat | c < |g.injectDigests|
        ensures SameEntry(g.injectDigests, p.injectDigests, c)
      {
        var k := RecordedInjection(g, b, siblings, c);
        assert InjectDigest(p, b, k);
      }
      PrefixByEntries(g.injectDigests, p.injectDigests);
    }
    if g.injectDigests <= p.injectDigests {
      forall k: nat | 0 < k <= b.depth
        ensures InjectDigest(p, b, k)
      {
        if b.Joining(k) != [] {
          InjectionAt(g, b, siblings, k);
        }
      }
    }
  }

  lemma InjectPart(p: BatchProof, g: BatchProof, b: Batch, siblings: seq<Digest>)
    requires Records(g, b, siblings) && p.siblings == siblings && |siblings| == b.depth
    ensures (forall k: nat :: 0 < k <= b.depth ==> InjectEntry(p, b, k)) <==>
            g.injectDigests <= p.injectDigests && g.injectDigests <= Digests(p.injectCompresses)
  {
    hide Order, ExtraRows, HonestLeaves, Batch.Up, Batch.At, Batch.Joining, JoinCount;
    if forall k: nat :: 0 < k <= b.depth ==> InjectEntry(p, b, k) {
      InjectDigestPart(p, g, b, siblings);
      forall c: nat | c < |g.injectDigests|
        ensures SameEntry(g.injectDigests, p.injectDigests, c) && SameEntry(g.injectDigests, Digests(p.injectCompresses), c)
      {
        var k := RecordedInjection(g, b, siblings, c);
        assert InjectEntry(p, b, k);
      }
      PrefixByEntries(g.injectDigests, p.injectDigests);
      PrefixByEntries(g.injectDigests, Digests(p.injectCompresses));
    }
    if g.injectDigests <= p.injectDigests && g.injectDigests <= Digests(p.injectCompresses) {
      forall k: nat | 0 < k <= b.depth
        ensures InjectEntry(p, b, k)
      {
        if b.Joining(k) != [] {
          InjectionAt(g, b, siblings, k);
          assert Digests(p.injectCompresses)[JoinCount(b, k) - 1] == g.injectDigests[JoinCount(b, k) - 1];
        }
      }
    }
  }

  /** The replay verifier accepts exactly the proofs that start, field by field, with what
      the generator records: rows, their digests and stubs, every layer's digest and stub,
      every injection's digest and stub, and somewhere past the rows the concatenation of
      the leaf level when several matrices sit there. */
  lemma ReplayIffRecorded(p: BatchProof, g: BatchProof, b: Batch, root: Digest)
    requires Records(g, b, p.siblings) && b.Opens(p.siblings, root)
    ensures ReplayAccepts(p, b, root) <==>
      && SameLeafEntries(p, g, |b.dims|)
      && (|b.Leaves()| != 1 ==> Repeats(p, b.h, |b.dims|, b.h.leaf(ConcatRows(b.rows, b.Leaves()))))
      && g.sibLayerDigests <= p.sibLayerDigests && g.sibLayerDigests <= Digests(p.sibCompresses)
      && g.injectDigests <= p.injectDigests && g.injectDigests <= Digests(p.injectCompresses)
  {
    LeafPart(p, g, b, p.siblings);
    ExtraPart(p, b, b.h.leaf(ConcatRows(b.rows, b.Leaves())));
    SibPart(p, g, b, p.siblings);
    InjectPart(p, g, b, p.siblings);
    hide Records, SameLeafEntries, Repeats, HasExtra, Batch.Leaves, ConcatRows, LeafEntry, SibEntry, InjectEntry;
  }

  /** The digest verifier accepts exactly the proofs with the recorded rows in front that
      either carry no leaf digest and as many injection places as recorded, or carry the
      recorded leaf entries, layer digests and exactly the recorded injection digests. */
  lemma DigestsIffRecorded(p: BatchProof, g: BatchProof, b: Batch, root: Digest)
    requires Records(g, b, p.siblings) && b.Opens(p.siblings, root)
    ensures |b.dims| <= |g.leafRows|
    ensures DigestsAccept(p, b, root) <==>
      && g.leafRows[..|b.dims|] <= p.leafRows
      && (if p.leafDigests == [] then |p.injectLeafIndices| == |g.injectLeafIndices|
          else
            && SameLeafEntries(p, g, |b.dims|)
            && (|b.Leaves()| != 1 ==> Repeats(p, b.h, |b.dims|, b.h.leaf(ConcatRows(b.rows, b.Leaves()))))
            && g.sibLayerDigests <= p.sibLayerDigests && p.injectDigests == g.injectDigests)
  {
    hide Records, SameLeafEntries, Repeats, HasExtra, Batch.Leaves, ConcatRows, LeafEntry, RowEntry, SibDigest, SibEntry, InjectDigest,
      InjectEntry, HonestLayers, JoinCount, Batch.Opens, Order;
    OpeningDepth(b, p.siblings, root);
    EnoughRows(g, b, p.siblings);
    LeafPart(p, g, b, p.siblings);
    ExtraPart(p, b, b.h.leaf(ConcatRows(b.rows, b.Leaves())));
    SibPart(p, g, b, p.siblings);
    InjectDigestPart(p, g, b, p.siblings);
  }

  lemma OpeningDepth(b: Batch, siblings: seq<Digest>, root: Digest)
    requires b.Opens(siblings, root)
    ensures |siblings| == b.depth
  {
  }

  lemma EnoughRows(g: BatchProof, b: Batch, siblings: seq<Digest>)
    requires Records(g, b, siblings)
    ensures |b.dims| == |b.rows| && |b.dims| <= |g.leafRows|
  {
    hide HonestLayers, ExtraRows;
  }
}
