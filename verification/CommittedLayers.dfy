/** Layers committed by Merkle trees over their flattened pairs. */
module CommittedLayers {

  import opened Options
  import opened M31
  import opened Ef3
  import opened PowersOfTwo
  import opened Circle
  import opened FoldGeometry
  import opened FoldRows
  import opened FoldWalk
  import opened FoldRefinement
  import opened CommitPhase
  import opened MerkleBatch
  import MerklePath

  /** The three limbs of slot 2 j and then those of slot 2 j + 1. */
  function FlatRow(layer: seq<Ef>, j: nat): seq<Fp> {
    if 2 * j + 1 < |layer| then
      var a, b := layer[2 * j], layer[2 * j + 1];
      [a.c0, a.c1, a.c2, b.c0, b.c1, b.c2]
    else []
  }

  /** One row for every pair of the layer. */
  function LayerMatrix(layer: seq<Ef>): Matrix { seq(|layer| / 2, j requires 0 <= j < |layer| / 2 => FlatRow(layer, j)) }

  /** The opening of one row of six values at an index of a tree of 2^depth rows. */
  function RowBatch(h: Hasher, depth: nat, index: nat, row: seq<Fp>): Batch {
    Batch(h, [Dimensions(6, Pow2(depth))], [row], index, depth)
  }

  function Blank(h: Hasher, depth: nat): Batch { RowBatch(h, depth, 0, []) }

  /** The root over the layer's pairs. */
  function RootOf(h: Hasher, depth: nat, layer: seq<Ef>): Digest { Node(Blank(h, depth), [LayerMatrix(layer)], depth, 0) }

  /** The siblings that open row index. */
  function PathOf(h: Hasher, depth: nat, layer: seq<Ef>, index: nat): seq<Digest> {
    MerkleBatch.Siblings(RowBatch(h, depth, index, FlatRow(layer, index)), [LayerMatrix(layer)])
  }

  /** The commitment scheme's check of one round: the flattened pair opens the root. */
  ghost function TreeCheck(h: Hasher, roots: seq<Digest>, paths: seq<seq<Digest>>): BatchCheck {
    (k: nat, depth: nat, index: nat, row: seq<Ef>) =>
      |row| == 2 && k < |roots| && k < |paths|
      && RowBatch(h, depth, index, FlattenPair(row[0], row[1])).Opens(paths[k], roots[k])
  }

  lemma SameGroups(b: Batch, c: Batch, k: nat)
    requires b.dims == c.dims && b.depth == c.depth && k <= b.depth
    ensures b.Leaves() == c.Leaves() && (k > 0 ==> b.Joining(k) == c.Joining(k))
  {
    hide Order, Filter;
  }

  /** The tree does not depend on which row is opened. */
  lemma {:induction false} SameTree(b: Batch, c: Batch, mats: seq<Matrix>, k: nat, j: nat)
    requires b.h == c.h && b.dims == c.dims && b.depth == c.depth && k <= b.depth
    ensures Node(b, mats, k, j) == Node(c, mats, k, j)
  {
    hide ConcatAt, Batch.Leaves, Batch.Joining;
    SameGroups(b, c, k);
    if k > 0 {
      SameTree(b, c, mats, k - 1, 2 * j);
      SameTree(b, c, mats, k - 1, 2 * j + 1);
    }
  }

  /** Every row of a layer opens its root. */
  lemma RowOpens(h: Hasher, depth: nat, layer: seq<Ef>, index: nat)
    requires |layer| == Pow2(depth + 1) && index < Pow2(depth)
    ensures RowBatch(h, depth, index, FlatRow(layer, index)).Opens(PathOf(h, depth, layer, index), RootOf(h, depth, layer))
  {
    hide Pow2, Node, MerkleBatch.Siblings, Batch.At, Shr;
    var b, mats := RowBatch(h, depth, index, FlatRow(layer, index)), [LayerMatrix(layer)];
    HalfPower(depth + 1);
    assert b.dims[..0] == [] && MaxHeight(b.dims) == Pow2(depth);
    ShrNone(index);
    assert RowOpened(b, mats, 0, depth);
    assert RowOpenedSomewhere(b, mats, 0);
    TreeOpens(b, mats);
    SameTree(b, Blank(h, depth), mats, depth, 0);
  }

  /** Two rows of six that open one root at one index agree, or a collision is at hand. */
  lemma RowsBind(h: Hasher, depth: nat, index: nat, row: seq<Fp>, row': seq<Fp>, sibs: seq<Digest>, sibs': seq<Digest>, root: Digest)
    returns (c: Collision)
    requires RowBatch(h, depth, index, row).Opens(sibs, root) && RowBatch(h, depth, index, row').Opens(sibs', root)
    ensures c.Real(h) || (c == NoCollision && row == row')
  {
    hide Batch.Opens, Pow2, ConcatRows, Batch.Leaves;
    var b, d := RowBatch(h, depth, index, row), RowBatch(h, depth, index, row');
    MerklePath.OneLeaf(b);
    MerklePath.OnlyRow(row);
    MerklePath.OnlyRow(row');
    c := OpeningsBind(b, d, sibs, sibs', root);
  }

  lemma FlatDetermines(layer: seq<Ef>, j: nat, v0: Ef, v1: Ef)
    requires 2 * j + 1 < |layer|
    ensures FlattenPair(v0, v1) == FlatRow(layer, j) <==> [v0, v1] == [layer[2 * j], layer[2 * j + 1]]
  {
    var s, t := FlattenPair(v0, v1), FlatRow(layer, j);
    if s == t {
      assert s[0] == t[0] && s[1] == t[1] && s[2] == t[2] && s[3] == t[3] && s[4] == t[4] && s[5] == t[5];
    }
  }

  /** Neither function of the hasher gives one digest for two inputs. */
  ghost predicate Injective(h: Hasher) {
    && (forall x: seq<Fp>, y: seq<Fp> :: h.leaf(x) == h.leaf(y) ==> x == y)
    && (forall a: Digest, b: Digest, c: Digest, d: Digest :: h.compress(a, b) == h.compress(c, d) ==> a == c && b == d)
  }

  /** Without collisions a root and an index determine the row. */
  lemma RowDetermined(h: Hasher, depth: nat, index: nat, row: seq<Fp>, row': seq<Fp>, sibs: seq<Digest>, sibs': seq<Digest>, root: Digest)
    requires Injective(h)
    requires RowBatch(h, depth, index, row).Opens(sibs, root) && RowBatch(h, depth, index, row').Opens(sibs', root)
    ensures row == row'
  {
    hide RowBatch, Batch.Opens;
    var c := RowsBind(h, depth, index, row, row', sibs, sibs', root);
  }

  // ---- A query against the trees ----

  /** Round k's root is that of the whole layer of round k. */
  ghost predicate RootsOfLayers(h: Hasher, roots: seq<Digest>, q: CommitQuery, fold: RowFold, ro: RoLayers)
    requires q.InRange() && WellSized(ro)
  {
    hide LayerAt, RootOf, Zeros;
    && |roots| == |q.betas|
    && forall k :: 0 <= k < |roots| ==>
         roots[k] == RootOf(h, q.Top() - k - 1, LayerAt(fold, q.Top(), q.betas, Zeros(q.Top()), ro, k))
  }

  /** Round k's path opens the pair beside the query's shifted index. */
  ghost predicate PathsOfLayers(h: Hasher, paths: seq<seq<Digest>>, q: CommitQuery, fold: RowFold, ro: RoLayers)
    requires q.InRange() && WellSized(ro)
  {
    hide LayerAt, PathOf, Zeros;
    && |paths| == |q.betas|
    && forall k :: 0 <= k < |paths| ==>
         paths[k] == PathOf(h, q.Top() - k - 1, LayerAt(fold, q.Top(), q.betas, Zeros(q.Top()), ro, k), Shr(q.Index(), k) / 2)
  }

  /** Round k of a walk either shows the committed pair or gives a collision. */
  lemma RoundBinds(h: Hasher, roots: seq<Digest>, paths: seq<seq<Digest>>, q: CommitQuery, fold: RowFold, ro: RoLayers, k: nat, w: FoldWitness)
    returns (c: Collision)
    requires q.InRange() && WellSized(ro) && RootsOfLayers(h, roots, q, fold, ro) && k < |q.betas|
    requires w.logFolded == q.Top() - k - 1 && w.index < Pow2(w.logFolded)
    requires TreeCheck(h, roots, paths)(k, w.logFolded, w.index, [w.v0, w.v1])
    ensures c.Real(h) || ShowsCommitted(fold, q.Top(), q.betas, ro, k, w)
  {
    hide LayerAt, PathOf, Zeros, RootOf, Pow2, Batch.Opens, FlattenPair, FlatRow, Shr;
    var layer := LayerAt(fold, q.Top(), q.betas, Zeros(q.Top()), ro, k);
    HalfPower(q.Top() - k);
    RowOpens(h, w.logFolded, layer, w.index);
    c := RowsBind(h, w.logFolded, w.index, FlattenPair(w.v0, w.v1), FlatRow(layer, w.index), paths[k],
                  PathOf(h, w.logFolded, layer, w.index), roots[k]);
    FlatDetermines(layer, w.index, w.v0, w.v1);
  }

  /** Binding: whatever openings and paths are accepted against the trees of the layers
      are honest, or a collision of the hash is at hand. */
  lemma AcceptedIsHonest(h: Hasher, roots: seq<Digest>, paths: seq<seq<Digest>>, q: CommitQuery, fold: RowFold, ro: RoLayers)
    returns (c: Collision)
    requires q.InRange() && WellSized(ro) && RootsOfLayers(h, roots, q, fold, ro)
    requires q.Walk(fold, ro).Ok? && RoundsOpen(TreeCheck(h, roots, paths), q.Walk(fold, ro).value)
    ensures c.Real(h) || q.Honest(fold, ro)
  {
    hide RootsOfLayers, CommitQuery.Walk, TreeCheck, ShowsCommitted, HonestQuery, Shr, Pow2, WellSized, FinalLayer, CommitQuery.Honest;
    var ws := q.Walk(fold, ro).value;
    c := NoCollision;
    var k := 0;
    while k < |ws|
      invariant k <= |ws|
      invariant forall l: nat :: l < k ==> ShowsCommitted(fold, q.Top(), q.betas, ro, l, ws[l])
    {
      RoundInRange(q, fold, ro, k);
      assert TreeCheck(h, roots, paths)(k, ws[k].logFolded, ws[k].index, [ws[k].v0, ws[k].v1]);
      c := RoundBinds(h, roots, paths, q, fold, ro, k, ws[k]);
      if c.Real(h) {
        return;
      }
      k := k + 1;
    }
    ShownIsHonest(q, fold, ro);
    WalkIffHonest(q, fold, ro);
  }

  /** Completeness: honest openings with the paths of the trees are accepted. */
  lemma HonestIsAccepted(h: Hasher, roots: seq<Digest>, paths: seq<seq<Digest>>, q: CommitQuery, fold: RowFold, ro: RoLayers)
    requires q.InRange() && WellSized(ro) && RootsOfLayers(h, roots, q, fold, ro) && PathsOfLayers(h, paths, q, fold, ro)
    requires q.Honest(fold, ro)
    ensures q.Walk(fold, ro).Ok? && RoundsOpen(TreeCheck(h, roots, paths), q.Walk(fold, ro).value)
  {
    hide CommitQuery.Walk, HonestQuery, Shr, Pow2, WellSized, FinalLayer, LayerAt, RootOf, PathOf, Batch.Opens, FlattenPair, FlatRow, Zeros;
    WalkIffHonest(q, fold, ro);
    var ws, top := q.Walk(fold, ro).value, q.Top();
    forall k: nat | k < |ws|
      ensures TreeCheck(h, roots, paths)(k, ws[k].logFolded, ws[k].index, [ws[k].v0, ws[k].v1])
    {
      RoundInRange(q, fold, ro, k);
      HonestShows(q, fold, ro, k);
      var layer := LayerAt(fold, top, q.betas, Zeros(top), ro, k);
      HalfPower(top - k);
      RowOpens(h, ws[k].logFolded, layer, ws[k].index);
      FlatDetermines(layer, ws[k].index, ws[k].v0, ws[k].v1);
    }
  }

  // ---- The bundle ----

  /** On an honest query the bundle asks for exactly the flattened pairs of the layers at
      the shifted indices, and returns those indices and paths. */
  method HonestBundle<Path>(g: Tower, q: CommitQuery, ghost ro: RoLayers, genPath: (nat, seq<Fp>, nat) -> Option<Path>, reduced: seq<Reduced>)
    returns (r: Option<(seq<nat>, seq<Path>)>)
    requires |q.betas| + q.logBlowup + 2 < |g.pts| && q.InRange() && WellSized(ro)
    requires HonestQuery(q.openings, XFold(g), q.Top(), q.betas, ro, q.Index())
    requires reduced == Reading(ro, q.Top(), q.Index())
    ensures r.Some? <==> forall k: nat :: k < |q.betas| ==> genPath(k, AskedRow(XFold(g), q, ro, k), Shr(q.Index(), k) / 2).Some?
    ensures r.Some? ==> |r.value.0| == |q.betas| == |r.value.1|
    ensures r.Some? ==> forall k: nat :: k < |q.betas| ==>
      r.value.0[k] == Shr(q.Index(), k) / 2
      && genPath(k, AskedRow(XFold(g), q, ro, k), Shr(q.Index(), k) / 2) == Some(r.value.1[k])
  {
    hide Rounds, HonestSiblings, Reading, Shr, Pow2, WellSized, AskedRow, FlattenPair;
    AskedRows(g, q, ro);
    assert q.betas[..|q.openings|] == q.betas;
    r := CommitPhaseBundle(g, q.openings, q.betas, genPath, q.query, q.extra, q.logBlowup, reduced);
  }

  /** The row the tree of round k holds at the query. */
  ghost function AskedRow(fold: RowFold, q: CommitQuery, ro: RoLayers, k: nat): seq<Fp>
    requires q.InRange() && WellSized(ro) && k < |q.betas|
  {
    hide LayerAt, Zeros, Shr;
    FlatRow(LayerAt(fold, q.Top(), q.betas, Zeros(q.Top()), ro, k), Shr(q.Index(), k) / 2)
  }

  lemma AskedRows(g: Tower, q: CommitQuery, ro: RoLayers)
    requires q.InRange() && WellSized(ro) && HonestQuery(q.openings, XFold(g), q.Top(), q.betas, ro, q.Index())
    ensures |q.openings| == |q.betas|
    ensures var ws := Rounds(XFold(g), Start(q.query, q.extra, q.Top(), Reading(ro, q.Top(), q.Index())), FoldWalk.Siblings(q.openings), q.betas);
      forall k: nat :: k < |q.betas| ==>
        ws[k].index == Shr(q.Index(), k) / 2 && FlattenPair(ws[k].v0, ws[k].v1) == AskedRow(XFold(g), q, ro, k)
  {
    hide EAdd, Reading, Rounds, HonestSiblings, Pow2, Shr, LayerAt, FlattenPair, FlatRow, XFold;
    var fold, top, i := XFold(g), q.Top(), q.Index();
    var st, sibs := Start(q.query, q.extra, top, Reading(ro, top, i)), FoldWalk.Siblings(q.openings);
    forall k: nat | k < |q.betas|
      ensures var w := Rounds(fold, st, sibs, q.betas)[k];
        w.index == Shr(i, k) / 2 && FlattenPair(w.v0, w.v1) == AskedRow(fold, q, ro, k)
    {
      var w := Rounds(fold, st, sibs, q.betas)[k];
      WalkReadsLayers(fold, st, sibs, q.betas, Zeros(top), ro, k);
      HalfPower(top - k);
      HalfIndex(Shr(i, k), top - k);
      FlatDetermines(LayerAt(fold, top, q.betas, Zeros(top), ro, k), w.index, w.v0, w.v1);
    }
  }
}
