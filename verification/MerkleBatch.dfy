/** Multi-matrix Merkle openings: what a path with injected matrices commits to. */
module MerkleBatch {

  import opened M31
  import opened PowersOfTwo

  /** A 32-byte digest. */
  type Digest = nat

  datatype Dimensions = Dimensions(width: nat, height: nat)

  /** Leaf hash and two-to-one compression, uninterpreted. */
  datatype Hasher = Hasher(leaf: seq<Fp> -> Digest, compress: (Digest, Digest) -> Digest)

  predicate Below(idxs: seq<nat>, n: nat) { forall p :: 0 <= p < |idxs| ==> idxs[p] < n }

  // ---- Tallest-first order ----

  /** Inserts i after every index whose matrix is at least as tall. */
  function Insert(dims: seq<Dimensions>, order: seq<nat>, i: nat): (r: seq<nat>)
    requires i < |dims| && Below(order, |dims|)
    ensures |r| == |order| + 1
  {
    if order != [] && dims[order[0]].height >= dims[i].height then [order[0]] + Insert(dims, order[1..], i)
    else [i] + order
  }

  lemma {:induction false} InsertBelow(dims: seq<Dimensions>, order: seq<nat>, i: nat, n: nat)
    requires i < n <= |dims| && Below(order, n)
    ensures Below(order, |dims|) && Below(Insert(dims, order, i), n)
  {
    assert Below(order, |dims|);
    if order != [] && dims[order[0]].height >= dims[i].height {
      InsertBelow(dims, order[1..], i, n);
    }
  }

  /** The first n indices, tallest first, equal heights in their original order. */
  function Order(dims: seq<Dimensions>, n: nat): (order: seq<nat>)
    requires n <= |dims|
    ensures |order| == n && Below(order, n)
  {
    if n == 0 then []
    else
      var before := Order(dims, n - 1);
      InsertBelow(dims, before, n - 1, n);
      Insert(dims, before, n - 1)
  }

  /** The element i comes before j in a tallest-first order that keeps ties. */
  predicate Before(dims: seq<Dimensions>, i: nat, j: nat) {
    i < |dims| && j < |dims| && (dims[i].height > dims[j].height || (dims[i].height == dims[j].height && i < j))
  }

  predicate Sorted(dims: seq<Dimensions>, order: seq<nat>) {
    forall p, q :: 0 <= p < q < |order| ==> Before(dims, order[p], order[q])
  }

  lemma {:induction false} InsertSorted(dims: seq<Dimensions>, order: seq<nat>, i: nat)
    requires i < |dims| && Sorted(dims, order) && Below(order, i) && Below(order, |dims|)
    ensures Sorted(dims, Insert(dims, order, i))
    ensures order != [] && dims[order[0]].height >= dims[i].height ==> Insert(dims, order, i)[0] == order[0]
    ensures forall q :: 0 <= q <= |order| ==> Insert(dims, order, i)[q] in order || Insert(dims, order, i)[q] == i
  {
    if order != [] && dims[order[0]].height >= dims[i].height {
      var rest := order[1..];
      InsertSorted(dims, rest, i);
      var tail := Insert(dims, rest, i);
      forall q | 0 <= q < |tail|
        ensures Before(dims, order[0], tail[q])
      {
        if tail[q] != i {
          var p :| 0 <= p < |rest| && rest[p] == tail[q];
          assert Before(dims, order[0], order[p + 1]);
        }
      }
    } else {
      forall q | 0 <= q < |order|
        ensures Before(dims, i, order[q])
      {
        assert q > 0 ==> Before(dims, order[0], order[q]);
      }
    }
  }

  lemma {:induction false} InsertElements(dims: seq<Dimensions>, order: seq<nat>, i: nat)
    requires i < |dims| && Below(order, |dims|)
    ensures multiset(Insert(dims, order, i)) == multiset(order) + multiset{i}
  {
    if order != [] && dims[order[0]].height >= dims[i].height {
      InsertElements(dims, order[1..], i);
      assert order == [order[0]] + order[1..];
    }
  }

  /** The order is the stable sort by descending height: ties keep their original order. */
  lemma {:induction false} OrderIsSorted(dims: seq<Dimensions>, n: nat)
    requires n <= |dims|
    ensures Sorted(dims, Order(dims, n))
  {
    if n > 0 {
      OrderIsSorted(dims, n - 1);
      InsertSorted(dims, Order(dims, n - 1), n - 1);
    }
  }

  /** And every index occurs exactly once in it. */
  lemma {:induction false} OrderIsPermutation(dims: seq<Dimensions>, n: nat, i: nat)
    requires n <= |dims|
    ensures multiset(Order(dims, n))[i] == if i < n then 1 else 0
  {
    hide Insert;
    if n > 0 {
      OrderIsPermutation(dims, n - 1, i);
      InsertElements(dims, Order(dims, n - 1), n - 1);
    }
  }

  // ---- Which matrices join where ----

  /** The indices that satisfy p, in order. */
  function Filter(idxs: seq<nat>, p: nat -> bool): (r: seq<nat>)
    ensures |r| <= |idxs|
  {
    if idxs == [] then [] else (if p(idxs[0]) then [idxs[0]] else []) + Filter(idxs[1..], p)
  }

  lemma {:induction false} FilterBelow(idxs: seq<nat>, p: nat -> bool, n: nat)
    requires Below(idxs, n)
    ensures Below(Filter(idxs, p), n)
  {
    if idxs != [] {
      FilterBelow(idxs[1..], p, n);
    }
  }

  lemma {:induction false} FilterCount(idxs: seq<nat>, p: nat -> bool, i: nat)
    ensures multiset(Filter(idxs, p))[i] == if p(i) then multiset(idxs)[i] else 0
  {
    if idxs != [] {
      FilterCount(idxs[1..], p, i);
      assert idxs == [idxs[0]] + idxs[1..];
    }
  }

  /** Filtering twice, when the second condition implies the first. */
  lemma {:induction false} FilterFilter(idxs: seq<nat>, p: nat -> bool, q: nat -> bool)
    requires forall i: nat :: q(i) ==> p(i)
    ensures Filter(Filter(idxs, p), q) == Filter(idxs, q)
  {
    if idxs != [] {
      FilterFilter(idxs[1..], p, q);
      var rest := Filter(idxs[1..], p);
      assert p(idxs[0]) ==> ([idxs[0]] + rest)[1..] == rest;
      assert [] + rest == rest;
    }
  }

  function WithHeight(dims: seq<Dimensions>, idxs: seq<nat>, height: nat): (r: seq<nat>)
    requires Below(idxs, |dims|)
    ensures Below(r, |dims|)
  {
    var p := (i: nat) => i < |dims| && dims[i].height == height;
    FilterBelow(idxs, p, |dims|);
    Filter(idxs, p)
  }

  /** The indices whose height rounds up to the top height. */
  function AtTop(dims: seq<Dimensions>, idxs: seq<nat>, top: nat): (r: seq<nat>)
    requires Below(idxs, |dims|)
    ensures Below(r, |dims|)
  {
    var p := (i: nat) => i < |dims| && NextPowerOfTwo(dims[i].height) == top;
    FilterBelow(idxs, p, |dims|);
    Filter(idxs, p)
  }

  function MaxHeight(dims: seq<Dimensions>): nat {
    if dims == [] then 0
    else
      var m := MaxHeight(dims[..|dims| - 1]);
      if dims[|dims| - 1].height > m then dims[|dims| - 1].height else m
  }

  lemma {:induction false} MaxHeightBounds(dims: seq<Dimensions>)
    ensures forall i :: 0 <= i < |dims| ==> dims[i].height <= MaxHeight(dims)
    ensures dims != [] ==> exists i :: 0 <= i < |dims| && dims[i].height == MaxHeight(dims)
  {
    if dims != [] {
      var n := |dims| - 1;
      MaxHeightBounds(dims[..n]);
      if dims[n].height > MaxHeight(dims[..n]) || n == 0 {
        assert dims[n].height == MaxHeight(dims);
      } else {
        var i :| 0 <= i < n && dims[..n][i].height == MaxHeight(dims[..n]);
        assert dims[i].height == MaxHeight(dims);
      }
    }
  }

  function ConcatRows(rows: seq<seq<Fp>>, idxs: seq<nat>): seq<Fp>
    requires Below(idxs, |rows|)
  {
    if idxs == [] then [] else rows[idxs[0]] + ConcatRows(rows, idxs[1..])
  }

  // ---- The path ----

  /** One opening: a row of every matrix at an index, under a tree of Pow2(depth) leaves. */
  datatype Batch = Batch(h: Hasher, dims: seq<Dimensions>, rows: seq<seq<Fp>>, index: nat, depth: nat) {

    ghost predicate Valid() {
      |dims| == |rows| && |dims| > 0 && MaxHeight(dims) == Pow2(depth)
    }

    function Sorted(): (order: seq<nat>)
      ensures |order| == |dims| && Below(order, |dims|)
    { Order(dims, |dims|) }

    /** The matrices hashed into the leaf. */
    function Leaves(): (r: seq<nat>)
      ensures Below(r, |dims|)
    { AtTop(dims, Sorted(), Pow2(depth)) }

    /** The matrices that join after step k. */
    function Joining(k: nat): (r: seq<nat>)
      requires k <= depth
      ensures Below(r, |dims|)
    { WithHeight(dims, Sorted(), Pow2(depth - k)) }

    function HashOf(idxs: seq<nat>): Digest
      requires |dims| == |rows| && Below(idxs, |dims|)
    { h.leaf(ConcatRows(rows, idxs)) }

    /** The digest after the sibling of step k joins and before any matrix does. */
    function Up(sibs: seq<Digest>, k: nat): Digest
      requires |dims| == |rows| && 0 < k <= depth && k <= |sibs|
      decreases k, 0
    {
      var d := At(sibs, k - 1);
      if Shr(index, k - 1) % 2 == 0 then h.compress(d, sibs[k - 1]) else h.compress(sibs[k - 1], d)
    }

    /** The digest after k steps. */
    function At(sibs: seq<Digest>, k: nat): Digest
      requires |dims| == |rows| && k <= depth && k <= |sibs|
      decreases k, 1
    {
      if k == 0 then HashOf(Leaves())
      else if Joining(k) == [] then Up(sibs, k)
      else h.compress(Up(sibs, k), HashOf(Joining(k)))
    }

    /** The opening leads to the root. */
    ghost predicate Opens(sibs: seq<Digest>, root: Digest) {
      Valid() && |sibs| == depth && At(sibs, depth) == root
    }
  }

  lemma Pow2Strict(m: nat, n: nat)
    requires m < n
    ensures Pow2(m) < Pow2(n)
  {
    Pow2Monotone(m, n - 1);
  }

  lemma Pow2Injective(m: nat, n: nat)
    requires Pow2(m) == Pow2(n)
    ensures m == n
  {
    if m < n {
      Pow2Strict(m, n);
    } else if n < m {
      Pow2Strict(n, m);
    }
  }

  lemma NextOfPower(e: nat)
    ensures NextPowerOfTwo(Pow2(e)) == Pow2(e)
  {
    var d := NextPowerIsLeast(Pow2(e));
    if d > e {
      Pow2Monotone(e, d - 1);
    }
    if d < e {
      Pow2Strict(d, e);
    }
  }

  // ---- Every matrix is absorbed exactly once ----

  /** All matrices absorbed in the first k steps, with repetitions. */
  function Absorbed(b: Batch, k: nat): (r: seq<nat>)
    requires k <= b.depth
    ensures Below(r, |b.dims|)
  {
    if k == 0 then b.Leaves() else Absorbed(b, k - 1) + b.Joining(k)
  }

  ghost predicate AbsorbedBy(b: Batch, i: nat, k: nat)
    requires i < |b.dims| && k <= b.depth
  {
    NextPowerOfTwo(b.dims[i].height) == Pow2(b.depth) || exists j: nat :: j <= k && JoinsAt(b, i, j)
  }

  ghost predicate JoinsAt(b: Batch, i: nat, j: nat) {
    i < |b.dims| && 0 < j <= b.depth && b.dims[i].height == Pow2(b.depth - j)
  }

  lemma JoiningCount(b: Batch, i: nat, k: nat)
    requires i < |b.dims| && k <= b.depth
    ensures multiset(b.Joining(k))[i] == if b.dims[i].height == Pow2(b.depth - k) then 1 else 0
    ensures multiset(b.Leaves())[i] == if NextPowerOfTwo(b.dims[i].height) == Pow2(b.depth) then 1 else 0
  {
    hide Filter, Order, NextPowerOfTwo, Pow2;
    OrderIsPermutation(b.dims, |b.dims|, i);
    FilterCount(b.Sorted(), (j: nat) => j < |b.dims| && b.dims[j].height == Pow2(b.depth - k), i);
    FilterCount(b.Sorted(), (j: nat) => j < |b.dims| && NextPowerOfTwo(b.dims[j].height) == Pow2(b.depth), i);
  }

  /** A matrix that joins at k was not absorbed before. */
  lemma JoinsOnce(b: Batch, i: nat, k: nat)
    requires JoinsAt(b, i, k)
    ensures !AbsorbedBy(b, i, k - 1)
  {
    hide Pow2, NextPowerOfTwo;
    NextOfPower(b.depth - k);
    Pow2Strict(b.depth - k, b.depth);
    forall j: nat | j < k
      ensures !JoinsAt(b, i, j)
    {
      if 0 < j {
        Pow2Strict(b.depth - k, b.depth - j);
      }
    }
  }

  lemma {:induction false} AbsorbedCount(b: Batch, i: nat, k: nat)
    requires i < |b.dims| && k <= b.depth
    ensures multiset(Absorbed(b, k))[i] == if AbsorbedBy(b, i, k) then 1 else 0
  {
    hide Batch.Joining, Batch.Leaves, NextPowerOfTwo, Pow2;
    JoiningCount(b, i, k);
    if k > 0 {
      AbsorbedCount(b, i, k - 1);
      assert AbsorbedBy(b, i, k) <==> AbsorbedBy(b, i, k - 1) || JoinsAt(b, i, k);
      if JoinsAt(b, i, k) {
        JoinsOnce(b, i, k);
      }
    }
  }

  ghost predicate IsAbsorbed(b: Batch, i: nat)
    requires i < |b.dims|
  { IsPowerOfTwo(b.dims[i].height) || NextPowerOfTwo(b.dims[i].height) == Pow2(b.depth) }

  /** A row is absorbed once when its height is a power of two or rounds up to the top;
      any other row is never hashed at all. */
  lemma AbsorbedExactlyOnce(b: Batch, i: nat)
    requires b.Valid() && i < |b.dims|
    ensures multiset(Absorbed(b, b.depth))[i] == if IsAbsorbed(b, i) then 1 else 0
  {
    hide NextPowerOfTwo;
    AbsorbedCount(b, i, b.depth);
    if j: nat :| JoinsAt(b, i, j) {
      Log2OfPower(b.depth - j);
    }
    MaxHeightBounds(b.dims);
    if IsPowerOfTwo(b.dims[i].height) {
      var e := Log2(b.dims[i].height);
      if e > b.depth {
        Pow2Strict(b.depth, e);
      }
      if e == b.depth {
        NextOfPower(e);
      } else {
        assert JoinsAt(b, i, b.depth - e);
      }
    }
  }

  // ---- The tree a prover builds, and the openings it gives ----

  type Matrix = seq<seq<Fp>>

  function CellRow(mats: seq<Matrix>, i: nat, j: nat): seq<Fp> {
    if i < |mats| && j < |mats[i]| then mats[i][j] else []
  }

  /** Row j of each of these matrices, one after the other. */
  function ConcatAt(mats: seq<Matrix>, idxs: seq<nat>, j: nat): seq<Fp> {
    if idxs == [] then [] else CellRow(mats, idxs[0], j) + ConcatAt(mats, idxs[1..], j)
  }

  /** Node j of layer k: two children compressed, then the rows j of the matrices that
      join at this layer. */
  function Node(b: Batch, mats: seq<Matrix>, k: nat, j: nat): Digest
    requires k <= b.depth
  {
    if k == 0 then b.h.leaf(ConcatAt(mats, b.Leaves(), j))
    else
      var up := b.h.compress(Node(b, mats, k - 1, 2 * j), Node(b, mats, k - 1, 2 * j + 1));
      if b.Joining(k) == [] then up else b.h.compress(up, b.h.leaf(ConcatAt(mats, b.Joining(k), j)))
  }

  /** The siblings on the way up from the index. */
  function Siblings(b: Batch, mats: seq<Matrix>): (sibs: seq<Digest>)
    ensures |sibs| == b.depth
  {
    seq(b.depth, k requires 0 <= k < b.depth => Node(b, mats, k, Neighbour(Shr(b.index, k))))
  }

  /** b opens the matrices at its index: of a matrix of Pow2(e) rows, row index >> (depth - e). */
  ghost predicate OpensMatrices(b: Batch, mats: seq<Matrix>) {
    && b.Valid() && |mats| == |b.dims| && b.index < Pow2(b.depth)
    && forall i :: 0 <= i < |mats| ==> RowOpenedSomewhere(b, mats, i)
  }

  ghost predicate RowOpenedSomewhere(b: Batch, mats: seq<Matrix>, i: nat) {
    exists e: nat :: RowOpened(b, mats, i, e)
  }

  ghost predicate RowOpened(b: Batch, mats: seq<Matrix>, i: nat, e: nat) {
    && i < |mats| && i < |b.dims| && i < |b.rows| && e <= b.depth
    && b.dims[i].height == Pow2(e) == |mats[i]|
    && Shr(b.index, b.depth - e) < |mats[i]| && b.rows[i] == mats[i][Shr(b.index, b.depth - e)]
  }

  lemma {:induction false} ConcatsAgree(b: Batch, mats: seq<Matrix>, idxs: seq<nat>, j: nat)
    requires |b.rows| == |b.dims| && Below(idxs, |b.dims|)
    requires forall p :: 0 <= p < |idxs| ==> b.rows[idxs[p]] == CellRow(mats, idxs[p], j)
    ensures ConcatRows(b.rows, idxs) == ConcatAt(mats, idxs, j)
  {
    if idxs != [] {
      assert forall p :: 0 <= p < |idxs| - 1 ==> idxs[1..][p] == idxs[p + 1];
      ConcatsAgree(b, mats, idxs[1..], j);
    }
  }

  lemma {:induction false} FilterHolds(idxs: seq<nat>, p: nat -> bool)
    ensures forall q :: 0 <= q < |Filter(idxs, p)| ==> p(Filter(idxs, p)[q])
  {
    if idxs != [] {
      FilterHolds(idxs[1..], p);
    }
  }

  lemma JoiningRows(b: Batch, mats: seq<Matrix>, k: nat)
    requires OpensMatrices(b, mats) && k <= b.depth
    ensures ConcatRows(b.rows, b.Joining(k)) == ConcatAt(mats, b.Joining(k), Shr(b.index, k))
  {
    hide Order, Filter, Shr;
    var idxs := b.Joining(k);
    FilterHolds(b.Sorted(), (j: nat) => j < |b.dims| && b.dims[j].height == Pow2(b.depth - k));
    forall p | 0 <= p < |idxs|
      ensures b.rows[idxs[p]] == CellRow(mats, idxs[p], Shr(b.index, k))
    {
      var i := idxs[p];
      assert RowOpenedSomewhere(b, mats, i);
      var e: nat :| RowOpened(b, mats, i, e);
      Pow2Injective(e, b.depth - k);
    }
    ConcatsAgree(b, mats, idxs, Shr(b.index, k));
  }

  lemma LeafRows(b: Batch, mats: seq<Matrix>)
    requires OpensMatrices(b, mats)
    ensures ConcatRows(b.rows, b.Leaves()) == ConcatAt(mats, b.Leaves(), b.index)
  {
    hide Order, Filter, NextPowerOfTwo;
    var idxs := b.Leaves();
    FilterHolds(b.Sorted(), (j: nat) => j < |b.dims| && NextPowerOfTwo(b.dims[j].height) == Pow2(b.depth));
    forall p | 0 <= p < |idxs|
      ensures b.rows[idxs[p]] == CellRow(mats, idxs[p], b.index)
    {
      var i := idxs[p];
      assert RowOpenedSomewhere(b, mats, i);
      var e: nat :| RowOpened(b, mats, i, e);
      NextOfPower(e);
      Pow2Injective(e, b.depth);
    }
    ConcatsAgree(b, mats, idxs, b.index);
  }

  /** The path recomputes the tree's nodes. */
  lemma {:induction false} PathFollowsTree(b: Batch, mats: seq<Matrix>, k: nat)
    requires OpensMatrices(b, mats) && k <= b.depth
    ensures b.At(Siblings(b, mats), k) == Node(b, mats, k, Shr(b.index, k))
  {
    hide Shr, Order, Filter, ConcatRows, ConcatAt, OpensMatrices, Neighbour, Batch.Joining, Batch.Leaves, Batch.Valid;
    ShapeOpened(b, mats);
    if k == 0 {
      ShrNone(b.index);
      LeafRows(b, mats);
    } else {
      PathFollowsTree(b, mats, k - 1);
      ShrStep(b.index, k - 1);
      JoiningRows(b, mats, k);
      PairOf(Shr(b.index, k - 1));
    }
  }

  lemma ShapeOpened(b: Batch, mats: seq<Matrix>)
    requires OpensMatrices(b, mats)
    ensures |b.dims| == |b.rows|
  {
  }

  lemma PairOf(j: nat)
    ensures j % 2 == 0 ==> 2 * (j / 2) == j && Neighbour(j) == 2 * (j / 2) + 1
    ensures j % 2 == 1 ==> 2 * (j / 2) + 1 == j && Neighbour(j) == 2 * (j / 2)
  {
  }

  lemma AtTheTop(b: Batch, mats: seq<Matrix>)
    requires OpensMatrices(b, mats)
    ensures b.Valid() && Shr(b.index, b.depth) == 0
  {
    hide Shr;
    ShrBound(b.index, b.depth, 0);
  }

  /** Completeness: the opening of a built tree leads to its root. */
  lemma TreeOpens(b: Batch, mats: seq<Matrix>)
    requires OpensMatrices(b, mats)
    ensures b.Opens(Siblings(b, mats), Node(b, mats, b.depth, 0))
  {
    hide Shr, OpensMatrices, Node, Batch.At, Siblings;
    AtTheTop(b, mats);
    PathFollowsTree(b, mats, b.depth);
  }

  // ---- Binding ----

  datatype Collision =
    | NoCollision
    | OfLeaf(x: seq<Fp>, y: seq<Fp>)
    | OfCompress(a: Digest, b: Digest, c: Digest, d: Digest)
  {
    /** Two different inputs with the same hash. */
    predicate Real(h: Hasher) {
      match this
      case NoCollision => false
      case OfLeaf(x, y) => x != y && h.leaf(x) == h.leaf(y)
      case OfCompress(a, b, c, d) => (a, b) != (c, d) && h.compress(a, b) == h.compress(c, d)
    }
  }

  lemma CompressBinds(h: Hasher, a: Digest, b: Digest, c: Digest, d: Digest) returns (r: Collision)
    requires h.compress(a, b) == h.compress(c, d)
    ensures r.Real(h) || (r == NoCollision && a == c && b == d)
  {
    r := if (a, b) == (c, d) then NoCollision else OfCompress(a, b, c, d);
  }

  ghost predicate SameRows(b: Batch, c: Batch, idxs: seq<nat>)
    requires |b.rows| == |b.dims| == |c.rows| && Below(idxs, |b.dims|)
  {
    forall p :: 0 <= p < |idxs| ==> b.rows[idxs[p]] == c.rows[idxs[p]]
  }

  ghost predicate SameWidths(b: Batch, c: Batch, idxs: seq<nat>)
    requires |b.rows| == |b.dims| == |c.rows| && Below(idxs, |b.dims|)
  {
    forall p :: 0 <= p < |idxs| ==> |b.rows[idxs[p]]| == |c.rows[idxs[p]]|
  }

  /** Two openings of the same shape at the same index; rows may have any widths. */
  ghost predicate SameShape(b: Batch, c: Batch) {
    b.h == c.h && b.dims == c.dims && b.index == c.index && b.depth == c.depth && |b.rows| == |b.dims| == |c.rows|
  }

  /** Every group of rows hashed in the first k steps reads the same, end to end. */
  ghost predicate SameHashed(b: Batch, c: Batch, k: nat)
    requires SameShape(b, c) && k <= b.depth
  {
    && ConcatRows(b.rows, b.Leaves()) == ConcatRows(c.rows, b.Leaves())
    && forall j: nat :: 0 < j <= k ==> ConcatRows(b.rows, b.Joining(j)) == ConcatRows(c.rows, b.Joining(j))
  }

  /** Rows that read the same end to end are the same when their widths are. */
  lemma {:induction false} ConcatsBind(b: Batch, c: Batch, idxs: seq<nat>)
    requires SameShape(b, c) && Below(idxs, |b.dims|) && SameWidths(b, c, idxs)
    requires ConcatRows(b.rows, idxs) == ConcatRows(c.rows, idxs)
    ensures SameRows(b, c, idxs)
  {
    if idxs != [] {
      var i := idxs[0];
      var x, y := ConcatRows(b.rows, idxs), ConcatRows(c.rows, idxs);
      assert x[..|b.rows[i]|] == b.rows[i] && y[..|c.rows[i]|] == c.rows[i];
      assert x[|b.rows[i]|..] == ConcatRows(b.rows, idxs[1..]) && y[|c.rows[i]|..] == ConcatRows(c.rows, idxs[1..]);
      assert forall p :: 0 < p < |idxs| ==> idxs[p] == idxs[1..][p - 1];
      ConcatsBind(b, c, idxs[1..]);
    }
  }

  lemma HashesBind(b: Batch, c: Batch, idxs: seq<nat>) returns (r: Collision)
    requires SameShape(b, c) && Below(idxs, |b.dims|)
    requires b.HashOf(idxs) == c.HashOf(idxs)
    ensures r.Real(b.h) || (r == NoCollision && ConcatRows(b.rows, idxs) == ConcatRows(c.rows, idxs))
  {
    var x, y := ConcatRows(b.rows, idxs), ConcatRows(c.rows, idxs);
    r := if x == y then NoCollision else OfLeaf(x, y);
  }

  /** Equal digests after k steps: what was hashed agrees, or here is a collision. */
  lemma {:induction false} DigestsBind(b: Batch, c: Batch, sibs: seq<Digest>, sibs': seq<Digest>, k: nat) returns (r: Collision)
    requires SameShape(b, c) && k <= b.depth && k <= |sibs| && k <= |sibs'|
    requires b.At(sibs, k) == c.At(sibs', k)
    ensures r.Real(b.h) || (r == NoCollision && SameHashed(b, c, k))
  {
    hide Order, Filter, ConcatRows, Shr;
    if k == 0 {
      r := HashesBind(b, c, b.Leaves());
    } else {
      r := NoCollision;
      if b.Joining(k) != [] {
        r := CompressBinds(b.h, b.Up(sibs, k), b.HashOf(b.Joining(k)), c.Up(sibs', k), c.HashOf(b.Joining(k)));
        if r == NoCollision {
          r := HashesBind(b, c, b.Joining(k));
        }
      } else {
        NothingConcatenated(b.rows);
        NothingConcatenated(c.rows);
      }
      if r == NoCollision {
        var d, d' := b.At(sibs, k - 1), c.At(sibs', k - 1);
        if Shr(b.index, k - 1) % 2 == 0 {
          r := CompressBinds(b.h, d, sibs[k - 1], d', sibs'[k - 1]);
        } else {
          r := CompressBinds(b.h, sibs[k - 1], d, sibs'[k - 1], d');
        }
        if r == NoCollision {
          r := DigestsBind(b, c, sibs, sibs', k - 1);
        }
      }
    }
  }

  lemma NothingConcatenated(rows: seq<seq<Fp>>)
    ensures ConcatRows(rows, []) == []
  {
  }

  /** Every absorbed row is the same, or every absorbed width. */
  ghost predicate AbsorbedRowsSame(b: Batch, c: Batch)
    requires SameShape(b, c)
  { forall i :: 0 <= i < |b.dims| && IsAbsorbed(b, i) ==> b.rows[i] == c.rows[i] }

  ghost predicate AbsorbedWidthsSame(b: Batch, c: Batch)
    requires SameShape(b, c)
  { forall i :: 0 <= i < |b.dims| && IsAbsorbed(b, i) ==> |b.rows[i]| == |c.rows[i]| }

  /** An absorbed row is hashed with the leaves or in one joining group. */
  lemma {:induction false} AbsorbedWhere(b: Batch, i: nat, k: nat)
    requires k <= b.depth && i in Absorbed(b, k)
    ensures i in b.Leaves() || exists j: nat :: 0 < j <= k && i in b.Joining(j)
  {
    if k > 0 && i !in b.Joining(k) {
      AbsorbedWhere(b, i, k - 1);
    }
  }

  /** Members of a group are absorbed. */
  lemma GroupAbsorbed(b: Batch, idxs: seq<nat>, k: nat, p: nat)
    requires b.Valid() && k <= b.depth && p < |idxs|
    requires idxs == b.Leaves() || (k > 0 && idxs == b.Joining(k))
    ensures idxs[p] < |b.dims| && IsAbsorbed(b, idxs[p])
  {
    hide Filter, Order, NextPowerOfTwo;
    var i := idxs[p];
    JoiningCount(b, i, k);
    assert i in multiset(idxs);
    if idxs != b.Leaves() {
      Log2OfPower(b.depth - k);
    }
  }

  lemma GroupBinds(b: Batch, c: Batch, idxs: seq<nat>, k: nat)
    requires SameShape(b, c) && b.Valid() && AbsorbedWidthsSame(b, c) && k <= b.depth
    requires idxs == b.Leaves() || (k > 0 && idxs == b.Joining(k))
    requires Below(idxs, |b.dims|) && ConcatRows(b.rows, idxs) == ConcatRows(c.rows, idxs)
    ensures SameRows(b, c, idxs)
  {
    hide Batch.Leaves, Batch.Joining, ConcatRows, IsAbsorbed;
    forall p | 0 <= p < |idxs|
      ensures |b.rows[idxs[p]]| == |c.rows[idxs[p]]|
    {
      GroupAbsorbed(b, idxs, k, p);
    }
    ConcatsBind(b, c, idxs);
  }

  /** Binding: of two openings of one shape, index and root, the absorbed rows are equal
      exactly when their widths are, or here is a collision of the leaf hash or the
      compression. */
  lemma OpeningsBind(b: Batch, c: Batch, sibs: seq<Digest>, sibs': seq<Digest>, root: Digest) returns (r: Collision)
    requires SameShape(b, c) && b.Opens(sibs, root) && c.Opens(sibs', root)
    ensures r.Real(b.h) || (r == NoCollision && SameHashed(b, c, b.depth))
    ensures r == NoCollision ==> (AbsorbedRowsSame(b, c) <==> AbsorbedWidthsSame(b, c))
  {
    hide Order, Filter, ConcatRows, Absorbed, IsAbsorbed, Batch.At, Batch.Leaves, Batch.Joining;
    r := DigestsBind(b, c, sibs, sibs', b.depth);
    if r == NoCollision && AbsorbedWidthsSame(b, c) {
      forall i | 0 <= i < |b.dims| && IsAbsorbed(b, i)
        ensures b.rows[i] == c.rows[i]
      {
        RowBinds(b, c, i);
      }
    }
  }

  lemma RowBinds(b: Batch, c: Batch, i: nat)
    requires SameShape(b, c) && b.Valid() && SameHashed(b, c, b.depth) && AbsorbedWidthsSame(b, c)
    requires i < |b.dims| && IsAbsorbed(b, i)
    ensures b.rows[i] == c.rows[i]
  {
    hide Order, Filter, ConcatRows, Absorbed, Batch.Leaves, Batch.Joining, IsAbsorbed;
    AbsorbedExactlyOnce(b, i);
    assert i in multiset(Absorbed(b, b.depth));
    AbsorbedWhere(b, i, b.depth);
    if i in b.Leaves() {
      GroupBinds(b, c, b.Leaves(), 0);
    } else {
      var j: nat :| 0 < j <= b.depth && i in b.Joining(j);
      GroupBinds(b, c, b.Joining(j), j);
    }
  }

  // ---- What an opening leaves free ----

  /** The batch with another row for matrix i. */
  function WithRow(b: Batch, i: nat, row: seq<Fp>): Batch
    requires i < |b.rows|
  { b.(rows := b.rows[i := row]) }

  lemma {:induction false} ConcatUnchanged(rows: seq<seq<Fp>>, idxs: seq<nat>, i: nat, row: seq<Fp>)
    requires Below(idxs, |rows|) && i < |rows| && i !in idxs
    ensures ConcatRows(rows[i := row], idxs) == ConcatRows(rows, idxs)
  {
    if idxs != [] {
      ConcatUnchanged(rows, idxs[1..], i, row);
    }
  }

  lemma UnabsorbedNowhere(b: Batch, i: nat, k: nat)
    requires b.Valid() && i < |b.dims| && !IsAbsorbed(b, i) && k <= b.depth
    ensures i !in b.Leaves() && (k > 0 ==> i !in b.Joining(k))
  {
    hide Filter, Order, NextPowerOfTwo, Batch.Leaves, Batch.Joining;
    JoiningCount(b, i, k);
    assert i in b.Leaves() ==> i in multiset(b.Leaves());
    assert i in b.Joining(k) ==> i in multiset(b.Joining(k));
    Log2OfPower(b.depth - k);
  }

  /** A row that is not absorbed is free: with any other row in its place the path runs
      through the same digests and opens the same roots. */
  lemma {:induction false} UnabsorbedIsFree(b: Batch, i: nat, row: seq<Fp>, sibs: seq<Digest>, k: nat)
    requires b.Valid() && i < |b.dims| && !IsAbsorbed(b, i) && k <= b.depth && k <= |sibs|
    ensures WithRow(b, i, row).At(sibs, k) == b.At(sibs, k)
  {
    hide Order, Filter, ConcatRows, Shr, IsAbsorbed;
    UnabsorbedNowhere(b, i, k);
    if k == 0 {
      ConcatUnchanged(b.rows, b.Leaves(), i, row);
    } else {
      UnabsorbedIsFree(b, i, row, sibs, k - 1);
      ConcatUnchanged(b.rows, b.Joining(k), i, row);
    }
  }

  lemma UnabsorbedOpens(b: Batch, i: nat, row: seq<Fp>, sibs: seq<Digest>, root: Digest)
    requires b.Valid() && i < |b.dims| && !IsAbsorbed(b, i)
    ensures WithRow(b, i, row).Opens(sibs, root) <==> b.Opens(sibs, root)
  {
    hide IsAbsorbed, Batch.At, MaxHeight, Pow2;
    if |sibs| == b.depth {
      UnabsorbedIsFree(b, i, row, sibs, b.depth);
    }
  }

  /** Beside a matrix of 8 rows, the row of one with 3 rows is free. */
  lemma HeightThreeIsFree(h: Hasher, row: seq<Fp>, x: seq<Fp>, y: seq<Fp>, index: nat, sibs: seq<Digest>, root: Digest)
    ensures var dims := [Dimensions(|row|, 8), Dimensions(|x|, 3)];
      Batch(h, dims, [row, x], index, 3).Opens(sibs, root) <==> Batch(h, dims, [row, y], index, 3).Opens(sibs, root)
  {
    hide Batch.Opens, IsAbsorbed;
    var b := Batch(h, [Dimensions(|row|, 8), Dimensions(|x|, 3)], [row, x], index, 3);
    EightAndThree(b);
    UnabsorbedOpens(b, 1, y, sibs, root);
    assert [row, x][1 := y] == [row, y];
  }

  lemma EightAndThree(b: Batch)
    requires |b.dims| == 2 == |b.rows| && b.dims[0].height == 8 && b.dims[1].height == 3 && b.depth == 3
    ensures b.Valid() && !IsAbsorbed(b, 1)
  {
    assert b.dims[..1][..0] == [];
    assert MaxHeight(b.dims[..1]) == 8;
    assert Pow2(3) == 8 && Pow2(2) == 4;
    NextOfThree();
    assert Log2(3) == 1;
  }

  lemma NextOfThree()
    ensures NextPowerOfTwo(3) == 4
  {
    var e := NextPowerIsLeast(3);
    assert Pow2(0) == 1 && Pow2(1) == 2 && Pow2(2) == 4;
    if e > 2 {
      Pow2Monotone(2, e - 1);
    }
  }
}
