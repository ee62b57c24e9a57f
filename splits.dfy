/**
 * Split records and what a sequence of them says about the mesh: which
 * faces each split owns, where its indices lie in the flat output buffers,
 * and the range its local indices must stay in.  Also the mu::Split kernel
 * that groups faces by a running vertex count.
 */
module Splits {
  import opened Kernels

  /** One output sub-buffer; every count is local to the split. */
  datatype Split = Split(num_faces: int, num_vertices: int, num_indices: int,
                         num_indices_triangulated: int, num_submeshes: int)

  /** Field-wise sums over a sequence of splits. */
  function Totals(splits: seq<Split>): Split
  {
    if splits == [] then Split(0, 0, 0, 0, 0)
    else
      var t := Totals(splits[..|splits| - 1]);
      var s := splits[|splits| - 1];
      Split(t.num_faces + s.num_faces, t.num_vertices + s.num_vertices, t.num_indices + s.num_indices,
            t.num_indices_triangulated + s.num_indices_triangulated, t.num_submeshes + s.num_submeshes)
  }

  /**
   * The split `s`, starting at face `f0`, owns faces f0 .. f0+num_faces-1:
   * its index count is their corner count and its triangulated count is
   * what fan triangulation of them produces.
   */
  predicate TileStep(f0: int, s: Split, counts: seq<int>)
  {
    && 0 <= f0 && 0 <= s.num_faces && f0 + s.num_faces <= |counts|
    && s.num_indices == Sum(counts[f0..f0 + s.num_faces])
    && s.num_indices_triangulated == TriCount(counts[f0..f0 + s.num_faces])
  }

  /** The splits own consecutive runs of faces of `counts`, in order, starting at face 0. */
  ghost predicate Tiles(splits: seq<Split>, counts: seq<int>)
    decreases |splits|
  {
    || splits == []
    || (&& Tiles(splits[..|splits| - 1], counts)
        && TileStep(Totals(splits[..|splits| - 1]).num_faces, splits[|splits| - 1], counts))
  }

  /** Block size a split owns in the flat index buffer (`triangulated` picks which one). */
  function BlockSize(s: Split, triangulated: bool): int
  {
    if triangulated then s.num_indices_triangulated else s.num_indices
  }

  /** The last `n` entries of `idx` lie in [0, bound). */
  predicate TailBelow(idx: seq<int>, n: int, bound: int)
  {
    0 <= n <= |idx| && forall k :: |idx| - n <= k < |idx| ==> 0 <= idx[k] < bound
  }

  /**
   * `idx` is the concatenation of one block per split, and every index in a
   * split's block is local to it: in [0, num_vertices) of that split.
   */
  ghost predicate LocalRanges(splits: seq<Split>, idx: seq<int>, triangulated: bool)
    decreases |splits|
  {
    if splits == [] then idx == []
    else
      && TailBelow(idx, BlockSize(splits[|splits| - 1], triangulated), splits[|splits| - 1].num_vertices)
      && LocalRanges(splits[..|splits| - 1], idx[..|idx| - BlockSize(splits[|splits| - 1], triangulated)], triangulated)
  }

  lemma {:induction false} InitLast<T>(s: seq<T>)
    requires s != []
    ensures s[..|s| - 1] + [s[|s| - 1]] == s
  {
  }

  lemma {:induction false} TotalsAppend(splits: seq<Split>, s: Split)
    ensures Totals(splits + [s]) == Split(Totals(splits).num_faces + s.num_faces,
                                          Totals(splits).num_vertices + s.num_vertices,
                                          Totals(splits).num_indices + s.num_indices,
                                          Totals(splits).num_indices_triangulated + s.num_indices_triangulated,
                                          Totals(splits).num_submeshes + s.num_submeshes)
  {
    assert (splits + [s])[..|splits|] == splits;
  }

  /** A tiling covers a prefix of the faces and accounts for exactly their corners and triangles. */
  lemma {:induction false} TilesTotals(splits: seq<Split>, counts: seq<int>)
    requires Tiles(splits, counts)
    ensures 0 <= Totals(splits).num_faces <= |counts|
    ensures Totals(splits).num_indices == Sum(counts[..Totals(splits).num_faces])
    ensures Totals(splits).num_indices_triangulated == TriCount(counts[..Totals(splits).num_faces])
    decreases |splits|
  {
    if splits != [] {
      var pre := splits[..|splits| - 1];
      var s := splits[|splits| - 1];
      TilesTotals(pre, counts);
      var f0 := Totals(pre).num_faces;
      SumSlices(counts, f0, f0 + s.num_faces);
      TriCountSlices(counts, f0, f0 + s.num_faces);
    }
  }

  /** What a tiling says about its last split. */
  lemma {:induction false} TilesLast(splits: seq<Split>, counts: seq<int>)
    requires Tiles(splits, counts) && splits != []
    ensures Tiles(splits[..|splits| - 1], counts)
    ensures TileStep(Totals(splits[..|splits| - 1]).num_faces, splits[|splits| - 1], counts)
  {
  }

  /** A prefix of a tiling is a tiling. */
  lemma {:induction false} TilesPrefix(splits: seq<Split>, counts: seq<int>, k: int)
    requires Tiles(splits, counts) && 0 <= k <= |splits|
    ensures Tiles(splits[..k], counts)
    decreases |splits|
  {
    if k == |splits| {
      assert splits[..k] == splits;
    } else {
      var pre := splits[..|splits| - 1];
      TilesLast(splits, counts);
      TilesPrefix(pre, counts, k);
      assert pre[..k] == splits[..k];
    }
  }

  /**
   * Split k of a tiling starts at the face where the splits before it end,
   * and the totals through it add its own counts to theirs.
   */
  lemma {:induction false} TilesAt(splits: seq<Split>, counts: seq<int>, k: int)
    requires Tiles(splits, counts) && 0 <= k < |splits|
    ensures Tiles(splits[..k], counts) && Tiles(splits[..k + 1], counts)
    ensures TileStep(Totals(splits[..k]).num_faces, splits[k], counts)
    ensures Totals(splits[..k + 1]).num_faces == Totals(splits[..k]).num_faces + splits[k].num_faces
    ensures Totals(splits[..k + 1]).num_indices == Totals(splits[..k]).num_indices + splits[k].num_indices
    ensures Totals(splits[..k + 1]).num_indices_triangulated
         == Totals(splits[..k]).num_indices_triangulated + splits[k].num_indices_triangulated
  {
    TilesPrefix(splits, counts, k + 1);
    TilesPrefix(splits, counts, k);
    assert splits[..k + 1][..k] == splits[..k];
    TilesLast(splits[..k + 1], counts);
  }

  /** The splits before k own no more faces, corners or triangulated indices than all of them. */
  lemma {:induction false} TotalsPrefix(splits: seq<Split>, counts: seq<int>, k: int)
    requires Tiles(splits, counts) && Polygons(counts) && 0 <= k <= |splits|
    ensures 0 <= Totals(splits[..k]).num_faces <= Totals(splits).num_faces
    ensures 0 <= Totals(splits[..k]).num_indices <= Totals(splits).num_indices
    ensures 0 <= Totals(splits[..k]).num_indices_triangulated <= Totals(splits).num_indices_triangulated
    decreases |splits| - k
  {
    TilesPrefix(splits, counts, k);
    TilesTotals(splits[..k], counts);
    var f := Totals(splits[..k]).num_faces;
    SumPolygons(counts[..f]);
    if k == |splits| {
      assert splits[..k] == splits;
    } else {
      TilesAt(splits, counts, k);
      TotalsPrefix(splits, counts, k + 1);
      SumPolygons(counts[f..f + splits[k].num_faces]);
    }
  }

  /** Closing the next run of faces as a split extends the tiling. */
  lemma {:induction false} TilesAppend(splits: seq<Split>, counts: seq<int>, s: Split)
    requires Tiles(splits, counts)
    requires 0 <= s.num_faces && Totals(splits).num_faces + s.num_faces <= |counts|
    requires s.num_indices == Sum(counts[Totals(splits).num_faces..Totals(splits).num_faces + s.num_faces])
    requires s.num_indices_triangulated == TriCount(counts[Totals(splits).num_faces..Totals(splits).num_faces + s.num_faces])
    ensures Tiles(splits + [s], counts)
  {
    assert (splits + [s])[..|splits|] == splits;
    TilesTotals(splits, counts);
  }

  /** Appending a split and a block of indices local to it keeps every block local. */
  lemma {:induction false} LocalRangesAppend(splits: seq<Split>, idx: seq<int>, triangulated: bool, s: Split, block: seq<int>)
    requires LocalRanges(splits, idx, triangulated)
    requires |block| == BlockSize(s, triangulated)
    requires forall k :: 0 <= k < |block| ==> 0 <= block[k] < s.num_vertices
    ensures LocalRanges(splits + [s], idx + block, triangulated)
  {
    assert (splits + [s])[..|splits|] == splits;
    assert (idx + block)[..|idx|] == idx;
  }

  /** The blocks of LocalRanges add up to the whole buffer. */
  lemma {:induction false} LocalRangesLength(splits: seq<Split>, idx: seq<int>, triangulated: bool)
    requires LocalRanges(splits, idx, triangulated)
    ensures |idx| == (if triangulated then Totals(splits).num_indices_triangulated else Totals(splits).num_indices)
    decreases |splits|
  {
    if splits != [] {
      var s := splits[|splits| - 1];
      LocalRangesLength(splits[..|splits| - 1], idx[..|idx| - BlockSize(s, triangulated)], triangulated);
    }
  }

  /**
   * The global vertex index of every entry of `idx`: each split's local
   * indices shifted by the vertices of the splits before it.
   */
  ghost function Globalize(splits: seq<Split>, idx: seq<int>): (r: seq<int>)
    requires LocalRanges(splits, idx, false)
    ensures |r| == |idx|
    decreases |splits|
  {
    if splits == [] then []
    else
      var pre := splits[..|splits| - 1];
      var s := splits[|splits| - 1];
      var base := |idx| - s.num_indices;
      Globalize(pre, idx[..base]) + seq(s.num_indices, j requires 0 <= j < s.num_indices => idx[base + j] + Totals(pre).num_vertices)
  }

  /** Closing a split with a block of local indices extends the global indices by the block, shifted. */
  lemma {:induction false} GlobalizeAppend(splits: seq<Split>, idx: seq<int>, s: Split, block: seq<int>)
    requires LocalRanges(splits, idx, false)
    requires |block| == s.num_indices && forall k :: 0 <= k < |block| ==> 0 <= block[k] < s.num_vertices
    ensures LocalRanges(splits + [s], idx + block, false)
    ensures Globalize(splits + [s], idx + block)
         == Globalize(splits, idx) + seq(|block|, j requires 0 <= j < |block| => block[j] + Totals(splits).num_vertices)
  {
    LocalRangesAppend(splits, idx, false, s, block);
    var all := splits + [s];
    assert all[..|all| - 1] == splits;
    assert (idx + block)[..|idx|] == idx;
    assert LocalRanges(splits, (idx + block)[..|idx|], false);
    GlobalizeUnfold(all, idx + block, splits, s, |idx|);
    var t := Totals(splits).num_vertices;
    assert seq(s.num_indices, j requires 0 <= j < s.num_indices => (idx + block)[|idx| + j] + t)
        == seq(|block|, j requires 0 <= j < |block| => block[j] + t);
  }

  /** Globalize by its definition, once the facts its body needs are at hand. */
  lemma {:induction false} GlobalizeUnfold(all: seq<Split>, ix: seq<int>, pre: seq<Split>, s: Split, base: int)
    requires LocalRanges(all, ix, false) && all != []
    requires pre == all[..|all| - 1] && s == all[|all| - 1] && base == |ix| - s.num_indices
    requires 0 <= base <= |ix| && LocalRanges(pre, ix[..base], false)
    ensures Globalize(all, ix)
         == Globalize(pre, ix[..base]) + seq(s.num_indices, j requires 0 <= j < s.num_indices => ix[base + j] + Totals(pre).num_vertices)
  {
  }

  /**
   * The triangulation pass of doRefine: each split's faces triangulated with
   * that split's block of local indices, blocks concatenated in split order.
   */
  function TriangulateSplits(splits: seq<Split>, counts: seq<int>, idx: seq<int>, swap: bool): seq<int>
    requires Tiles(splits, counts) && Polygons(counts)
    requires |idx| == Totals(splits).num_indices
    decreases |splits|
  {
    if splits == [] then []
    else
      var pre := splits[..|splits| - 1];
      var s := splits[|splits| - 1];
      var f0 := Totals(pre).num_faces;
      var base := |idx| - s.num_indices;
      TilesTotals(pre, counts);
      SumPolygons(counts[..f0]);
      SumPolygons(counts[f0..f0 + s.num_faces]);
      TriangulateSplits(pre, counts, idx[..base], swap)
        + TriangulateWithIndices(counts[f0..f0 + s.num_faces], idx[base..], swap)
  }

  /** One step of TriangulateSplits: the last split's block comes last. */
  lemma {:induction false} TriangulateSplitsLast(splits: seq<Split>, counts: seq<int>, idx: seq<int>, swap: bool,
                                                 pre: seq<Split>, s: Split, f0: int, base: int)
    requires Tiles(splits, counts) && Polygons(counts) && splits != []
    requires |idx| == Totals(splits).num_indices
    requires pre == splits[..|splits| - 1] && s == splits[|splits| - 1]
    requires f0 == Totals(pre).num_faces && base == |idx| - s.num_indices
    ensures TileStep(f0, s, counts) && Tiles(pre, counts) && 0 <= base <= |idx| && base == Totals(pre).num_indices
    ensures Polygons(counts[f0..f0 + s.num_faces])
    ensures TriangulateSplits(splits, counts, idx, swap)
         == TriangulateSplits(pre, counts, idx[..base], swap)
          + TriangulateWithIndices(counts[f0..f0 + s.num_faces], idx[base..], swap)
  {
    TilesLast(splits, counts);
    TilesTotals(pre, counts);
    SumPolygons(counts[..f0]);
    SumPolygons(counts[f0..f0 + s.num_faces]);
    TriangulateSplitsUnfold(splits, counts, idx, swap, pre, s, f0, base);
  }

  /** TriangulateSplits by its definition, once the facts its body needs are at hand. */
  lemma {:induction false} TriangulateSplitsUnfold(splits: seq<Split>, counts: seq<int>, idx: seq<int>, swap: bool,
                                pre: seq<Split>, s: Split, f0: int, base: int)
    requires Tiles(splits, counts) && Polygons(counts) && splits != []
    requires |idx| == Totals(splits).num_indices
    requires pre == splits[..|splits| - 1] && s == splits[|splits| - 1]
    requires f0 == Totals(pre).num_faces && base == |idx| - s.num_indices
    requires Tiles(pre, counts) && 0 <= base <= |idx| && base == Totals(pre).num_indices
    requires 0 <= f0 <= f0 + s.num_faces <= |counts| && Polygons(counts[f0..f0 + s.num_faces])
    requires Sum(counts[f0..f0 + s.num_faces]) == |idx| - base
    ensures TriangulateSplits(splits, counts, idx, swap)
         == TriangulateSplits(pre, counts, idx[..base], swap)
          + TriangulateWithIndices(counts[f0..f0 + s.num_faces], idx[base..], swap)
  {
  }

  /**
   * Split k of a tiling owns faces f0 .. f1-1 and index positions i0 .. i1-1:
   * polygons whose corners add up to its block.
   */
  lemma {:induction false} TileBounds(splits: seq<Split>, counts: seq<int>, k: int, f0: int, f1: int, i0: int, i1: int)
    requires Tiles(splits, counts) && Polygons(counts) && 0 <= k < |splits|
    requires f0 == Totals(splits[..k]).num_faces && f1 == f0 + splits[k].num_faces
    requires i0 == Totals(splits[..k]).num_indices && i1 == i0 + splits[k].num_indices
    ensures Tiles(splits[..k], counts) && Tiles(splits[..k + 1], counts)
    ensures 0 <= f0 <= f1 <= |counts| && 0 <= i0 <= i1
    ensures Polygons(counts[f0..f1]) && Sum(counts[f0..f1]) == i1 - i0
    ensures Totals(splits[..k + 1]).num_faces == f1 && Totals(splits[..k + 1]).num_indices == i1
    ensures Totals(splits[..k + 1]).num_indices_triangulated
         == Totals(splits[..k]).num_indices_triangulated + TriCount(counts[f0..f1])
  {
    TilesAt(splits, counts, k);
    TilesTotals(splits[..k], counts);
    SumPolygons(counts[..f0]);
    SumPolygons(counts[f0..f1]);
  }

  /**
   * TriangulateSplits over one more split: the block of split k, triangulated
   * with its own indices, follows the blocks of the splits before it.
   */
  lemma {:induction false} TriangulateSplitsStep(splits: seq<Split>, counts: seq<int>, idx: seq<int>, swap: bool,
                              k: int, f0: int, f1: int, i0: int, i1: int)
    requires Polygons(counts) && 0 <= k < |splits|
    requires f0 == Totals(splits[..k]).num_faces && f1 == f0 + splits[k].num_faces
    requires i0 == Totals(splits[..k]).num_indices && i1 == i0 + splits[k].num_indices && i1 <= |idx|
    requires Tiles(splits[..k], counts) && Tiles(splits[..k + 1], counts)
    requires 0 <= f0 <= f1 <= |counts| && 0 <= i0 <= i1
    requires Polygons(counts[f0..f1]) && Sum(counts[f0..f1]) == i1 - i0
    requires Totals(splits[..k + 1]).num_indices == i1
    ensures TriangulateSplits(splits[..k + 1], counts, idx[..i1], swap)
         == TriangulateSplits(splits[..k], counts, idx[..i0], swap)
          + TriangulateWithIndices(counts[f0..f1], idx[i0..i1], swap)
  {
    var pre, a, b := splits[..k], idx[..i0], idx[i0..i1];
    assert splits[..k + 1] == pre + [splits[k]];
    assert idx[..i1] == a + b;
    TriangulateSplitsAppend(pre, splits[k], counts, a, b, swap, f0, f1);
  }

  /** TriangulateSplits of a tiling with one more split, stated on the parts. */
  lemma {:induction false} TriangulateSplitsAppend(pre: seq<Split>, s: Split, counts: seq<int>, ix0: seq<int>, ix1: seq<int>, swap: bool,
                                f0: int, f1: int)
    requires Tiles(pre + [s], counts) && Polygons(counts)
    requires |ix0| == Totals(pre).num_indices && |ix1| == s.num_indices
    requires f0 == Totals(pre).num_faces && f1 == f0 + s.num_faces
    ensures Tiles(pre, counts) && |ix0 + ix1| == Totals(pre + [s]).num_indices
    ensures TileStep(f0, s, counts) && 0 <= f0 <= f1 <= |counts|
    ensures TriangulateSplits(pre + [s], counts, ix0 + ix1, swap)
         == TriangulateSplits(pre, counts, ix0, swap) + TriangulateWithIndices(counts[f0..f1], ix1, swap)
  {
    var all := pre + [s];
    assert all[..|all| - 1] == pre && all[|all| - 1] == s;
    TotalsAppend(pre, s);
    TilesLast(all, counts);
    TilesTotals(pre, counts);
    SumPolygons(counts[..f0]);
    SumPolygons(counts[f0..f1]);
    assert (ix0 + ix1)[..|ix0|] == ix0 && (ix0 + ix1)[|ix0|..] == ix1;
    TriangulateSplitsUnfold(all, counts, ix0 + ix1, swap, pre, s, f0, |ix0|);
  }

  /**
   * Triangulating local indices keeps them local: if every split's block of
   * `idx` is in [0, num_vertices), so is every split's triangulated block,
   * and the triangulated buffer has the length the splits announce.
   */
  lemma {:induction false} TriangulatedLocal(splits: seq<Split>, counts: seq<int>, idx: seq<int>, swap: bool)
    requires Tiles(splits, counts) && Polygons(counts)
    requires LocalRanges(splits, idx, false)
    ensures |idx| == Totals(splits).num_indices
    ensures LocalRanges(splits, TriangulateSplits(splits, counts, idx, swap), true)
    ensures |TriangulateSplits(splits, counts, idx, swap)| == Totals(splits).num_indices_triangulated
    decreases |splits|
  {
    LocalRangesLength(splits, idx, false);
    if splits != [] {
      var pre := splits[..|splits| - 1];
      var s := splits[|splits| - 1];
      var base := |idx| - s.num_indices;
      var f0 := Totals(pre).num_faces;
      TriangulateSplitsLast(splits, counts, idx, swap, pre, s, f0, base);
      assert LocalRanges(pre, idx[..base], false);
      TriangulatedLocal(pre, counts, idx[..base], swap);
      TriangulatedBlock(counts[f0..f0 + s.num_faces], idx, s, swap);
      LocalBlockAppend(splits, pre, s, TriangulateSplits(pre, counts, idx[..base], swap),
                       TriangulateWithIndices(counts[f0..f0 + s.num_faces], idx[base..], swap),
                       TriangulateSplits(splits, counts, idx, swap));
    }
  }

  /** The last split's faces, triangulated with its own block of local indices, give local indices. */
  lemma {:induction false} TriangulatedBlock(cs: seq<int>, idx: seq<int>, s: Split, swap: bool)
    requires Polygons(cs) && Sum(cs) == s.num_indices && s.num_indices_triangulated == TriCount(cs)
    requires TailBelow(idx, s.num_indices, s.num_vertices)
    ensures var block := TriangulateWithIndices(cs, idx[|idx| - s.num_indices..], swap);
      && |block| == s.num_indices_triangulated
      && forall k :: 0 <= k < |block| ==> 0 <= block[k] < s.num_vertices
  {
    ElementsBelow(idx, s.num_indices, TriangulateWithIndices(cs, idx[|idx| - s.num_indices..], swap), s.num_vertices);
  }

  /** Appending the last split's local triangulated block keeps every block local. */
  lemma {:induction false} LocalBlockAppend(splits: seq<Split>, pre: seq<Split>, s: Split,
                                            tpre: seq<int>, block: seq<int>, r: seq<int>)
    requires splits != [] && pre == splits[..|splits| - 1] && s == splits[|splits| - 1]
    requires LocalRanges(pre, tpre, true) && |tpre| == Totals(pre).num_indices_triangulated
    requires |block| == s.num_indices_triangulated && forall k :: 0 <= k < |block| ==> 0 <= block[k] < s.num_vertices
    requires r == tpre + block
    ensures LocalRanges(splits, r, true) && |r| == Totals(splits).num_indices_triangulated
  {
    LocalRangesAppend(pre, tpre, true, s, block);
    TotalsAppend(pre, s);
    InitLast(splits);
  }

  /** Indices drawn from the last `m` entries of `idx`, all below `n`, are below `n` too. */
  lemma {:induction false} ElementsBelow(idx: seq<int>, m: int, r: seq<int>, n: int)
    requires TailBelow(idx, m, n)
    requires forall t :: 0 <= t < |r| ==> r[t] in idx[|idx| - m..]
    ensures forall t :: 0 <= t < |r| ==> 0 <= r[t] < n
  {
    forall t | 0 <= t < |r|
      ensures 0 <= r[t] < n
    {
      var j :| 0 <= j < m && idx[|idx| - m..][j] == r[t];
      assert idx[|idx| - m + j] == r[t];
    }
  }

  /**
   * The triangulation pass of refineDumb's split path: each split's faces
   * triangulated by mu::Triangulate, whose corners are positions local to
   * the split.
   */
  function TriangulateLocal(splits: seq<Split>, counts: seq<int>, swap: bool): (r: seq<int>)
    requires Tiles(splits, counts) && Polygons(counts)
    decreases |splits|
  {
    if splits == [] then []
    else
      var pre := splits[..|splits| - 1];
      var s := splits[|splits| - 1];
      var f0 := Totals(pre).num_faces;
      TriangulateLocal(pre, counts, swap) + Triangulate(counts[f0..f0 + s.num_faces], swap)
  }

  /** TriangulateLocal over one more split: split k's faces triangulated on their own follow. */
  lemma {:induction false} TriangulateLocalStep(splits: seq<Split>, counts: seq<int>, swap: bool, k: int, f0: int, f1: int)
    requires Tiles(splits, counts) && Polygons(counts) && 0 <= k < |splits|
    requires f0 == Totals(splits[..k]).num_faces && f1 == f0 + splits[k].num_faces
    ensures Tiles(splits[..k], counts) && Tiles(splits[..k + 1], counts)
    ensures 0 <= f0 <= f1 <= |counts|
    ensures TriCount(counts[f0..f1]) == splits[k].num_indices_triangulated
    ensures TriangulateLocal(splits[..k + 1], counts, swap)
         == TriangulateLocal(splits[..k], counts, swap) + Triangulate(counts[f0..f1], swap)
  {
    TilesAt(splits, counts, k);
    assert splits[..k + 1][..k] == splits[..k];
  }

  /**
   * When every split has one vertex per corner (the flattened layout),
   * each split's triangulated block indexes only that split's vertices.
   */
  lemma {:induction false} TriangulateLocalRanges(splits: seq<Split>, counts: seq<int>, swap: bool)
    requires Tiles(splits, counts) && Polygons(counts)
    requires forall s :: s in splits ==> s.num_vertices == s.num_indices
    ensures LocalRanges(splits, TriangulateLocal(splits, counts, swap), true)
    ensures |TriangulateLocal(splits, counts, swap)| == Totals(splits).num_indices_triangulated
    decreases |splits|
  {
    if splits != [] {
      var pre := splits[..|splits| - 1];
      var s := splits[|splits| - 1];
      var f0 := Totals(pre).num_faces;
      assert s in splits;
      assert forall x :: x in pre ==> x in splits;
      TriangulateLocalLast(splits, counts, swap, pre, s, f0);
      TriangulateLocalRanges(pre, counts, swap);
      LocalBlockAppend(splits, pre, s, TriangulateLocal(pre, counts, swap),
                       Triangulate(counts[f0..f0 + s.num_faces], swap), TriangulateLocal(splits, counts, swap));
    }
  }

  /** One step of TriangulateLocal: the last split's faces, triangulated on their own, come last. */
  lemma {:induction false} TriangulateLocalLast(splits: seq<Split>, counts: seq<int>, swap: bool,
                                                pre: seq<Split>, s: Split, f0: int)
    requires Tiles(splits, counts) && Polygons(counts) && splits != []
    requires pre == splits[..|splits| - 1] && s == splits[|splits| - 1] && f0 == Totals(pre).num_faces
    ensures TileStep(f0, s, counts) && Tiles(pre, counts) && Polygons(counts[f0..f0 + s.num_faces])
    ensures TriangulateLocal(splits, counts, swap) == TriangulateLocal(pre, counts, swap) + Triangulate(counts[f0..f0 + s.num_faces], swap)
  {
    TilesLast(splits, counts);
    TriangulateLocalUnfold(splits, counts, swap);
  }

  /** TriangulateLocal by its definition, once the facts its body needs are at hand. */
  lemma {:induction false} TriangulateLocalUnfold(splits: seq<Split>, counts: seq<int>, swap: bool)
    requires Tiles(splits, counts) && Polygons(counts) && splits != []
    requires Tiles(splits[..|splits| - 1], counts)
    requires 0 <= Totals(splits[..|splits| - 1]).num_faces <= Totals(splits[..|splits| - 1]).num_faces + splits[|splits| - 1].num_faces <= |counts|
    ensures TriangulateLocal(splits, counts, swap)
         == TriangulateLocal(splits[..|splits| - 1], counts, swap)
          + Triangulate(counts[Totals(splits[..|splits| - 1]).num_faces..Totals(splits[..|splits| - 1]).num_faces + splits[|splits| - 1].num_faces], swap)
  {
  }

  /**
   * mu::Split: walks the faces keeping a running vertex count (every corner
   * is a vertex) and closes a group before a face that would take the count
   * past `maxVertices`; the last group is closed after the walk.  Each group
   * is what the kernel hands its callback.
   */
  method SplitFaces(counts: seq<int>, maxVertices: int) returns (groups: seq<Split>)
    requires NonNegative(counts)
    ensures Tiles(groups, counts) && Totals(groups).num_faces == |counts|
    ensures forall g :: g in groups ==> g.num_vertices == g.num_indices && g.num_submeshes == 0
    ensures 0 <= maxVertices && (forall f :: 0 <= f < |counts| ==> counts[f] <= maxVertices) ==>
              forall g :: g in groups ==> g.num_vertices <= maxVertices
  {
    ghost var fits := 0 <= maxVertices && forall f :: 0 <= f < |counts| ==> counts[f] <= maxVertices;
    var num_faces, num_vertices, num_tri := 0, 0, 0;
    groups := [];
    var fi := 0;
    ghost var start := 0;  // first face of the open group
    while fi < |counts|
      invariant 0 <= start <= fi <= |counts| && num_faces == fi - start
      invariant Grouped(groups, counts, start, fits, maxVertices)
      invariant num_vertices == Sum(counts[start..fi])
      invariant num_tri == TriCount(counts[start..fi])
      invariant fits ==> num_vertices <= maxVertices
    {
      var count := counts[fi];
      if num_vertices + count > maxVertices {
        var g := Split(num_faces, num_vertices, num_vertices, num_tri, 0);
        GroupedAppend(groups, counts, start, fi, fits, maxVertices, g);
        groups := groups + [g];
        num_faces, num_vertices, num_tri := 0, 0, 0;
        start := fi;
      }
      RangeExtend(counts, start, fi);
      num_faces, num_vertices, num_tri := num_faces + 1, num_vertices + count, num_tri + Tri(count);
      fi := fi + 1;
    }
    var g := Split(num_faces, num_vertices, num_vertices, num_tri, 0);
    GroupedAppend(groups, counts, start, fi, fits, maxVertices, g);
    groups := groups + [g];
  }

  /**
   * SplitFaces' closed groups tile faces 0 .. start-1, each with one vertex
   * per corner, and within maxVertices when every face fits.
   */
  ghost predicate Grouped(groups: seq<Split>, counts: seq<int>, start: int, fits: bool, maxVertices: int)
  {
    && Tiles(groups, counts) && Totals(groups).num_faces == start
    && (forall g :: g in groups ==> g.num_vertices == g.num_indices && g.num_submeshes == 0)
    && (fits ==> forall g :: g in groups ==> g.num_vertices <= maxVertices)
  }

  /** Closing SplitFaces' open group of faces start .. fi-1 keeps the closed groups Grouped. */
  lemma {:induction false} GroupedAppend(groups: seq<Split>, counts: seq<int>, start: int, fi: int, fits: bool,
                                         maxVertices: int, g: Split)
    requires Grouped(groups, counts, start, fits, maxVertices) && 0 <= start <= fi <= |counts|
    requires g == Split(fi - start, Sum(counts[start..fi]), Sum(counts[start..fi]), TriCount(counts[start..fi]), 0)
    requires fits ==> g.num_vertices <= maxVertices
    ensures Grouped(groups + [g], counts, fi, fits, maxVertices)
  {
    TilesAppend(groups, counts, g);
    TotalsAppend(groups, g);
  }

  /** The sum loop of doRefine's triangulation pass: the splits' triangulated indices in total. */
  method TriangulatedTotal(splits: seq<Split>) returns (nindices: int)
    ensures nindices == Totals(splits).num_indices_triangulated
  {
    nindices := 0;
    var k := 0;
    while k < |splits|
      invariant 0 <= k <= |splits| && nindices == Totals(splits[..k]).num_indices_triangulated
    {
      TotalsAppend(splits[..k], splits[k]);
      assert splits[..k + 1] == splits[..k] + [splits[k]];
      nindices := nindices + splits[k].num_indices_triangulated;
      k := k + 1;
    }
    assert splits[..|splits|] == splits;
  }

  /**
   * The triangulation pass of doRefine: the output buffer is resized to the
   * splits' total of triangulated indices, then each split's faces are
   * triangulated with its block of indices into the next block of the
   * buffer.
   */
  method TriangulatePass(splits: seq<Split>, counts: seq<int>, idx: seq<int>, swap: bool, tri0: seq<int>)
    returns (tri: seq<int>)
    requires Tiles(splits, counts) && Polygons(counts) && |idx| == Totals(splits).num_indices
    ensures tri == TriangulateSplits(splits, counts, idx, swap)
    ensures |tri| == Totals(splits).num_indices_triangulated
  {
    var nindices := TriangulatedTotal(splits);
    TotalsPrefix(splits, counts, 0);
    tri := Resize(tri0, nindices, 0);
    var w, f0, i0 := 0, 0, 0;
    var k := 0;
    while k < |splits|
      invariant 0 <= k <= |splits| && Tiles(splits[..k], counts)
      invariant |tri| == nindices == Totals(splits).num_indices_triangulated
      invariant w == Totals(splits[..k]).num_indices_triangulated && f0 == Totals(splits[..k]).num_faces
      invariant i0 == Totals(splits[..k]).num_indices && 0 <= i0 <= |idx| && 0 <= w <= nindices
      invariant tri[..w] == TriangulateSplits(splits[..k], counts, idx[..i0], swap)
    {
      var s := splits[k];
      var f1, i1 := f0 + s.num_faces, i0 + s.num_indices;
      TileBounds(splits, counts, k, f0, f1, i0, i1);
      TotalsPrefix(splits, counts, k + 1);
      TriangulateSplitsStep(splits, counts, idx, swap, k, f0, f1, i0, i1);
      var block := TriangulateWithIndices(counts[f0..f1], idx[i0..i1], swap);
      assert w + |block| == Totals(splits[..k + 1]).num_indices_triangulated <= nindices;
      var rest := tri[w + |block|..];
      tri := tri[..w] + block + rest;
      assert tri[..w + |block|] == TriangulateSplits(splits[..k + 1], counts, idx[..i1], swap);
      w, f0, i0 := w + |block|, f1, i1;
      k := k + 1;
    }
    assert splits[..k] == splits && idx[..i0] == idx && tri[..w] == tri;
  }

  /**
   * The triangulation pass of refineDumb's split path: each group's faces,
   * triangulated on their own by mu::Triangulate, are written one block
   * after another from the start of `tri`; the rest of `tri` is kept.
   */
  method TriangulateGroups(groups: seq<Split>, counts: seq<int>, swap: bool, tri0: seq<int>) returns (tri: seq<int>)
    requires Tiles(groups, counts) && Polygons(counts)
    requires 0 <= Totals(groups).num_indices_triangulated <= |tri0|
    ensures |tri| == |tri0|
    ensures tri[..Totals(groups).num_indices_triangulated] == TriangulateLocal(groups, counts, swap)
    ensures tri[Totals(groups).num_indices_triangulated..] == tri0[Totals(groups).num_indices_triangulated..]
  {
    TotalsPrefix(groups, counts, 0);
    tri := tri0;
    var w, f0 := 0, 0;
    var k := 0;
    while k < |groups|
      invariant 0 <= k <= |groups| && |tri| == |tri0|
      invariant w == Totals(groups[..k]).num_indices_triangulated && f0 == Totals(groups[..k]).num_faces
      invariant 0 <= w <= Totals(groups).num_indices_triangulated && Tiles(groups[..k], counts)
      invariant tri[..w] == TriangulateLocal(groups[..k], counts, swap) && tri[w..] == tri0[w..]
    {
      var f1 := f0 + groups[k].num_faces;
      GroupBlock(groups, counts, swap, k, f0, f1);
      var block := Triangulate(counts[f0..f1], swap);
      tri := WriteBlock(tri, tri0, w, block, TriangulateLocal(groups[..k], counts, swap));
      w, f0 := w + |block|, f1;
      k := k + 1;
    }
    assert groups[..k] == groups;
  }

  /** Group k's faces f0 .. f1-1 are polygons, and its block follows the groups before it in TriangulateLocal. */
  lemma {:induction false} GroupBlock(groups: seq<Split>, counts: seq<int>, swap: bool, k: int, f0: int, f1: int)
    requires Tiles(groups, counts) && Polygons(counts) && 0 <= k < |groups|
    requires f0 == Totals(groups[..k]).num_faces && f1 == f0 + groups[k].num_faces
    ensures 0 <= f0 <= f1 <= |counts| && Polygons(counts[f0..f1])
    ensures Tiles(groups[..k], counts) && Tiles(groups[..k + 1], counts)
    ensures Totals(groups[..k + 1]).num_faces == f1
    ensures Totals(groups[..k + 1]).num_indices_triangulated
         == Totals(groups[..k]).num_indices_triangulated + |Triangulate(counts[f0..f1], swap)|
    ensures Totals(groups[..k + 1]).num_indices_triangulated <= Totals(groups).num_indices_triangulated
    ensures TriangulateLocal(groups[..k + 1], counts, swap)
         == TriangulateLocal(groups[..k], counts, swap) + Triangulate(counts[f0..f1], swap)
  {
    var i0 := Totals(groups[..k]).num_indices;
    TileBounds(groups, counts, k, f0, f1, i0, i0 + groups[k].num_indices);
    TriangulateLocalStep(groups, counts, swap, k, f0, f1);
    TotalsPrefix(groups, counts, k + 1);
  }

  /** A block written over `tri` at w, after a prefix `pre` and before what is left of tri0. */
  method WriteBlock(tri: seq<int>, ghost tri0: seq<int>, w: int, block: seq<int>, ghost pre: seq<int>) returns (tri': seq<int>)
    requires 0 <= w && w + |block| <= |tri| == |tri0| && tri[..w] == pre && tri[w..] == tri0[w..]
    ensures |tri'| == |tri|
    ensures tri'[..w + |block|] == pre + block && tri'[w + |block|..] == tri0[w + |block|..]
  {
    tri' := tri[..w] + block + tri[w + |block|..];
    assert tri[w + |block|..] == tri0[w + |block|..] by {
      assert tri[w + |block|..] == tri[w..][|block|..];
      assert tri0[w + |block|..] == tri0[w..][|block|..];
    }
  }
}
