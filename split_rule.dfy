/**
 * The split rule of doRefine as facts about values. Faces are visited in
 * order; before a face whose corners could take the open split's vertex
 * count past split_unit the open split is closed, and after the last face
 * it is closed once more. The lemmas here carry the bookkeeping of that
 * loop (face, vertex and index totals, split-local indices, the vertex
 * bound) from one face to the next.
 */
module SplitRule {
  import opened Kernels
  import opened Splits

  /** Every face fits in a split on its own: split_unit is on and no face has more corners. */
  predicate FacesFit(counts: seq<int>, unit: int)
  {
    unit > 0 && forall f :: 0 <= f < |counts| ==> counts[f] <= unit
  }

  /**
   * Each of the splits was closed for want of room: the face after it
   * exists, and its vertices plus that face's corners exceed `unit`.
   */
  ghost predicate Crowded(splits: seq<Split>, counts: seq<int>, unit: int)
  {
    forall j :: 0 <= j < |splits| ==> CrowdedAt(splits, counts, unit, j)
  }

  /** Split j was closed for want of room. */
  ghost predicate CrowdedAt(splits: seq<Split>, counts: seq<int>, unit: int, j: int)
    requires 0 <= j < |splits|
  {
    && 0 <= Totals(splits[..j + 1]).num_faces < |counts|
    && unit > 0 && splits[j].num_vertices + counts[Totals(splits[..j + 1]).num_faces] > unit
  }

  /**
   * The greedy shape of the splits so far. With split_unit off no split is
   * closed. A closed split over split_unit holds a single face, and the open
   * split is within split_unit once it holds two faces. Only the first split
   * can be empty; it is exactly when the first face alone passes
   * split_unit, for then add_new_split runs before any face was visited.
   * An open split holding no face has no vertex.
   */
  ghost predicate Greedy(splits: seq<Split>, counts: seq<int>, np: int, unit: int, fi: int, start: int, ov: int)
  {
    && (unit <= 0 ==> splits == [])
    && (unit > 0 ==> forall s :: s in splits ==> s.num_faces <= 1 || s.num_vertices <= unit)
    && (unit > 0 && fi - start > 1 ==> np - ov <= unit)
    && (forall j :: 0 < j < |splits| ==> 0 < splits[j].num_faces)
    && (0 < |splits| ==> (splits[0].num_faces == 0 <==> 0 < |counts| && unit > 0 && counts[0] > unit))
    && (0 < fi && 0 < |counts| && unit > 0 && counts[0] > unit ==> 0 < |splits|)
    && (start == fi ==> np == ov)
  }

  /**
   * The greedy shape of doRefine's finished splits: with split_unit off
   * there is one split; a split over split_unit holds a single face; every
   * split but the first holds a face; and the first is empty exactly when
   * the mesh has no face or its first face alone passes split_unit.
   */
  ghost predicate GreedySplits(sp: seq<Split>, counts: seq<int>, unit: int)
    requires 0 < |sp|
  {
    && (unit <= 0 ==> |sp| == 1)
    && (unit > 0 ==> forall s :: s in sp ==> s.num_faces <= 1 || s.num_vertices <= unit)
    && (forall j :: 0 < j < |sp| ==> 0 < sp[j].num_faces)
    && (sp[0].num_faces == 0 <==> |counts| == 0 || (unit > 0 && counts[0] > unit))
  }

  /**
   * doRefine's state before face fi: the closed `splits` tile faces
   * 0 .. start-1, the open split holds faces start .. fi-1 and `nit`
   * triangulated indices, ov and oi are the closed splits' vertex and index
   * totals, the open split has np - ov vertices, the indices written so
   * far are one corner each and local to their split, every closed split
   * was closed for want of room, and when every face fits no split has
   * more than `unit` vertices.
   */
  ghost predicate Accounting(splits: seq<Split>, counts: seq<int>, idx: seq<int>, np: int, unit: int,
                             fi: int, start: int, nit: int, ov: int, oi: int)
  {
    && 0 <= start <= fi <= |counts|
    && Tiles(splits, counts)
    && Totals(splits).num_faces == start && Totals(splits).num_vertices == ov && Totals(splits).num_indices == oi
    && (forall s :: s in splits ==> s.num_submeshes == 0)
    && |idx| == Sum(counts[..fi]) && 0 <= oi <= |idx|
    && |idx| - oi == Sum(counts[start..fi]) && nit == TriCount(counts[start..fi])
    && 0 <= ov <= np
    && LocalRanges(splits, idx[..oi], false)
    && TailBelow(idx, |idx| - oi, np - ov)
    && Crowded(splits, counts, unit)
    && (FacesFit(counts, unit) ==> np - ov <= unit && forall s :: s in splits ==> s.num_vertices <= unit)
    && Greedy(splits, counts, np, unit, fi, start, ov)
  }

  /** Before the first face nothing is written and no split is closed. */
  lemma {:induction false} AccountingStart(counts: seq<int>, unit: int)
    ensures Accounting([], counts, [], 0, unit, 0, 0, 0, 0, 0)
  {
    assert counts[..0] == [] && counts[0..0] == [];
  }

  /** Appending a split that was closed for want of room keeps every split so closed. */
  lemma {:induction false} CrowdedAppend(splits: seq<Split>, counts: seq<int>, unit: int, s: Split)
    requires Crowded(splits, counts, unit)
    requires 0 <= Totals(splits + [s]).num_faces < |counts|
    requires unit > 0 && s.num_vertices + counts[Totals(splits + [s]).num_faces] > unit
    ensures Crowded(splits + [s], counts, unit)
  {
    var all := splits + [s];
    forall j | 0 <= j < |all|
      ensures CrowdedAt(all, counts, unit, j)
    {
      if j < |splits| {
        assert CrowdedAt(splits, counts, unit, j);
        assert all[..j + 1] == splits[..j + 1] && all[j] == splits[j];
      } else {
        assert all[..j + 1] == all && all[j] == s;
      }
    }
  }

  /**
   * Closing the open split at face fi, when the face's corners would take
   * it past `unit`: the new split records the open split's faces, vertices,
   * corners and triangulated indices, and a new empty split is opened.
   */
  lemma {:induction false} AccountingClose(splits: seq<Split>, counts: seq<int>, idx: seq<int>, np: int, unit: int,
                        fi: int, start: int, nit: int, ov: int, oi: int)
    requires Accounting(splits, counts, idx, np, unit, fi, start, nit, ov, oi)
    requires fi < |counts| && unit > 0 && np - ov + counts[fi] > unit
    requires 0 < |splits| ==> start < fi
    ensures Accounting(splits + [Split(fi - start, np - ov, |idx| - oi, nit, 0)], counts, idx, np, unit,
                       fi, fi, 0, np, |idx|)
  {
    var s := Split(fi - start, np - ov, |idx| - oi, nit, 0);
    CloseGreedy(splits, counts, np, unit, fi, start, ov, s);
    CloseTotals(splits, counts, idx, np, unit, fi, start, nit, ov, oi, s);
    CloseLocal(splits, counts, idx, np, unit, fi, start, nit, ov, oi, s);
    CloseCrowded(splits, counts, idx, np, unit, fi, start, nit, ov, oi, s);
    assert counts[fi..fi] == [];
  }

  /** Closing the open split before face fi, which overflows it, keeps the splits greedy. */
  lemma {:induction false} CloseGreedy(splits: seq<Split>, counts: seq<int>, np: int, unit: int, fi: int, start: int, ov: int, s: Split)
    requires Greedy(splits, counts, np, unit, fi, start, ov) && 0 <= start <= fi < |counts| && 0 <= ov <= np
    requires Totals(splits).num_faces == start
    requires unit > 0 && np - ov + counts[fi] > unit
    requires 0 < |splits| ==> start < fi
    requires s.num_faces == fi - start && s.num_vertices == np - ov
    ensures Greedy(splits + [s], counts, np, unit, fi, fi, np)
  {
  }

  /** The closed split extends the tiling, and the totals become those of faces 0 .. fi-1. */
  lemma {:induction false} CloseTotals(splits: seq<Split>, counts: seq<int>, idx: seq<int>, np: int, unit: int,
                                       fi: int, start: int, nit: int, ov: int, oi: int, s: Split)
    requires Accounting(splits, counts, idx, np, unit, fi, start, nit, ov, oi)
    requires fi < |counts| && s == Split(fi - start, np - ov, |idx| - oi, nit, 0)
    ensures Tiles(splits + [s], counts)
    ensures Totals(splits + [s]).num_faces == fi && Totals(splits + [s]).num_vertices == np
    ensures Totals(splits + [s]).num_indices == |idx|
    ensures forall x :: x in splits + [s] ==> x.num_submeshes == 0
  {
    TilesAppend(splits, counts, s);
    TotalsAppend(splits, s);
  }

  /** The open split's indices become the closed split's block, local to it. */
  lemma {:induction false} CloseLocal(splits: seq<Split>, counts: seq<int>, idx: seq<int>, np: int, unit: int,
                                      fi: int, start: int, nit: int, ov: int, oi: int, s: Split)
    requires Accounting(splits, counts, idx, np, unit, fi, start, nit, ov, oi)
    requires s == Split(fi - start, np - ov, |idx| - oi, nit, 0)
    ensures LocalRanges(splits + [s], idx[..|idx|], false)
  {
    LocalRangesAppend(splits, idx[..oi], false, s, idx[oi..]);
    assert idx[..oi] + idx[oi..] == idx[..|idx|];
  }

  /** The closed split was closed for want of room, and within the bound when every face fits. */
  lemma {:induction false} CloseCrowded(splits: seq<Split>, counts: seq<int>, idx: seq<int>, np: int, unit: int,
                                        fi: int, start: int, nit: int, ov: int, oi: int, s: Split)
    requires Accounting(splits, counts, idx, np, unit, fi, start, nit, ov, oi)
    requires fi < |counts| && unit > 0 && np - ov + counts[fi] > unit
    requires s == Split(fi - start, np - ov, |idx| - oi, nit, 0)
    ensures Crowded(splits + [s], counts, unit)
    ensures FacesFit(counts, unit) ==> forall x :: x in splits + [s] ==> x.num_vertices <= unit
  {
    TotalsAppend(splits, s);
    CrowdedAppend(splits, counts, unit, s);
  }

  /**
   * Emitting face fi into the open split: its corners' indices, local to
   * the open split, are appended, and at most one vertex per corner is
   * added. The face was admitted either because it fits (or split_unit is
   * off) or because the split was just opened.
   */
  lemma {:induction false} AccountingFace(splits: seq<Split>, counts: seq<int>, idx: seq<int>, np: int, unit: int,
                       fi: int, start: int, nit: int, ov: int, oi: int, idx': seq<int>, np': int)
    requires Accounting(splits, counts, idx, np, unit, fi, start, nit, ov, oi)
    requires fi < |counts| && np <= np' <= np + counts[fi]
    requires !(unit > 0 && np - ov + counts[fi] > unit) || (np == ov && start == fi && 0 < |splits|)
    requires |idx'| == |idx| + counts[fi] && idx'[..|idx|] == idx
    requires forall k :: |idx| <= k < |idx'| ==> 0 <= idx'[k] < np' - ov
    ensures Accounting(splits, counts, idx', np', unit, fi + 1, start, nit + Tri(counts[fi]), ov, oi)
  {
    SumStep(counts, fi);
    RangeExtend(counts, start, fi);
    assert idx'[..oi] == idx[..oi];
    forall k | |idx'| - (|idx'| - oi) <= k < |idx'|
      ensures 0 <= idx'[k] < np' - ov
    {
      if k < |idx| {
        assert idx'[k] == idx[k];
      }
    }
  }

  /**
   * Closing the last split after the final face: the splits tile all the
   * faces, their totals are the mesh's, every index is local to its split,
   * every split but the last was closed for want of room, and when every
   * face fits no split has more than `unit` vertices.
   */
  lemma {:induction false} AccountingDone(splits: seq<Split>, counts: seq<int>, idx: seq<int>, np: int, unit: int,
                       start: int, nit: int, ov: int, oi: int)
    requires Accounting(splits, counts, idx, np, unit, |counts|, start, nit, ov, oi)
    ensures var all := splits + [Split(|counts| - start, np - ov, |idx| - oi, nit, 0)];
      && Tiles(all, counts)
      && Totals(all).num_faces == |counts| && Totals(all).num_vertices == np
      && Totals(all).num_indices == |idx| == Sum(counts)
      && Totals(all).num_indices_triangulated == TriCount(counts)
      && (forall s :: s in all ==> s.num_submeshes == 0)
      && LocalRanges(all, idx, false)
      && Crowded(all[..|all| - 1], counts, unit)
      && (FacesFit(counts, unit) ==> forall s :: s in all ==> s.num_vertices <= unit)
  {
    var s := Split(|counts| - start, np - ov, |idx| - oi, nit, 0);
    var all := splits + [s];
    TilesAppend(splits, counts, s);
    TotalsAppend(splits, s);
    TilesTotals(all, counts);
    assert counts[..|counts|] == counts;
    LocalRangesAppend(splits, idx[..oi], false, s, idx[oi..]);
    assert idx[..oi] + idx[oi..] == idx;
    assert all[..|all| - 1] == splits;
  }

  /** Closing the last split after the final face leaves the splits greedy. */
  lemma {:induction false} DoneGreedy(splits: seq<Split>, counts: seq<int>, np: int, unit: int, start: int, ov: int, s: Split)
    requires Greedy(splits, counts, np, unit, |counts|, start, ov) && 0 <= start <= |counts|
    requires Totals(splits).num_faces == start
    requires 0 < |splits| ==> start < |counts|
    requires s.num_faces == |counts| - start && s.num_vertices == np - ov
    ensures GreedySplits(splits + [s], counts, unit)
  {
    var all := splits + [s];
    forall j | 0 < j < |all|
      ensures 0 < all[j].num_faces
    {
      if j < |splits| {
        assert all[j] == splits[j];
      }
    }
    if splits == [] {
      assert all[0] == s;
    } else {
      assert all[0] == splits[0];
    }
  }

  /**
   * Where the corners visited so far went, as global output vertices g:
   * the closed splits' local indices idx[..oi] globalize to g[..oi], and
   * the open split's local indices are g minus its first vertex ov.
   */
  ghost predicate Globalized(splits: seq<Split>, idx: seq<int>, g: seq<int>, ov: int, oi: int)
  {
    && 0 <= oi <= |idx| == |g| && LocalRanges(splits, idx[..oi], false)
    && Globalize(splits, idx[..oi]) == g[..oi]
    && forall k :: oi <= k < |g| ==> g[k] == idx[k] + ov
  }

  /** Nothing is placed before the first corner. */
  lemma {:induction false} GlobalizedStart()
    ensures Globalized([], [], [], 0, 0)
  {
  }

  /** The corners of a face, given local indices in the open split, are placed. */
  lemma {:induction false} GlobalizedFace(splits: seq<Split>, idx: seq<int>, g: seq<int>, ov: int, oi: int, idx': seq<int>, g': seq<int>)
    requires Globalized(splits, idx, g, ov, oi)
    requires |idx'| == |g'| && |idx| <= |idx'| && idx'[..|idx|] == idx && g'[..|g|] == g
    requires forall k :: |idx| <= k < |g'| ==> g'[k] == idx'[k] + ov
    ensures Globalized(splits, idx', g', ov, oi)
  {
    assert idx'[..oi] == idx[..oi] && g'[..oi] == g[..oi];
    forall k | oi <= k < |g'|
      ensures g'[k] == idx'[k] + ov
    {
      if k < |g| {
        assert g'[k] == g[k] && idx'[k] == idx[k];
      }
    }
  }

  /**
   * Closing the open split, whose local indices are below its vertex
   * count, places every corner: all indices globalize to g.
   */
  lemma {:induction false} GlobalizedClose(splits: seq<Split>, idx: seq<int>, g: seq<int>, ov: int, oi: int, s: Split)
    requires Globalized(splits, idx, g, ov, oi) && Totals(splits).num_vertices == ov
    requires s.num_indices == |idx| - oi && TailBelow(idx, |idx| - oi, s.num_vertices)
    ensures Globalized(splits + [s], idx, g, ov + s.num_vertices, |idx|)
    ensures Globalize(splits + [s], idx) == g
  {
    var block := idx[oi..];
    BlockBelow(idx, oi, s.num_vertices);
    assert idx[..oi] + block == idx;
    GlobalizeAppend(splits, idx[..oi], s, block);
    var shifted := seq(|block|, j requires 0 <= j < |block| => block[j] + ov);
    ShiftedRest(idx, g, oi, ov, shifted);
    assert idx[..|idx|] == idx && g[..|g|] == g;
  }

  /** The corners from oi on, as a block, are below `bound`. */
  lemma {:induction false} BlockBelow(idx: seq<int>, oi: int, bound: int)
    requires 0 <= oi <= |idx| && TailBelow(idx, |idx| - oi, bound)
    ensures forall k :: 0 <= k < |idx[oi..]| ==> 0 <= idx[oi..][k] < bound
  {
    forall k | 0 <= k < |idx[oi..]|
      ensures 0 <= idx[oi..][k] < bound
    {
      assert idx[oi..][k] == idx[oi + k];
    }
  }

  /** Output vertices from oi on that are the corners shifted by ov complete g. */
  lemma {:induction false} ShiftedRest(idx: seq<int>, g: seq<int>, oi: int, ov: int, shifted: seq<int>)
    requires 0 <= oi <= |idx| == |g| && forall k :: oi <= k < |g| ==> g[k] == idx[k] + ov
    requires |shifted| == |idx| - oi && forall j :: 0 <= j < |shifted| ==> shifted[j] == idx[oi..][j] + ov
    ensures g[..oi] + shifted == g
  {
    forall k | 0 <= k < |g|
      ensures (g[..oi] + shifted)[k] == g[k]
    {
      if k >= oi {
        assert shifted[k - oi] == idx[oi..][k - oi] + ov && idx[oi..][k - oi] == idx[k];
      }
    }
  }

  /**
   * doRefine's splits after its face loop: they tile the faces and their
   * totals are the mesh's (np output vertices), every split-local index is
   * below its split's vertex count and globalizes to the output vertex g[k]
   * of corner k, every split but the last was closed for want of room, and
   * when every face fits no split has more than `unit` vertices.
   */
  ghost predicate Refined(sp: seq<Split>, counts: seq<int>, idx: seq<int>, g: seq<int>, np: int, unit: int)
  {
    && Tiles(sp, counts) && |sp| > 0
    && Totals(sp).num_faces == |counts| && Totals(sp).num_vertices == np
    && Totals(sp).num_indices == |idx| == Sum(counts)
    && Totals(sp).num_indices_triangulated == TriCount(counts)
    && (forall s :: s in sp ==> s.num_submeshes == 0)
    && LocalRanges(sp, idx, false) && Globalize(sp, idx) == g
    && Crowded(sp[..|sp| - 1], counts, unit)
    && (FacesFit(counts, unit) ==> forall s :: s in sp ==> s.num_vertices <= unit)
    && GreedySplits(sp, counts, unit)
  }

  /**
   * doRefine's bookkeeping before face fi: the split accounting, and where
   * the corners visited so far went.
   */
  ghost predicate Refining(splits: seq<Split>, counts: seq<int>, idx: seq<int>, g: seq<int>, np: int, unit: int,
                           fi: int, start: int, nit: int, ov: int, oi: int)
  {
    Accounting(splits, counts, idx, np, unit, fi, start, nit, ov, oi) && Globalized(splits, idx, g, ov, oi)
  }

  /** The bookkeeping before the first face. */
  lemma {:induction false} RefiningStart(counts: seq<int>, unit: int)
    ensures Refining([], counts, [], [], 0, unit, 0, 0, 0, 0, 0)
  {
    AccountingStart(counts, unit);
    GlobalizedStart();
  }

  /** add_new_split before face fi, which does not fit in the open split. */
  lemma {:induction false} RefiningClose(splits: seq<Split>, counts: seq<int>, idx: seq<int>, g: seq<int>, np: int, unit: int,
                      fi: int, start: int, nit: int, ov: int, oi: int, s: Split)
    requires Refining(splits, counts, idx, g, np, unit, fi, start, nit, ov, oi)
    requires fi < |counts| && unit > 0 && np - ov + counts[fi] > unit
    requires 0 < |splits| ==> start < fi
    requires s == Split(fi - start, np - ov, |idx| - oi, nit, 0)
    ensures Refining(splits + [s], counts, idx, g, np, unit, fi, fi, 0, np, |idx|)
  {
    AccountingClose(splits, counts, idx, np, unit, fi, start, nit, ov, oi);
    GlobalizedClose(splits, idx, g, ov, oi, s);
  }

  /**
   * Face fi emitted into the open split: each corner's output vertex g'[k]
   * is recorded as its index local to the split, idx'[k] = g'[k] - ov.
   */
  lemma {:induction false} RefiningFace(splits: seq<Split>, counts: seq<int>, idx: seq<int>, g: seq<int>, np: int, unit: int,
                     fi: int, start: int, nit: int, ov: int, oi: int, idx': seq<int>, g': seq<int>, np': int, nit': int)
    requires Refining(splits, counts, idx, g, np, unit, fi, start, nit, ov, oi)
    requires fi < |counts| && np <= np' <= np + counts[fi] && nit' == nit + Tri(counts[fi])
    requires !(unit > 0 && np - ov + counts[fi] > unit) || (np == ov && start == fi && 0 < |splits|)
    requires |idx'| == |g'| == |idx| + counts[fi] && idx'[..|idx|] == idx && g'[..|g|] == g
    requires forall k :: |idx| <= k < |idx'| ==> 0 <= idx'[k] < np' - ov && g'[k] == idx'[k] + ov
    ensures Refining(splits, counts, idx', g', np', unit, fi + 1, start, nit', ov, oi)
  {
    AccountingFace(splits, counts, idx, np, unit, fi, start, nit, ov, oi, idx', np');
    GlobalizedFace(splits, idx, g, ov, oi, idx', g');
  }

  /**
   * add_new_split after the last face: the splits tile all the faces and
   * their totals are the mesh's, every index is local to its split and
   * globalizes to the corner's output vertex, every split but the last was
   * closed for want of room, and when every face fits no split has more
   * than `unit` vertices.
   */
  lemma {:induction false} RefiningDone(splits: seq<Split>, counts: seq<int>, idx: seq<int>, g: seq<int>, np: int, unit: int,
                     start: int, nit: int, ov: int, oi: int, s: Split)
    requires Refining(splits, counts, idx, g, np, unit, |counts|, start, nit, ov, oi)
    requires 0 < |splits| ==> start < |counts|
    requires s == Split(|counts| - start, np - ov, |idx| - oi, nit, 0)
    ensures Refined(splits + [s], counts, idx, g, np, unit)
  {
    AccountingDone(splits, counts, idx, np, unit, start, nit, ov, oi);
    DoneGreedy(splits, counts, np, unit, start, ov, s);
    GlobalizedClose(splits, idx, g, ov, oi, s);
  }
}
