/**
 * What genSubmesh produces over all splits, as functions of the splits,
 * the face sizes, the material ids and the triangulated indices: split by
 * split, the split's triangulated block regrouped into bucket runs, and the
 * records of its non-empty buckets.
 */
module SubmeshPass {
  import opened Kernels
  import opened Splits
  import opened Submeshes

  /** Material ids genSubmesh works with: one per face, each -1 (no material) or above. */
  predicate Materials(counts: seq<int>, materialIDs: seq<int>)
  {
    |materialIDs| == |counts| && forall f :: 0 <= f < |materialIDs| ==> materialIDs[f] >= -1
  }

  /** The corner counts of split k's faces. */
  ghost function SplitCounts(splits: seq<Split>, counts: seq<int>, k: int): seq<int>
    requires Tiles(splits, counts) && 0 <= k < |splits|
  {
    TilesAt(splits, counts, k);
    counts[Totals(splits[..k]).num_faces..Totals(splits[..k]).num_faces + splits[k].num_faces]
  }

  /** The bucket numbers (material id plus one) of split k's faces. */
  ghost function SplitMids(splits: seq<Split>, counts: seq<int>, materialIDs: seq<int>, k: int): (r: seq<int>)
    requires Tiles(splits, counts) && |materialIDs| == |counts| && 0 <= k < |splits|
    ensures |r| == |SplitCounts(splits, counts, k)|
    ensures Materials(counts, materialIDs) ==> NonNegativeBuckets(r)
  {
    TilesAt(splits, counts, k);
    Buckets(materialIDs[Totals(splits[..k]).num_faces..Totals(splits[..k]).num_faces + splits[k].num_faces])
  }

  /** SplitCounts and SplitMids for the split whose faces start at f0. */
  lemma {:induction false} SplitAt(splits: seq<Split>, counts: seq<int>, materialIDs: seq<int>, k: int, f0: int, nf: int)
    requires Tiles(splits, counts) && |materialIDs| == |counts| && 0 <= k < |splits|
    requires f0 == Totals(splits[..k]).num_faces && nf == splits[k].num_faces
    ensures 0 <= f0 <= f0 + nf <= |counts|
    ensures SplitCounts(splits, counts, k) == counts[f0..f0 + nf]
    ensures SplitMids(splits, counts, materialIDs, k) == Buckets(materialIDs[f0..f0 + nf])
  {
    TilesAt(splits, counts, k);
  }

  /** Split k's faces and triangulated block lie within the mesh, one after the splits before it. */
  lemma {:induction false} SplitFacts(splits: seq<Split>, counts: seq<int>, k: int)
    requires Tiles(splits, counts) && Polygons(counts) && 0 <= k < |splits|
    ensures Tiles(splits[..k], counts) && Tiles(splits[..k + 1], counts)
    ensures 0 <= Totals(splits[..k]).num_faces
    ensures Totals(splits[..k]).num_faces + splits[k].num_faces <= |counts|
    ensures Polygons(SplitCounts(splits, counts, k))
    ensures 0 <= splits[k].num_indices_triangulated == TriCount(SplitCounts(splits, counts, k))
    ensures 0 <= Totals(splits[..k]).num_indices_triangulated
    ensures Totals(splits[..k + 1]).num_faces == Totals(splits[..k]).num_faces + splits[k].num_faces
    ensures Totals(splits[..k + 1]).num_indices_triangulated
         == Totals(splits[..k]).num_indices_triangulated + splits[k].num_indices_triangulated
  {
    var f0 := Totals(splits[..k]).num_faces;
    var f1 := f0 + splits[k].num_faces;
    TileBounds(splits, counts, k, f0, f1, Totals(splits[..k]).num_indices,
               Totals(splits[..k]).num_indices + splits[k].num_indices);
    TilesAt(splits, counts, k);
    assert SplitCounts(splits, counts, k) == counts[f0..f1];
    TilesTotals(splits[..k], counts);
    TriCountPrefixMonotone(counts, f0, f0);
    SumPolygons(counts[f0..f1]);
  }

  /**
   * new_indices_submeshes over the first k splits: each split's
   * triangulated block, read from `tri` in split order, regrouped into
   * bucket runs in ascending material order.
   */
  ghost function SubmeshIndices(splits: seq<Split>, counts: seq<int>, materialIDs: seq<int>, tri: seq<int>, k: nat)
    : (r: seq<int>)
    requires Tiles(splits, counts) && Polygons(counts) && Materials(counts, materialIDs) && k <= |splits|
    requires Totals(splits[..k]).num_indices_triangulated <= |tri|
    ensures |r| == Totals(splits[..k]).num_indices_triangulated
    decreases k
  {
    if k == 0 then
      assert splits[..0] == [];
      []
    else
      SplitFacts(splits, counts, k - 1);
      SubmeshIndices(splits, counts, materialIDs, tri, k - 1) + SplitIndices(splits, counts, materialIDs, tri, k - 1)
  }

  /** Split k's triangulated block, read from `tri`, regrouped into bucket runs. */
  ghost function SplitIndices(splits: seq<Split>, counts: seq<int>, materialIDs: seq<int>, tri: seq<int>, k: nat)
    : (r: seq<int>)
    requires Tiles(splits, counts) && Polygons(counts) && Materials(counts, materialIDs) && k < |splits|
    requires Totals(splits[..k + 1]).num_indices_triangulated <= |tri|
    ensures |r| == splits[k].num_indices_triangulated
  {
    SplitFacts(splits, counts, k);
    var r0 := Totals(splits[..k]).num_indices_triangulated;
    var cs := SplitCounts(splits, counts, k);
    var mids := SplitMids(splits, counts, materialIDs, k);
    var block := tri[r0..r0 + splits[k].num_indices_triangulated];
    BucketedPermutation(cs, mids, block);
    Bucketed(cs, mids, block)
  }

  /** SubmeshIndices over k splits extends that over k - 1 by split k - 1's regrouped block. */
  lemma {:induction false} SubmeshIndicesLast(splits: seq<Split>, counts: seq<int>, materialIDs: seq<int>, tri: seq<int>, k: nat,
                           r0: int, r1: int)
    requires Tiles(splits, counts) && Polygons(counts) && Materials(counts, materialIDs) && 0 < k <= |splits|
    requires Totals(splits[..k]).num_indices_triangulated <= |tri|
    requires r0 == Totals(splits[..k - 1]).num_indices_triangulated && r1 == r0 + splits[k - 1].num_indices_triangulated
    ensures 0 <= r0 <= r1 <= |tri| && Polygons(SplitCounts(splits, counts, k - 1))
    ensures TriCount(SplitCounts(splits, counts, k - 1)) == r1 - r0
    ensures Totals(splits[..k - 1]).num_indices_triangulated <= |tri|
    ensures SubmeshIndices(splits, counts, materialIDs, tri, k)
         == SubmeshIndices(splits, counts, materialIDs, tri, k - 1)
          + Bucketed(SplitCounts(splits, counts, k - 1), SplitMids(splits, counts, materialIDs, k - 1), tri[r0..r1])
  {
    SplitFacts(splits, counts, k - 1);
    SplitIndicesIs(splits, counts, materialIDs, tri, k - 1,
                   SplitCounts(splits, counts, k - 1), SplitMids(splits, counts, materialIDs, k - 1), r0, r1);
    assert SubmeshIndices(splits, counts, materialIDs, tri, k)
        == SubmeshIndices(splits, counts, materialIDs, tri, k - 1) + SplitIndices(splits, counts, materialIDs, tri, k - 1);
  }

  /**
   * Writing split k's regrouped block over the output at the split's first
   * triangulated index extends the finished prefix of the output by split k
   * and leaves the rest as it was.
   */
  lemma {:induction false} SubmeshOutputStep(splits: seq<Split>, counts: seq<int>, materialIDs: seq<int>, tri: seq<int>, out0: seq<int>,
                                             k: int, out: seq<int>, f0: int, nf: int, r0: int, out': seq<int>)
    requires Tiles(splits, counts) && Polygons(counts) && Materials(counts, materialIDs) && 0 <= k < |splits|
    requires Totals(splits).num_indices_triangulated <= |tri| == |out0| == |out|
    requires f0 == Totals(splits[..k]).num_faces && r0 == Totals(splits[..k]).num_indices_triangulated
    requires 0 <= r0 <= Totals(splits).num_indices_triangulated
    requires out[..r0] == SubmeshIndices(splits, counts, materialIDs, tri, k) && out[r0..] == out0[r0..]
    requires nf == splits[k].num_faces && 0 <= f0 && 0 <= nf && f0 + nf <= |counts|
    requires 0 <= r0 && r0 + TriCount(counts[f0..f0 + nf]) <= |tri| && r0 + TriCount(counts[f0..f0 + nf]) <= |out|
    requires var cs, mids := counts[f0..f0 + nf], Buckets(materialIDs[f0..f0 + nf]);
      && 0 <= TriCount(cs)
      && out' == out[..r0] + Bucketed(cs, mids, tri[r0..r0 + TriCount(cs)]) + out[r0 + TriCount(cs)..]
    ensures var r1 := r0 + splits[k].num_indices_triangulated;
      && Totals(splits[..k + 1]).num_indices_triangulated <= |tri|
      && 0 <= r1 <= |out'| == |out0| && out'[..r1] == SubmeshIndices(splits, counts, materialIDs, tri, k + 1)
      && out'[r1..] == out0[r1..]
  {
    var r1 := r0 + splits[k].num_indices_triangulated;
    SplitSetup(splits, counts, materialIDs, k, f0, nf, r0);
    var cs, mids := counts[f0..f0 + nf], Buckets(materialIDs[f0..f0 + nf]);
    assert r0 + TriCount(cs) == r1;
    BucketedPermutation(cs, mids, tri[r0..r1]);
    var b := Bucketed(cs, mids, tri[r0..r1]);
    ThreeParts(out[..r0], b, out[r1..], out');
    SuffixKept(out, out0, r0, r1);
    SubmeshIndicesLast(splits, counts, materialIDs, tri, k + 1, r0, r1);
    SplitAt(splits, counts, materialIDs, k, f0, nf);
  }

  /**
   * The records genSubmesh keeps for split k: its non-empty buckets in
   * ascending material order, each write cursor at the end of its run,
   * runs laid out from the split's first triangulated index.
   */
  ghost function SplitRecords(splits: seq<Split>, counts: seq<int>, materialIDs: seq<int>, k: int): seq<Submesh>
    requires Tiles(splits, counts) && |materialIDs| == |counts| && 0 <= k < |splits|
  {
    NonEmpty(SplitBuckets(SplitCounts(splits, counts, k), SplitMids(splits, counts, materialIDs, k),
                          Totals(splits[..k]).num_indices_triangulated))
  }

  /** The submesh records of the first k splits, in split order. */
  ghost function SubmeshRecords(splits: seq<Split>, counts: seq<int>, materialIDs: seq<int>, k: nat): seq<Submesh>
    requires Tiles(splits, counts) && |materialIDs| == |counts| && k <= |splits|
  {
    if k == 0 then [] else SubmeshRecords(splits, counts, materialIDs, k - 1) + SplitRecords(splits, counts, materialIDs, k - 1)
  }

  /**
   * The submesh pass loses and invents no index: over the first k splits
   * the output is a permutation of the triangulated indices it read.
   */
  lemma {:induction false} SubmeshIndicesPermutation(splits: seq<Split>, counts: seq<int>, materialIDs: seq<int>,
                                                      tri: seq<int>, k: nat)
    requires Tiles(splits, counts) && Polygons(counts) && Materials(counts, materialIDs) && k <= |splits|
    requires Totals(splits[..k]).num_indices_triangulated <= |tri|
    ensures var r := SubmeshIndices(splits, counts, materialIDs, tri, k);
      multiset(r) == multiset(tri[..|r|])
  {
    if k == 0 {
      assert splits[..0] == [];
    } else {
      var r0 := Totals(splits[..k - 1]).num_indices_triangulated;
      var r1 := r0 + splits[k - 1].num_indices_triangulated;
      SplitFacts(splits, counts, k - 1);
      SubmeshIndicesPermutation(splits, counts, materialIDs, tri, k - 1);
      SplitIndicesPermutation(splits, counts, materialIDs, tri, k - 1, r0, r1);
      JoinPermutations(SubmeshIndices(splits, counts, materialIDs, tri, k - 1),
                       SplitIndices(splits, counts, materialIDs, tri, k - 1), tri, r0, r1);
    }
  }

  /** Split k's regrouped block is a permutation of the split's stretch of `tri`. */
  lemma {:induction false} SplitIndicesPermutation(splits: seq<Split>, counts: seq<int>, materialIDs: seq<int>, tri: seq<int>, k: nat,
                                r0: int, r1: int)
    requires Tiles(splits, counts) && Polygons(counts) && Materials(counts, materialIDs) && k < |splits|
    requires Totals(splits[..k + 1]).num_indices_triangulated <= |tri|
    requires r0 == Totals(splits[..k]).num_indices_triangulated && r1 == r0 + splits[k].num_indices_triangulated
    ensures 0 <= r0 <= r1 <= |tri|
    ensures multiset(SplitIndices(splits, counts, materialIDs, tri, k)) == multiset(tri[r0..r1])
  {
    SplitFacts(splits, counts, k);
    var cs, mids, block := SplitCounts(splits, counts, k), SplitMids(splits, counts, materialIDs, k), tri[r0..r1];
    SplitIndicesIs(splits, counts, materialIDs, tri, k, cs, mids, r0, r1);
    BucketedPermutation(cs, mids, block);
  }

  /** SplitIndices by its definition, for the given stretch of `tri`. */
  lemma {:induction false} SplitIndicesIs(splits: seq<Split>, counts: seq<int>, materialIDs: seq<int>, tri: seq<int>, k: nat,
                       cs: seq<int>, mids: seq<int>, r0: int, r1: int)
    requires Tiles(splits, counts) && Polygons(counts) && Materials(counts, materialIDs) && k < |splits|
    requires Totals(splits[..k + 1]).num_indices_triangulated <= |tri|
    requires cs == SplitCounts(splits, counts, k) && mids == SplitMids(splits, counts, materialIDs, k)
    requires r0 == Totals(splits[..k]).num_indices_triangulated && r1 == r0 + splits[k].num_indices_triangulated
    requires 0 <= r0 <= r1 <= |tri| && Polygons(cs) && TriCount(cs) == r1 - r0
    ensures SplitIndices(splits, counts, materialIDs, tri, k) == Bucketed(cs, mids, tri[r0..r1])
  {
  }

  /** Permutations of two adjacent stretches of `t` make a permutation of the two together. */
  lemma {:induction false} JoinPermutations(a: seq<int>, b: seq<int>, t: seq<int>, r0: int, r1: int)
    requires 0 <= r0 <= r1 <= |t|
    requires multiset(a) == multiset(t[..r0]) && multiset(b) == multiset(t[r0..r1])
    ensures multiset(a + b) == multiset(t[..r1])
  {
    assert t[..r1] == t[..r0] + t[r0..r1];
  }

  /** Bucket records keep ascending material ids when the empty ones are dropped. */
  lemma {:induction false} NonEmptyAscending(sm: seq<Submesh>)
    requires forall i, j :: 0 <= i < j < |sm| ==> sm[i].materialID < sm[j].materialID
    ensures forall i, j :: 0 <= i < j < |NonEmpty(sm)| ==> NonEmpty(sm)[i].materialID < NonEmpty(sm)[j].materialID
    decreases |sm|
  {
    if sm != [] {
      var pre := sm[..|sm| - 1];
      NonEmptyAscending(pre);
      NonEmptyMembers(pre);
      forall x | x in NonEmpty(pre)
        ensures x.materialID < sm[|sm| - 1].materialID
      {
        var i :| 0 <= i < |pre| && pre[i] == x;
      }
    }
  }

  /**
   * The records of one split have distinct material ids in ascending
   * order, each has at least one index, and none has a material below -1.
   */
  lemma {:induction false} SplitRecordsAscending(splits: seq<Split>, counts: seq<int>, materialIDs: seq<int>, k: int)
    requires Tiles(splits, counts) && |materialIDs| == |counts| && 0 <= k < |splits|
    ensures var r := SplitRecords(splits, counts, materialIDs, k);
      && (forall i, j :: 0 <= i < j < |r| ==> r[i].materialID < r[j].materialID)
      && (forall x :: x in r ==> x.num_indices_tri > 0 && x.materialID >= -1)
  {
    var sm := SplitBuckets(SplitCounts(splits, counts, k), SplitMids(splits, counts, materialIDs, k),
                           Totals(splits[..k]).num_indices_triangulated);
    NonEmptyAscending(sm);
    NonEmptyMembers(sm);
  }

  /** Records that differ only in their cursors have the same sizes. */
  lemma {:induction false} SizesSame(sm: seq<Submesh>, sm1: seq<Submesh>)
    requires |sm1| == |sm| && forall m :: 0 <= m < |sm| ==> sm1[m].num_indices_tri == sm[m].num_indices_tri
    ensures Sizes(sm1) == Sizes(sm)
  {
  }

  /**
   * genSubmesh's record pass over one split's buckets: every bucket with
   * at least one index is appended to the records and counted among the
   * split's submeshes.
   */
  method KeepNonEmpty(sm: seq<Submesh>, records: seq<Submesh>, split: Split) returns (records': seq<Submesh>, split': Split)
    ensures records' == records + NonEmpty(sm)
    ensures split' == split.(num_submeshes := split.num_submeshes + |NonEmpty(sm)|)
  {
    records', split' := records, split;
    for mi := 0 to |sm|
      invariant records' == records + NonEmpty(sm[..mi])
      invariant split' == split.(num_submeshes := split.num_submeshes + |NonEmpty(sm[..mi])|)
    {
      NonEmptyStep(sm, mi);
      if sm[mi].num_indices_tri > 0 {
        split' := split'.(num_submeshes := split'.num_submeshes + 1);
        records' := records' + [sm[mi]];
      }
    }
    assert sm[..|sm|] == sm;
  }

  /** NonEmpty over one more bucket: the bucket is kept after the others when it has an index. */
  lemma {:induction false} NonEmptyStep(sm: seq<Submesh>, mi: int)
    requires 0 <= mi < |sm|
    ensures NonEmpty(sm[..mi + 1]) == NonEmpty(sm[..mi]) + (if sm[mi].num_indices_tri > 0 then [sm[mi]] else [])
  {
    assert sm[..mi + 1][..mi] == sm[..mi];
  }

  /** The splits as genSubmesh leaves them: each counts its kept records among its submeshes. */
  ghost function SubmeshSplits(splits: seq<Split>, counts: seq<int>, materialIDs: seq<int>): (r: seq<Split>)
    requires Tiles(splits, counts) && |materialIDs| == |counts|
    ensures |r| == |splits|
  {
    seq(|splits|, k requires 0 <= k < |splits| =>
      splits[k].(num_submeshes := splits[k].num_submeshes + |SplitRecords(splits, counts, materialIDs, k)|))
  }

  /**
   * genSubmesh's three passes over the faces offset_faces .. offset_faces +
   * num_faces - 1 of one split: the tally, the cursor pass from `read`, and
   * the copy pass, which writes the split's triangles, read from `tri` at
   * `read`, over `out` at `read` grouped into bucket runs.  The buckets end
   * as SplitBuckets says.
   */
  method SplitRuns(counts: seq<int>, materialIDs: seq<int>, offset_faces: int, num_faces: int,
                   tri: seq<int>, out: seq<int>, read: int)
    returns (out': seq<int>, sm: seq<Submesh>)
    requires 0 <= offset_faces && 0 <= num_faces && offset_faces + num_faces <= |counts| == |materialIDs|
    requires forall f :: offset_faces <= f < offset_faces + num_faces ==> materialIDs[f] >= -1
    requires Polygons(counts[offset_faces..offset_faces + num_faces])
    requires 0 <= read && read + TriCount(counts[offset_faces..offset_faces + num_faces]) <= |tri|
    requires read + TriCount(counts[offset_faces..offset_faces + num_faces]) <= |out|
    ensures var cs, mids := counts[offset_faces..offset_faces + num_faces], Buckets(materialIDs[offset_faces..offset_faces + num_faces]);
      && 0 <= TriCount(cs)
      && out' == out[..read] + Bucketed(cs, mids, tri[read..read + TriCount(cs)]) + out[read + TriCount(cs)..]
      && sm == SplitBuckets(cs, mids, read)
  {
    ghost var cs := counts[offset_faces..offset_faces + num_faces];
    ghost var mids := Buckets(materialIDs[offset_faces..offset_faces + num_faces]);
    SumPolygons(cs);
    var sm1 := CursorBuckets(counts, materialIDs, offset_faces, num_faces, read);
    var read';
    out', sm, read' := FillBuckets(out, sm1, counts, materialIDs, offset_faces, num_faces, tri, read, read);
    ghost var n := BlockLength(cs);
    assert n == TriCount(cs) && read' == read + n;
  }

  /** genSubmesh's tally and cursor pass over one split's faces, the runs laid out from `read`. */
  method CursorBuckets(counts: seq<int>, materialIDs: seq<int>, offset_faces: int, num_faces: int, read: int)
    returns (sm: seq<Submesh>)
    requires 0 <= offset_faces && 0 <= num_faces && offset_faces + num_faces <= |counts| == |materialIDs|
    requires forall f :: offset_faces <= f < offset_faces + num_faces ==> materialIDs[f] >= -1
    ensures Cursored(sm, counts[offset_faces..offset_faces + num_faces],
                     Buckets(materialIDs[offset_faces..offset_faces + num_faces]), read)
  {
    var sm0 := TallyBuckets(counts, materialIDs, offset_faces, num_faces);
    var end;
    sm, end := AssignCursors(sm0, read);
    SizesSame(sm0, sm);
  }

  /** Split k's faces and triangulated block, where genSubmesh's loop reaches them. */
  lemma {:induction false} SplitSetup(splits: seq<Split>, counts: seq<int>, materialIDs: seq<int>, k: int, f0: int, nf: int, r0: int)
    requires Tiles(splits, counts) && Polygons(counts) && Materials(counts, materialIDs) && 0 <= k < |splits|
    requires f0 == Totals(splits[..k]).num_faces && r0 == Totals(splits[..k]).num_indices_triangulated
    requires nf == splits[k].num_faces
    ensures 0 <= f0 && 0 <= nf && f0 + nf <= |counts| == |materialIDs|
    ensures forall f :: f0 <= f < f0 + nf ==> materialIDs[f] >= -1
    ensures Polygons(counts[f0..f0 + nf])
    ensures 0 <= r0 && TriCount(counts[f0..f0 + nf]) == splits[k].num_indices_triangulated
    ensures 0 <= r0 + splits[k].num_indices_triangulated == Totals(splits[..k + 1]).num_indices_triangulated
    ensures Totals(splits[..k + 1]).num_indices_triangulated <= Totals(splits).num_indices_triangulated
    ensures f0 + nf == Totals(splits[..k + 1]).num_faces
  {
    SplitFacts(splits, counts, k);
    TotalsPrefix(splits, counts, k + 1);
  }

  /** SplitRecords for the split whose faces start at f0 and whose triangulated block starts at r0. */
  lemma {:induction false} SplitRecordsAre(splits: seq<Split>, counts: seq<int>, materialIDs: seq<int>, k: int, f0: int, nf: int, r0: int)
    requires Tiles(splits, counts) && |materialIDs| == |counts| && 0 <= k < |splits|
    requires f0 == Totals(splits[..k]).num_faces && r0 == Totals(splits[..k]).num_indices_triangulated
    requires nf == splits[k].num_faces
    ensures 0 <= f0 <= f0 + nf <= |counts|
    ensures SplitRecords(splits, counts, materialIDs, k)
         == NonEmpty(SplitBuckets(counts[f0..f0 + nf], Buckets(materialIDs[f0..f0 + nf]), r0))
  {
    SplitAt(splits, counts, materialIDs, k, f0, nf);
  }

  /** The first two of three concatenated parts, and the third. */
  lemma {:induction false} ThreeParts(a: seq<int>, b: seq<int>, c: seq<int>, s: seq<int>)
    requires s == a + b + c
    ensures |s| == |a| + |b| + |c| && s[..|a| + |b|] == a + b && s[|a| + |b|..] == c
  {
    assert s[..|a| + |b|] == a + b;
    assert s[|a| + |b|..] == c;
  }

  /** Sequences that agree from `a` on agree from any later `b` on. */
  lemma {:induction false} SuffixKept(s: seq<int>, t: seq<int>, a: int, b: int)
    requires 0 <= a <= b <= |s| == |t| && s[a..] == t[a..]
    ensures s[b..] == t[b..]
  {
    assert s[b..] == s[a..][b - a..];
    assert t[b..] == t[a..][b - a..];
  }

  /**
   * genSubmesh's loop over the splits once the material ids have been
   * checked: reading `tri` and writing `out` from the start, split after
   * split; the rest of `out` is kept.
   */
  method SubmeshAll(splits: seq<Split>, counts: seq<int>, materialIDs: seq<int>, tri: seq<int>, out0: seq<int>)
    returns (out: seq<int>, records: seq<Submesh>, splits': seq<Split>)
    requires Tiles(splits, counts) && Polygons(counts) && Materials(counts, materialIDs)
    requires Totals(splits).num_indices_triangulated <= |tri| == |out0|
    ensures |out| == |out0| && splits[..|splits|] == splits && 0 <= Totals(splits).num_indices_triangulated
    ensures out[..Totals(splits).num_indices_triangulated] == SubmeshIndices(splits, counts, materialIDs, tri, |splits|)
    ensures out[Totals(splits).num_indices_triangulated..] == out0[Totals(splits).num_indices_triangulated..]
    ensures records == SubmeshRecords(splits, counts, materialIDs, |splits|)
    ensures splits' == SubmeshSplits(splits, counts, materialIDs)
  {
    out, records, splits' := out0, [], splits;
    var offset_faces, read := 0, 0;
    PassedStart(splits, counts, materialIDs, tri, out0);
    for k := 0 to |splits|
      invariant Passed(splits, counts, materialIDs, tri, out0, k, out, records, splits', offset_faces, read)
    {
      var num_faces := splits[k].num_faces;
      PassedReady(splits, counts, materialIDs, tri, out0, k, out, records, splits', offset_faces, num_faces, read);
      var out', sm := SplitRuns(counts, materialIDs, offset_faces, num_faces, tri, out, read);
      var records', s := KeepNonEmpty(sm, records, splits[k]);
      PassedStep(splits, counts, materialIDs, tri, out0, k, out, records, splits', offset_faces, num_faces, read, out', sm, records', s);
      splits' := splits'[k := s];
      out, records, offset_faces, read := out', records', offset_faces + num_faces, read + splits[k].num_indices_triangulated;
    }
    PassedEnd(splits, counts, materialIDs, tri, out0, out, records, splits', offset_faces, read);
  }

  /**
   * genSubmesh's loop after k splits: faces and triangulated indices read
   * up to split k, the output regrouped up to there and untouched beyond,
   * the records of the splits done, and their submesh counts raised.
   */
  ghost predicate Passed(splits: seq<Split>, counts: seq<int>, materialIDs: seq<int>, tri: seq<int>, out0: seq<int>,
                         k: int, out: seq<int>, records: seq<Submesh>, sp: seq<Split>, f0: int, r0: int)
    requires Tiles(splits, counts) && Polygons(counts) && Materials(counts, materialIDs)
    requires Totals(splits).num_indices_triangulated <= |tri| == |out0|
  {
    && 0 <= k <= |splits| && |out| == |out0| && |sp| == |splits|
    && f0 == Totals(splits[..k]).num_faces && r0 == Totals(splits[..k]).num_indices_triangulated
    && 0 <= r0 <= Totals(splits).num_indices_triangulated
    && out[..r0] == SubmeshIndices(splits, counts, materialIDs, tri, k) && out[r0..] == out0[r0..]
    && records == SubmeshRecords(splits, counts, materialIDs, k)
    && (forall j :: 0 <= j < k ==> sp[j] == SubmeshSplits(splits, counts, materialIDs)[j])
    && (forall j :: k <= j < |splits| ==> sp[j] == splits[j])
  }

  lemma {:induction false} PassedStart(splits: seq<Split>, counts: seq<int>, materialIDs: seq<int>, tri: seq<int>, out0: seq<int>)
    requires Tiles(splits, counts) && Polygons(counts) && Materials(counts, materialIDs)
    requires Totals(splits).num_indices_triangulated <= |tri| == |out0|
    ensures Passed(splits, counts, materialIDs, tri, out0, 0, out0, [], splits, 0, 0)
  {
    assert splits[..0] == [];
    TotalsPrefix(splits, counts, 0);
  }

  /** Before split k, the loop meets what SplitRuns asks of it. */
  lemma {:induction false} PassedReady(splits: seq<Split>, counts: seq<int>, materialIDs: seq<int>, tri: seq<int>, out0: seq<int>,
                                       k: int, out: seq<int>, records: seq<Submesh>, sp: seq<Split>, f0: int, nf: int, r0: int)
    requires Tiles(splits, counts) && Polygons(counts) && Materials(counts, materialIDs)
    requires Totals(splits).num_indices_triangulated <= |tri| == |out0|
    requires Passed(splits, counts, materialIDs, tri, out0, k, out, records, sp, f0, r0) && k < |splits|
    requires nf == splits[k].num_faces
    ensures 0 <= f0 && 0 <= nf && f0 + nf <= |counts| == |materialIDs|
    ensures forall f :: f0 <= f < f0 + nf ==> materialIDs[f] >= -1
    ensures Polygons(counts[f0..f0 + nf])
    ensures 0 <= r0 && r0 + TriCount(counts[f0..f0 + nf]) <= |tri|
    ensures r0 + TriCount(counts[f0..f0 + nf]) <= |out|
  {
    SplitSetup(splits, counts, materialIDs, k, f0, nf, r0);
  }

  /** Split k regrouped and its records kept: the loop holds after k + 1 splits. */
  lemma {:induction false} PassedStep(splits: seq<Split>, counts: seq<int>, materialIDs: seq<int>, tri: seq<int>, out0: seq<int>,
                                      k: int, out: seq<int>, records: seq<Submesh>, sp: seq<Split>, f0: int, nf: int, r0: int,
                                      out': seq<int>, sm: seq<Submesh>, records': seq<Submesh>, s: Split)
    requires Tiles(splits, counts) && Polygons(counts) && Materials(counts, materialIDs)
    requires Totals(splits).num_indices_triangulated <= |tri| == |out0|
    requires Passed(splits, counts, materialIDs, tri, out0, k, out, records, sp, f0, r0) && k < |splits|
    requires nf == splits[k].num_faces && 0 <= f0 && 0 <= nf && f0 + nf <= |counts|
    requires 0 <= r0 && r0 + TriCount(counts[f0..f0 + nf]) <= |tri| && r0 + TriCount(counts[f0..f0 + nf]) <= |out|
    requires var cs, mids := counts[f0..f0 + nf], Buckets(materialIDs[f0..f0 + nf]);
      && 0 <= TriCount(cs)
      && out' == out[..r0] + Bucketed(cs, mids, tri[r0..r0 + TriCount(cs)]) + out[r0 + TriCount(cs)..]
      && sm == SplitBuckets(cs, mids, r0)
    requires records' == records + NonEmpty(sm)
    requires s == splits[k].(num_submeshes := splits[k].num_submeshes + |NonEmpty(sm)|)
    ensures Passed(splits, counts, materialIDs, tri, out0, k + 1, out', records', sp[k := s],
                   f0 + nf, r0 + splits[k].num_indices_triangulated)
  {
    SplitSetup(splits, counts, materialIDs, k, f0, nf, r0);
    SubmeshOutputStep(splits, counts, materialIDs, tri, out0, k, out, f0, nf, r0, out');
    RecordsStep(splits, counts, materialIDs, k, records, sp, f0, nf, r0, sm, records', s);
  }

  /** The records and splits part of PassedStep. */
  lemma {:induction false} RecordsStep(splits: seq<Split>, counts: seq<int>, materialIDs: seq<int>, k: int,
                                       records: seq<Submesh>, sp: seq<Split>, f0: int, nf: int, r0: int,
                                       sm: seq<Submesh>, records': seq<Submesh>, s: Split)
    requires Tiles(splits, counts) && |materialIDs| == |counts| && 0 <= k < |splits|
    requires f0 == Totals(splits[..k]).num_faces && r0 == Totals(splits[..k]).num_indices_triangulated
    requires nf == splits[k].num_faces && 0 <= f0 && 0 <= nf && f0 + nf <= |counts|
    requires records == SubmeshRecords(splits, counts, materialIDs, k)
    requires |sp| == |splits|
    requires forall j :: 0 <= j < k ==> sp[j] == SubmeshSplits(splits, counts, materialIDs)[j]
    requires forall j :: k <= j < |splits| ==> sp[j] == splits[j]
    requires sm == SplitBuckets(counts[f0..f0 + nf], Buckets(materialIDs[f0..f0 + nf]), r0)
    requires records' == records + NonEmpty(sm)
    requires s == splits[k].(num_submeshes := splits[k].num_submeshes + |NonEmpty(sm)|)
    ensures records' == SubmeshRecords(splits, counts, materialIDs, k + 1)
    ensures forall j :: 0 <= j < k + 1 ==> sp[k := s][j] == SubmeshSplits(splits, counts, materialIDs)[j]
    ensures forall j :: k + 1 <= j < |splits| ==> sp[k := s][j] == splits[j]
  {
    SplitRecordsAre(splits, counts, materialIDs, k, f0, nf, r0);
  }

  lemma {:induction false} PassedEnd(splits: seq<Split>, counts: seq<int>, materialIDs: seq<int>, tri: seq<int>, out0: seq<int>,
                                     out: seq<int>, records: seq<Submesh>, sp: seq<Split>, f0: int, r0: int)
    requires Tiles(splits, counts) && Polygons(counts) && Materials(counts, materialIDs)
    requires Totals(splits).num_indices_triangulated <= |tri| == |out0|
    requires Passed(splits, counts, materialIDs, tri, out0, |splits|, out, records, sp, f0, r0)
    ensures |out| == |out0| && splits[..|splits|] == splits && 0 <= Totals(splits).num_indices_triangulated
    ensures out[..Totals(splits).num_indices_triangulated] == SubmeshIndices(splits, counts, materialIDs, tri, |splits|)
    ensures out[Totals(splits).num_indices_triangulated..] == out0[Totals(splits).num_indices_triangulated..]
    ensures records == SubmeshRecords(splits, counts, materialIDs, |splits|)
    ensures sp == SubmeshSplits(splits, counts, materialIDs)
  {
    assert splits[..|splits|] == splits;
  }

  /**
   * The submesh counts genSubmesh adds to the splits add up to the records
   * it keeps: over the first k splits, the totals grow by exactly the
   * number of records.
   */
  lemma {:induction false} SubmeshCountsAddUp(splits: seq<Split>, counts: seq<int>, materialIDs: seq<int>, k: nat)
    requires Tiles(splits, counts) && |materialIDs| == |counts| && k <= |splits|
    ensures Totals(SubmeshSplits(splits, counts, materialIDs)[..k]).num_submeshes
         == Totals(splits[..k]).num_submeshes + |SubmeshRecords(splits, counts, materialIDs, k)|
  {
    if k > 0 {
      var r := SubmeshSplits(splits, counts, materialIDs);
      SubmeshCountsAddUp(splits, counts, materialIDs, k - 1);
      assert r[..k] == r[..k - 1] + [r[k - 1]];
      assert splits[..k] == splits[..k - 1] + [splits[k - 1]];
      TotalsAppend(r[..k - 1], r[k - 1]);
      TotalsAppend(splits[..k - 1], splits[k - 1]);
    }
  }
}
