/**
 * genSubmesh's bucketing of one split's triangulated indices by material:
 * the buckets (one per material id + 1, so "no material" (-1) is bucket 0),
 * their sizes, the rearranged index runs, and the records it keeps.
 */
module Submeshes {
  import opened Kernels

  /**
   * A submesh record.  `faces_to_write` stands for the write cursor into
   * new_indices_submeshes, as a position; genSubmesh keeps the cursor as it
   * is after the copy, which is the end of the bucket's run.
   */
  datatype Submesh = Submesh(materialID: int, num_indices_tri: int, faces_to_write: int)

  /** Bucket number of every face: its material id plus one. */
  function Buckets(materialIDs: seq<int>): (r: seq<int>)
    ensures |r| == |materialIDs| && forall f :: 0 <= f < |r| ==> r[f] == materialIDs[f] + 1
  {
    seq(|materialIDs|, f requires 0 <= f < |materialIDs| => materialIDs[f] + 1)
  }

  predicate NonNegativeBuckets(mids: seq<int>)
  {
    forall f :: 0 <= f < |mids| ==> mids[f] >= 0
  }

  /** How many buckets the tally grows: one past the largest bucket number. */
  function NumBuckets(mids: seq<int>): (r: nat)
    ensures forall f :: 0 <= f < |mids| ==> mids[f] < r
    decreases |mids|
  {
    if mids == [] then 0
    else
      var n := NumBuckets(mids[..|mids| - 1]);
      var m := mids[|mids| - 1];
      if m >= n then m + 1 else n
  }

  /** Triangulated indices of the faces in bucket `m`. */
  function BucketSize(cs: seq<int>, mids: seq<int>, m: int): int
    requires |cs| == |mids|
    decreases |cs|
  {
    if cs == [] then 0
    else
      BucketSize(cs[..|cs| - 1], mids[..|mids| - 1], m)
        + (if mids[|mids| - 1] == m then Tri(cs[|cs| - 1]) else 0)
  }

  /**
   * The run of bucket `m`: the triangles of the faces in that bucket, in
   * face order, read from the split's triangulated block.
   */
  function Gather(cs: seq<int>, mids: seq<int>, block: seq<int>, m: int): (r: seq<int>)
    requires |cs| == |mids| && Polygons(cs) && TriCount(cs) == |block|
    ensures |r| == BucketSize(cs, mids, m)
    decreases |cs|
  {
    if cs == [] then []
    else
      var pre := cs[..|cs| - 1];
      SumPolygons(pre);
      var base := |block| - Tri(cs[|cs| - 1]);
      var r := Gather(pre, mids[..|mids| - 1], block[..base], m);
      if mids[|mids| - 1] == m then r + block[base..] else r
  }

  /** The runs of buckets 0 .. k-1, concatenated. */
  function BucketRuns(cs: seq<int>, mids: seq<int>, block: seq<int>, k: nat): (r: seq<int>)
    requires |cs| == |mids| && Polygons(cs) && TriCount(cs) == |block|
  {
    if k == 0 then [] else BucketRuns(cs, mids, block, k - 1) + Gather(cs, mids, block, k - 1)
  }

  /** A split's block rearranged into contiguous runs in ascending bucket order. */
  function Bucketed(cs: seq<int>, mids: seq<int>, block: seq<int>): seq<int>
    requires |cs| == |mids| && Polygons(cs) && TriCount(cs) == |block|
  {
    BucketRuns(cs, mids, block, NumBuckets(mids))
  }

  /** The sizes of buckets 0 .. k-1. */
  function BucketSizes(cs: seq<int>, mids: seq<int>, k: nat): (r: seq<int>)
    requires |cs| == |mids|
    ensures |r| == k && forall m :: 0 <= m < k ==> r[m] == BucketSize(cs, mids, m)
  {
    seq(k, m => BucketSize(cs, mids, m))
  }

  /** One step of Gather: the last face's triangles join its own bucket's run only. */
  lemma {:induction false} GatherLast(cs: seq<int>, mids: seq<int>, block: seq<int>, m: int)
    requires |cs| == |mids| && Polygons(cs) && TriCount(cs) == |block| && cs != []
    ensures 0 <= Tri(cs[|cs| - 1]) <= |block|
    ensures Polygons(cs[..|cs| - 1])
    ensures TriCount(cs[..|cs| - 1]) == |block| - Tri(cs[|cs| - 1])
    ensures Gather(cs, mids, block, m)
         == Gather(cs[..|cs| - 1], mids[..|mids| - 1], block[..|block| - Tri(cs[|cs| - 1])], m)
          + (if mids[|mids| - 1] == m then block[|block| - Tri(cs[|cs| - 1])..] else [])
  {
    SumPolygons(cs[..|cs| - 1]);
  }

  /** Gather over one more face of a face list, reading one more face's triangles. */
  lemma {:induction false} GatherExtend(cs: seq<int>, mids: seq<int>, tri: seq<int>, read0: int, read: int, f: int, m: int)
    requires |cs| == |mids| && Polygons(cs) && 0 <= f < |cs|
    requires 0 <= read0 <= read && read + Tri(cs[f]) <= |tri| && read - read0 == TriCount(cs[..f])
    ensures Polygons(cs[..f]) && Polygons(cs[..f + 1])
    ensures TriCount(cs[..f + 1]) == read + Tri(cs[f]) - read0
    ensures Gather(cs[..f + 1], mids[..f + 1], tri[read0..read + Tri(cs[f])], m)
         == Gather(cs[..f], mids[..f], tri[read0..read], m) + (if mids[f] == m then tri[read..read + Tri(cs[f])] else [])
  {
    SumStep(cs, f);
    assert Polygons(cs[..f + 1]);
    SliceOfSlice(tri, read0, read, read + Tri(cs[f]));
    assert cs[..f + 1][..f] == cs[..f] && mids[..f + 1][..f] == mids[..f];
    GatherLast(cs[..f + 1], mids[..f + 1], tri[read0..read + Tri(cs[f])], m);
  }

  /** Adding the last face changes only its own bucket's run, by that face's triangles. */
  lemma {:induction false} RunsStep(cs: seq<int>, mids: seq<int>, block: seq<int>, k: nat)
    requires |cs| == |mids| && Polygons(cs) && TriCount(cs) == |block| && cs != []
    ensures 0 <= Tri(cs[|cs| - 1]) <= |block|
    ensures Polygons(cs[..|cs| - 1])
    ensures TriCount(cs[..|cs| - 1]) == |block| - Tri(cs[|cs| - 1])
    ensures multiset(BucketRuns(cs, mids, block, k))
         == multiset(BucketRuns(cs[..|cs| - 1], mids[..|mids| - 1], block[..|block| - Tri(cs[|cs| - 1])], k))
          + (if 0 <= mids[|mids| - 1] < k then multiset(block[|block| - Tri(cs[|cs| - 1])..]) else multiset{})
  {
    GatherLast(cs, mids, block, 0);
    if k > 0 {
      var pre, pmids, pblock := cs[..|cs| - 1], mids[..|mids| - 1], block[..|block| - Tri(cs[|cs| - 1])];
      var seg := block[|block| - Tri(cs[|cs| - 1])..];
      RunsStep(cs, mids, block, k - 1);
      GatherLast(cs, mids, block, k - 1);
      var g := Gather(cs, mids, block, k - 1);
      var pg := Gather(pre, pmids, pblock, k - 1);
      var a := multiset(BucketRuns(cs, mids, block, k - 1));
      var pa := multiset(BucketRuns(pre, pmids, pblock, k - 1));
      assert multiset(BucketRuns(cs, mids, block, k)) == a + multiset(g);
      assert multiset(BucketRuns(pre, pmids, pblock, k)) == pa + multiset(pg);
      var m := mids[|mids| - 1];
      if 0 <= m < k - 1 {
        assert a == pa + multiset(seg) && multiset(g) == multiset(pg);
        assert a + multiset(g) == (pa + multiset(pg)) + multiset(seg);
      } else if m == k - 1 {
        assert a == pa && multiset(g) == multiset(pg) + multiset(seg);
      } else {
        assert a == pa && multiset(g) == multiset(pg);
      }
    }
  }

  /** With every face in one of buckets 0 .. k-1, the runs are a permutation of the block. */
  lemma {:induction false} RunsPermutation(cs: seq<int>, mids: seq<int>, block: seq<int>, k: nat)
    requires |cs| == |mids| && Polygons(cs) && TriCount(cs) == |block|
    requires forall f :: 0 <= f < |mids| ==> 0 <= mids[f] < k
    ensures multiset(BucketRuns(cs, mids, block, k)) == multiset(block)
    decreases |cs|
  {
    if cs == [] {
      EmptyRuns(cs, mids, block, k);
    } else {
      RunsStep(cs, mids, block, k);
      var base := |block| - Tri(cs[|cs| - 1]);
      var pmids := mids[..|mids| - 1];
      assert forall f :: 0 <= f < |pmids| ==> pmids[f] == mids[f];
      RunsPermutation(cs[..|cs| - 1], pmids, block[..base], k);
      assert block == block[..base] + block[base..];
      assert multiset(block) == multiset(block[..base]) + multiset(block[base..]);
    }
  }

  lemma {:induction false} EmptyRuns(cs: seq<int>, mids: seq<int>, block: seq<int>, k: nat)
    requires cs == [] && mids == [] && block == []
    ensures BucketRuns(cs, mids, block, k) == []
  {
    if k > 0 {
      EmptyRuns(cs, mids, block, k - 1);
    }
  }

  /**
   * genSubmesh's rearrangement loses and invents no index: a split's
   * bucketed block is a permutation of its triangulated block.
   */
  lemma {:induction false} BucketedPermutation(cs: seq<int>, mids: seq<int>, block: seq<int>)
    requires |cs| == |mids| && Polygons(cs) && TriCount(cs) == |block| && NonNegativeBuckets(mids)
    ensures multiset(Bucketed(cs, mids, block)) == multiset(block)
    ensures |Bucketed(cs, mids, block)| == |block|
  {
    RunsPermutation(cs, mids, block, NumBuckets(mids));
    assert |multiset(Bucketed(cs, mids, block))| == |multiset(block)|;
  }

  /** The runs of buckets 0 .. k-1 are as long as the bucket sizes add up to. */
  lemma {:induction false} RunsLength(cs: seq<int>, mids: seq<int>, block: seq<int>, k: nat)
    requires |cs| == |mids| && Polygons(cs) && TriCount(cs) == |block|
    ensures |BucketRuns(cs, mids, block, k)| == Sum(BucketSizes(cs, mids, k))
  {
    if k > 0 {
      RunsLength(cs, mids, block, k - 1);
      assert BucketSizes(cs, mids, k)[..k - 1] == BucketSizes(cs, mids, k - 1);
    }
  }

  /** The buckets share out exactly the split's triangulated indices. */
  lemma {:induction false} BucketSizesTotal(cs: seq<int>, mids: seq<int>)
    requires |cs| == |mids| && Polygons(cs) && NonNegativeBuckets(mids)
    ensures Sum(BucketSizes(cs, mids, NumBuckets(mids))) == TriCount(cs)
  {
    SumPolygons(cs);
    var block := seq(TriCount(cs), _ => 0);
    RunsLength(cs, mids, block, NumBuckets(mids));
    BucketedPermutation(cs, mids, block);
  }

  /**
   * The buckets of one split as genSubmesh leaves them after copying: bucket
   * m has material m - 1, its size, and the write cursor at the end of its
   * run, runs laid out from `base` in bucket order.
   */
  function SplitBuckets(cs: seq<int>, mids: seq<int>, base: int): (r: seq<Submesh>)
    requires |cs| == |mids|
    ensures |r| == NumBuckets(mids)
  {
    var sizes := BucketSizes(cs, mids, NumBuckets(mids));
    seq(NumBuckets(mids), m requires 0 <= m < NumBuckets(mids) =>
      Submesh(m - 1, sizes[m], base + Sum(sizes[..m + 1])))
  }

  /** The records genSubmesh keeps: the buckets with at least one index, in bucket order. */
  function NonEmpty(sm: seq<Submesh>): (r: seq<Submesh>)
    ensures |r| <= |sm|
    decreases |sm|
  {
    if sm == [] then []
    else
      var last := sm[|sm| - 1];
      NonEmpty(sm[..|sm| - 1]) + (if last.num_indices_tri > 0 then [last] else [])
  }

  /** NonEmpty keeps exactly the records with at least one index. */
  lemma {:induction false} NonEmptyMembers(sm: seq<Submesh>)
    ensures forall x :: x in NonEmpty(sm) <==> x in sm && x.num_indices_tri > 0
    decreases |sm|
  {
    if sm != [] {
      var pre := sm[..|sm| - 1];
      NonEmptyMembers(pre);
      assert sm == pre + [sm[|sm| - 1]];
    }
  }

  /** Bucket sizes and bucket count of a face list one face longer. */
  lemma {:induction false} BucketStep(cs: seq<int>, mids: seq<int>, f: int, m: int)
    requires |cs| == |mids| && 0 <= f < |cs|
    ensures BucketSize(cs[..f + 1], mids[..f + 1], m)
         == BucketSize(cs[..f], mids[..f], m) + (if mids[f] == m then Tri(cs[f]) else 0)
    ensures NumBuckets(mids[..f + 1]) == if mids[f] >= NumBuckets(mids[..f]) then mids[f] + 1 else NumBuckets(mids[..f])
  {
    assert cs[..f + 1][..f] == cs[..f];
    assert mids[..f + 1][..f] == mids[..f];
  }

  /** Buckets past the last bucket number are empty. */
  lemma {:induction false} BucketSizeBeyond(cs: seq<int>, mids: seq<int>, m: int)
    requires |cs| == |mids| && m >= NumBuckets(mids)
    ensures BucketSize(cs, mids, m) == 0
    decreases |cs|
  {
    if cs != [] {
      BucketSizeBeyond(cs[..|cs| - 1], mids[..|mids| - 1], m);
    }
  }

  lemma {:induction false} BucketSizeNonNegative(cs: seq<int>, mids: seq<int>, m: int)
    requires |cs| == |mids| && Polygons(cs)
    ensures BucketSize(cs, mids, m) >= 0
    decreases |cs|
  {
    if cs != [] {
      BucketSizeNonNegative(cs[..|cs| - 1], mids[..|mids| - 1], m);
    }
  }

  /** A bucket only grows as faces are added, and never has a negative size. */
  lemma {:induction false} BucketSizePrefix(cs: seq<int>, mids: seq<int>, f: int, m: int)
    requires |cs| == |mids| && Polygons(cs) && 0 <= f <= |cs|
    ensures 0 <= BucketSize(cs[..f], mids[..f], m) <= BucketSize(cs, mids, m)
    decreases |cs| - f
  {
    BucketSizeNonNegative(cs[..f], mids[..f], m);
    if f == |cs| {
      assert cs[..f] == cs && mids[..f] == mids;
    } else {
      BucketSizePrefix(cs, mids, f + 1, m);
      BucketStep(cs, mids, f, m);
    }
  }

  /** The tally as it stands after some faces: bucket m holds material m - 1 and its size so far. */
  predicate Tallied(sm: seq<Submesh>, cs: seq<int>, mids: seq<int>)
    requires |cs| == |mids|
  {
    && |sm| == NumBuckets(mids)
    && forall m :: 0 <= m < |sm| ==> sm[m] == Submesh(m - 1, BucketSize(cs, mids, m), 0)
  }

  /**
   * genSubmesh's tally of one split's faces offset_faces .. offset_faces +
   * num_faces - 1: the bucket list grows to cover each face's bucket number
   * and the face's triangulated index count is added to its bucket.
   */
  method TallyBuckets(counts: seq<int>, materialIDs: seq<int>, offset_faces: int, num_faces: int)
    returns (sm: seq<Submesh>)
    requires 0 <= offset_faces && 0 <= num_faces && offset_faces + num_faces <= |counts| == |materialIDs|
    requires forall f :: offset_faces <= f < offset_faces + num_faces ==> materialIDs[f] >= -1
    ensures Tallied(sm, counts[offset_faces..offset_faces + num_faces],
                    Buckets(materialIDs[offset_faces..offset_faces + num_faces]))
  {
    ghost var cs := counts[offset_faces..offset_faces + num_faces];
    ghost var mids := Buckets(materialIDs[offset_faces..offset_faces + num_faces]);
    sm := [];
    for fi := 0 to num_faces
      invariant Tallied(sm, cs[..fi], mids[..fi])
    {
      var mid := materialIDs[offset_faces + fi] + 1;
      assert mid == mids[fi];
      while mid >= |sm|
        invariant NumBuckets(mids[..fi]) <= |sm| <= (if mid >= NumBuckets(mids[..fi]) then mid + 1 else NumBuckets(mids[..fi]))
        invariant forall m :: 0 <= m < |sm| ==> sm[m] == Submesh(m - 1, BucketSize(cs[..fi], mids[..fi], m), 0)
        decreases mid - |sm|
      {
        var id := |sm|;
        BucketSizeBeyond(cs[..fi], mids[..fi], id);
        sm := sm + [Submesh(id - 1, 0, 0)];
      }
      forall m | 0 <= m < |sm| {
        BucketStep(cs, mids, fi, m);
      }
      sm := sm[mid := sm[mid].(num_indices_tri := sm[mid].num_indices_tri + Tri(counts[offset_faces + fi]))];
    }
    assert cs[..num_faces] == cs && mids[..num_faces] == mids;
  }

  /**
   * The tally as genSubmesh writes it: the size added for face fi of the
   * split is taken from counts[fi], the fi-th face of the whole mesh,
   * rather than from counts[offset_faces + fi], the face whose material is
   * read.  The sizes it produces are those of the mesh's first num_faces
   * faces sorted by the split's materials.
   */
  method TallyBucketsAsWritten(counts: seq<int>, materialIDs: seq<int>, offset_faces: int, num_faces: int)
    returns (sm: seq<Submesh>)
    requires 0 <= offset_faces && 0 <= num_faces && offset_faces + num_faces <= |counts| == |materialIDs|
    requires forall f :: offset_faces <= f < offset_faces + num_faces ==> materialIDs[f] >= -1
    ensures Tallied(sm, counts[..num_faces], Buckets(materialIDs[offset_faces..offset_faces + num_faces]))
  {
    ghost var cs := counts[..num_faces];
    ghost var mids := Buckets(materialIDs[offset_faces..offset_faces + num_faces]);
    sm := [];
    for fi := 0 to num_faces
      invariant Tallied(sm, cs[..fi], mids[..fi])
    {
      var mid := materialIDs[offset_faces + fi] + 1;
      assert mid == mids[fi];
      while mid >= |sm|
        invariant NumBuckets(mids[..fi]) <= |sm| <= (if mid >= NumBuckets(mids[..fi]) then mid + 1 else NumBuckets(mids[..fi]))
        invariant forall m :: 0 <= m < |sm| ==> sm[m] == Submesh(m - 1, BucketSize(cs[..fi], mids[..fi], m), 0)
        decreases mid - |sm|
      {
        var id := |sm|;
        BucketSizeBeyond(cs[..fi], mids[..fi], id);
        sm := sm + [Submesh(id - 1, 0, 0)];
      }
      forall m | 0 <= m < |sm| {
        BucketStep(cs, mids, fi, m);
      }
      sm := sm[mid := sm[mid].(num_indices_tri := sm[mid].num_indices_tri + Tri(counts[fi]))];
    }
    assert cs[..num_faces] == cs && mids[..num_faces] == mids;
  }

  /**
   * The two tallies part on the second split of a mesh with a triangle and
   * a quad, both of material 0, split one face per split: the as-written
   * tally gives the quad's bucket the triangle's 3 indices, while the copy
   * pass moves the quad's 6 into it.
   */
  lemma {:induction false} AsWrittenTallyMiscounts()
    ensures var counts, materialIDs := [3, 4], [0, 0];
      var mids := Buckets(materialIDs[1..2]);
      && BucketSize(counts[..1], mids, 1) == 3
      && BucketSize(counts[1..2], mids, 1) == 6
      && TriCount(counts[1..2]) == 6
  {
    var counts, materialIDs := [3, 4], [0, 0];
    var mids := Buckets(materialIDs[1..2]);
    assert mids == [1];
    assert counts[..1] == [3] && counts[1..2] == [4];
    assert [3][..0] == [] && [4][..0] == [];
  }

  /** The sizes of tallied buckets, in bucket order. */
  function Sizes(sm: seq<Submesh>): (r: seq<int>)
    ensures |r| == |sm| && forall m :: 0 <= m < |sm| ==> r[m] == sm[m].num_indices_tri
  {
    seq(|sm|, m requires 0 <= m < |sm| => sm[m].num_indices_tri)
  }

  /**
   * genSubmesh's cursor pass: each bucket's write cursor is set to where
   * its run starts, runs following one another from `write` in bucket order.
   */
  method AssignCursors(sm: seq<Submesh>, write: int) returns (r: seq<Submesh>, end: int)
    ensures |r| == |sm|
    ensures forall m :: 0 <= m < |sm| ==> r[m] == sm[m].(faces_to_write := write + Sum(Sizes(sm)[..m]))
    ensures end == write + Sum(Sizes(sm))
  {
    r, end := sm, write;
    for mi := 0 to |sm|
      invariant |r| == |sm| && end == write + Sum(Sizes(sm)[..mi])
      invariant forall m :: 0 <= m < mi ==> r[m] == sm[m].(faces_to_write := write + Sum(Sizes(sm)[..m]))
      invariant forall m :: mi <= m < |sm| ==> r[m] == sm[m]
    {
      r := r[mi := r[mi].(faces_to_write := end)];
      SumStep(Sizes(sm), mi);
      end := end + r[mi].num_indices_tri;
    }
    assert Sizes(sm)[..|sm|] == Sizes(sm);
  }

  /** Start of bucket m's run when the runs are laid out from `base`. */
  function RunStart(sizes: seq<int>, base: int, m: int): int
    requires 0 <= m <= |sizes|
  {
    base + Sum(sizes[..m])
  }

  /**
   * The copy pass part-way: after the faces `cs` (with buckets `mids`,
   * triangles `block`), every bucket's cursor is its run start plus what it
   * has received, and the run so far holds that bucket's triangles.
   */
  ghost predicate Filling(out: seq<int>, sm: seq<Submesh>, sizes: seq<int>, base: int,
                          cs: seq<int>, mids: seq<int>, block: seq<int>)
    requires |cs| == |mids| && Polygons(cs) && TriCount(cs) == |block|
  {
    && |sm| == |sizes|
    && forall m {:trigger sm[m]} :: 0 <= m < |sm| ==> RunFilled(out, sm[m], sizes, base, cs, mids, block, m)
  }

  /** Bucket m's cursor is its run start plus what it has received, and its run holds its triangles. */
  ghost predicate RunFilled(out: seq<int>, s: Submesh, sizes: seq<int>, base: int,
                            cs: seq<int>, mids: seq<int>, block: seq<int>, m: int)
    requires |cs| == |mids| && Polygons(cs) && TriCount(cs) == |block| && 0 <= m <= |sizes|
  {
    && s.faces_to_write == RunStart(sizes, base, m) + BucketSize(cs, mids, m)
    && 0 <= RunStart(sizes, base, m) <= s.faces_to_write <= |out|
    && out[RunStart(sizes, base, m)..s.faces_to_write] == Gather(cs, mids, block, m)
  }

  /** Runs laid out in bucket order start no earlier than the end of every earlier run. */
  lemma {:induction false} RunStartOrdered(sizes: seq<int>, base: int, m: int, w: int)
    requires NonNegative(sizes) && 0 <= m < w <= |sizes|
    ensures RunStart(sizes, base, m) + sizes[m] <= RunStart(sizes, base, w)
  {
    SumStep(sizes, m);
    SumPrefixMonotone(sizes, m + 1, w);
  }

  /** `out'` is `out` with `len` entries of `src`, from `from` on, written at `c`. */
  predicate Spliced(out: seq<int>, out': seq<int>, c: int, len: int, src: seq<int>, from: int)
  {
    && |out'| == |out|
    && forall k {:trigger out'[k]} :: 0 <= k < |out| ==>
         && (c <= k < c + len ==> 0 <= from + k - c < |src| && out'[k] == src[from + k - c])
         && (!(c <= k < c + len) ==> out'[k] == out[k])
  }

  /** Writing `len` entries of `src` at `c` extends the run that ends at `c`. */
  lemma {:induction false} SpliceRun(out: seq<int>, out': seq<int>, a: int, c: int, len: int, src: seq<int>, from: int)
    requires 0 <= a <= c && 0 <= len && c + len <= |out| && 0 <= from && from + len <= |src|
    requires Spliced(out, out', c, len, src, from)
    ensures out'[a..c + len] == out[a..c] + src[from..from + len]
  {
  }

  /** Writing at `c` leaves a range that ends before it or starts after it alone. */
  lemma {:induction false} SpliceOutside(out: seq<int>, out': seq<int>, a: int, e: int, c: int, len: int, src: seq<int>, from: int)
    requires 0 <= a <= e <= |out| && (e <= c || c + len <= a)
    requires Spliced(out, out', c, len, src, from)
    ensures out'[a..e] == out[a..e]
  {
  }

  /** Bucket m's write cursor moved on by `len`. */
  function Advance(sm: seq<Submesh>, m: int, len: int): (r: seq<Submesh>)
    requires 0 <= m < |sm|
    ensures |r| == |sm|
  {
    sm[m := sm[m].(faces_to_write := sm[m].faces_to_write + len)]
  }

  /** The sizes of the buckets are not negative. */
  lemma {:induction false} SizesNonNegative(cs: seq<int>, mids: seq<int>, sizes: seq<int>)
    requires |cs| == |mids| && Polygons(cs)
    requires forall m :: 0 <= m < |sizes| ==> sizes[m] == BucketSize(cs, mids, m)
    ensures NonNegative(sizes)
  {
    forall m | 0 <= m < |sizes| ensures sizes[m] >= 0 {
      BucketSizeNonNegative(cs, mids, m);
    }
  }

  /** Face f's bucket has room for the face's triangles before the last run ends. */
  lemma {:induction false} OwnRoom(sizes: seq<int>, base: int, cs: seq<int>, mids: seq<int>, f: int)
    requires |cs| == |mids| && Polygons(cs) && NonNegativeBuckets(mids) && 0 <= f < |cs|
    requires |sizes| == NumBuckets(mids) && forall m :: 0 <= m < |sizes| ==> sizes[m] == BucketSize(cs, mids, m)
    ensures 0 <= mids[f] < |sizes|
    ensures RunStart(sizes, base, mids[f]) + BucketSize(cs[..f + 1], mids[..f + 1], mids[f]) <= RunStart(sizes, base, |sizes|)
  {
    var m := mids[f];
    SizesNonNegative(cs, mids, sizes);
    BucketSizePrefix(cs, mids, f + 1, m);
    SumStep(sizes, m);
    SumPrefixMonotone(sizes, m + 1, |sizes|);
  }

  /** Appending face f's triangles at the end of its bucket's run gives the run of the longer prefix. */
  lemma {:induction false} ExtendRun(out: seq<int>, out': seq<int>, cs: seq<int>, mids: seq<int>, tri: seq<int>,
                  read0: int, read: int, f: int, a: int, c: int)
    requires |cs| == |mids| && Polygons(cs) && 0 <= f < |cs|
    requires 0 <= read0 <= read && read + Tri(cs[f]) <= |tri| && read - read0 == TriCount(cs[..f])
    requires 0 <= a <= c && c + Tri(cs[f]) <= |out|
    requires Polygons(cs[..f]) && out[a..c] == Gather(cs[..f], mids[..f], tri[read0..read], mids[f])
    requires Spliced(out, out', c, Tri(cs[f]), tri, read)
    ensures Polygons(cs[..f + 1]) && TriCount(cs[..f + 1]) == read + Tri(cs[f]) - read0
    ensures out'[a..c + Tri(cs[f])] == Gather(cs[..f + 1], mids[..f + 1], tri[read0..read + Tri(cs[f])], mids[f])
  {
    GatherExtend(cs, mids, tri, read0, read, f, mids[f]);
    SpliceRun(out, out', a, c, Tri(cs[f]), tri, read);
  }

  /** Copying face f's triangles to the cursor of its own bucket extends that bucket's run. */
  lemma {:induction false} FillOwnBucket(out: seq<int>, out': seq<int>, sm: seq<Submesh>, a: int,
                   cs: seq<int>, mids: seq<int>, tri: seq<int>, read0: int, read: int, f: int)
    requires |cs| == |mids| && Polygons(cs) && 0 <= f < |cs|
    requires 0 <= read0 <= read && read + Tri(cs[f]) <= |tri| && read - read0 == TriCount(cs[..f])
    requires 0 <= mids[f] < |sm| && Polygons(cs[..f])
    requires sm[mids[f]].faces_to_write == a + BucketSize(cs[..f], mids[..f], mids[f])
    requires 0 <= a <= sm[mids[f]].faces_to_write && a + BucketSize(cs[..f + 1], mids[..f + 1], mids[f]) <= |out|
    requires sm[mids[f]].faces_to_write <= |out|
    requires out[a..sm[mids[f]].faces_to_write] == Gather(cs[..f], mids[..f], tri[read0..read], mids[f])
    requires Spliced(out, out', sm[mids[f]].faces_to_write, Tri(cs[f]), tri, read)
    ensures Polygons(cs[..f + 1]) && TriCount(cs[..f + 1]) == read + Tri(cs[f]) - read0
    ensures var m, sm' := mids[f], Advance(sm, mids[f], Tri(cs[f]));
      && sm'[m].faces_to_write == a + BucketSize(cs[..f + 1], mids[..f + 1], m)
      && 0 <= a <= sm'[m].faces_to_write <= |out'|
      && out'[a..sm'[m].faces_to_write]
         == Gather(cs[..f + 1], mids[..f + 1], tri[read0..read + Tri(cs[f])], m)
  {
    var m := mids[f];
    var c := sm[m].faces_to_write;
    BucketStep(cs, mids, f, m);
    BucketSizeNonNegative(cs[..f], mids[..f], m);
    ExtendRun(out, out', cs, mids, tri, read0, read, f, a, c);
    assert Advance(sm, m, Tri(cs[f]))[m].faces_to_write == c + Tri(cs[f]);
  }

  /** FillOwnBucket, for the bucket cursors of a filling. */
  lemma {:induction false} FillOwn(out: seq<int>, out': seq<int>, sm: seq<Submesh>, sizes: seq<int>, base: int,
                cs: seq<int>, mids: seq<int>, tri: seq<int>, read0: int, read: int, f: int)
    requires |cs| == |mids| && Polygons(cs) && NonNegativeBuckets(mids) && 0 <= f < |cs|
    requires |sizes| == NumBuckets(mids) && forall m :: 0 <= m < |sizes| ==> sizes[m] == BucketSize(cs, mids, m)
    requires 0 <= read0 <= read && read + Tri(cs[f]) <= |tri| && read - read0 == TriCount(cs[..f])
    requires Filling(out, sm, sizes, base, cs[..f], mids[..f], tri[read0..read])
    requires RunStart(sizes, base, |sizes|) <= |out|
    requires Spliced(out, out', sm[mids[f]].faces_to_write, Tri(cs[f]), tri, read)
    requires 0 <= mids[f] < |sm|
    ensures Polygons(cs[..f + 1]) && TriCount(cs[..f + 1]) == read + Tri(cs[f]) - read0
    ensures RunFilled(out', Advance(sm, mids[f], Tri(cs[f]))[mids[f]], sizes, base,
                      cs[..f + 1], mids[..f + 1], tri[read0..read + Tri(cs[f])], mids[f])
  {
    OwnRoom(sizes, base, cs, mids, f);
    FillOwnBucket(out, out', sm, RunStart(sizes, base, mids[f]), cs, mids, tri, read0, read, f);
  }

  /** A write that misses bucket m's run keeps the run, which is also the run of the longer prefix. */
  lemma {:induction false} KeepRun(out: seq<int>, out': seq<int>, cs: seq<int>, mids: seq<int>, tri: seq<int>,
                read0: int, read: int, f: int, m: int, a: int, e: int, c: int)
    requires |cs| == |mids| && Polygons(cs) && 0 <= f < |cs| && m != mids[f]
    requires 0 <= read0 <= read && read + Tri(cs[f]) <= |tri| && read - read0 == TriCount(cs[..f])
    requires 0 <= a <= e <= |out| && (e <= c || c + Tri(cs[f]) <= a)
    requires Polygons(cs[..f]) && out[a..e] == Gather(cs[..f], mids[..f], tri[read0..read], m)
    requires Spliced(out, out', c, Tri(cs[f]), tri, read)
    ensures Polygons(cs[..f + 1]) && TriCount(cs[..f + 1]) == read + Tri(cs[f]) - read0
    ensures BucketSize(cs[..f + 1], mids[..f + 1], m) == BucketSize(cs[..f], mids[..f], m)
    ensures out'[a..e] == Gather(cs[..f + 1], mids[..f + 1], tri[read0..read + Tri(cs[f])], m)
  {
    BucketStep(cs, mids, f, m);
    GatherExtend(cs, mids, tri, read0, read, f, m);
    SpliceOutside(out, out', a, e, c, Tri(cs[f]), tri, read);
  }

  /**
   * The stretch face f's triangles go to, at the cursor of bucket mids[f],
   * lies before or after the run bucket m has so far.
   */
  lemma {:induction false} RunsApart(sizes: seq<int>, base: int, cs: seq<int>, mids: seq<int>, f: int, m: int)
    requires |cs| == |mids| && Polygons(cs) && 0 <= f < |cs| && 0 <= m < |sizes| && 0 <= mids[f] < |sizes| && m != mids[f]
    requires forall m :: 0 <= m < |sizes| ==> sizes[m] == BucketSize(cs, mids, m)
    ensures var c := RunStart(sizes, base, mids[f]) + BucketSize(cs[..f], mids[..f], mids[f]);
      || RunStart(sizes, base, m) + BucketSize(cs[..f], mids[..f], m) <= c
      || c + Tri(cs[f]) <= RunStart(sizes, base, m)
  {
    var m0 := mids[f];
    SizesNonNegative(cs, mids, sizes);
    BucketStep(cs, mids, f, m0);
    if m < m0 {
      BucketSizePrefix(cs, mids, f, m);
      BucketSizeNonNegative(cs[..f], mids[..f], m0);
      RunStartOrdered(sizes, base, m, m0);
    } else {
      BucketSizePrefix(cs, mids, f + 1, m0);
      RunStartOrdered(sizes, base, m0, m);
    }
  }

  /** Copying face f's triangles to the cursor of its bucket leaves every other bucket's run alone. */
  lemma {:induction false} FillOtherBucket(out: seq<int>, out': seq<int>, sm: seq<Submesh>, sizes: seq<int>, base: int,
                   cs: seq<int>, mids: seq<int>, tri: seq<int>, read0: int, read: int, f: int, m: int)
    requires |cs| == |mids| && Polygons(cs) && NonNegativeBuckets(mids) && 0 <= f < |cs|
    requires |sizes| == NumBuckets(mids) && forall m :: 0 <= m < |sizes| ==> sizes[m] == BucketSize(cs, mids, m)
    requires 0 <= read0 <= read && read + Tri(cs[f]) <= |tri| && read - read0 == TriCount(cs[..f])
    requires Filling(out, sm, sizes, base, cs[..f], mids[..f], tri[read0..read])
    requires RunStart(sizes, base, |sizes|) <= |out|
    requires Spliced(out, out', sm[mids[f]].faces_to_write, Tri(cs[f]), tri, read)
    requires m != mids[f] && 0 <= m < |sm|
    ensures Polygons(cs[..f + 1]) && TriCount(cs[..f + 1]) == read + Tri(cs[f]) - read0
    ensures RunFilled(out', Advance(sm, mids[f], Tri(cs[f]))[m], sizes, base,
                      cs[..f + 1], mids[..f + 1], tri[read0..read + Tri(cs[f])], m)
  {
    assert RunFilled(out, sm[m], sizes, base, cs[..f], mids[..f], tri[read0..read], m);
    assert RunFilled(out, sm[mids[f]], sizes, base, cs[..f], mids[..f], tri[read0..read], mids[f]);
    RunsApart(sizes, base, cs, mids, f, m);
    KeepRun(out, out', cs, mids, tri, read0, read, f, m,
            RunStart(sizes, base, m), sm[m].faces_to_write, sm[mids[f]].faces_to_write);
    assert Advance(sm, mids[f], Tri(cs[f]))[m] == sm[m];
  }

  /** Copying face f's triangles to the cursor of its bucket extends the filling. */
  lemma {:induction false} FillStep(out: seq<int>, out': seq<int>, sm: seq<Submesh>, sizes: seq<int>, base: int,
                 cs: seq<int>, mids: seq<int>, tri: seq<int>, read0: int, read: int, read1: int,
                 f: int, m0: int, len: int)
    requires |cs| == |mids| && Polygons(cs) && NonNegativeBuckets(mids) && 0 <= f < |cs|
    requires m0 == mids[f] && len == Tri(cs[f]) && read1 == read + len
    requires |sizes| == NumBuckets(mids) && forall m :: 0 <= m < |sizes| ==> sizes[m] == BucketSize(cs, mids, m)
    requires 0 <= read0 <= read && read + len <= |tri| && read - read0 == TriCount(cs[..f])
    requires Filling(out, sm, sizes, base, cs[..f], mids[..f], tri[read0..read])
    requires RunStart(sizes, base, |sizes|) <= |out|
    requires 0 <= m0 < |sm| && Spliced(out, out', sm[m0].faces_to_write, len, tri, read)
    ensures Polygons(cs[..f + 1]) && TriCount(cs[..f + 1]) == read1 - read0
    ensures Filling(out', Advance(sm, m0, len), sizes, base, cs[..f + 1], mids[..f + 1], tri[read0..read1])
  {
    SumStep(cs, f);
    forall m | 0 <= m < |sm|
      ensures RunFilled(out', Advance(sm, m0, len)[m], sizes, base, cs[..f + 1], mids[..f + 1], tri[read0..read1], m)
    {
      FillBucket(out, out', sm, sizes, base, cs, mids, tri, read0, read, f, m);
    }
  }

  /** Copying face f's triangles keeps bucket m's run filled, whichever bucket it is. */
  lemma {:induction false} FillBucket(out: seq<int>, out': seq<int>, sm: seq<Submesh>, sizes: seq<int>, base: int,
                   cs: seq<int>, mids: seq<int>, tri: seq<int>, read0: int, read: int, f: int, m: int)
    requires |cs| == |mids| && Polygons(cs) && NonNegativeBuckets(mids) && 0 <= f < |cs|
    requires |sizes| == NumBuckets(mids) && forall m :: 0 <= m < |sizes| ==> sizes[m] == BucketSize(cs, mids, m)
    requires 0 <= read0 <= read && read + Tri(cs[f]) <= |tri| && read - read0 == TriCount(cs[..f])
    requires Filling(out, sm, sizes, base, cs[..f], mids[..f], tri[read0..read])
    requires RunStart(sizes, base, |sizes|) <= |out|
    requires 0 <= mids[f] < |sm| && Spliced(out, out', sm[mids[f]].faces_to_write, Tri(cs[f]), tri, read)
    requires 0 <= m < |sm|
    ensures Polygons(cs[..f + 1]) && TriCount(cs[..f + 1]) == read + Tri(cs[f]) - read0
    ensures RunFilled(out', Advance(sm, mids[f], Tri(cs[f]))[m], sizes, base,
                      cs[..f + 1], mids[..f + 1], tri[read0..read + Tri(cs[f])], m)
  {
    if m == mids[f] {
      FillOwn(out, out', sm, sizes, base, cs, mids, tri, read0, read, f);
    } else {
      FillOtherBucket(out, out', sm, sizes, base, cs, mids, tri, read0, read, f, m);
    }
  }

  /** The number of triangulated indices of a list of polygons, as a length. */
  function BlockLength(cs: seq<int>): (r: nat)
    requires Polygons(cs)
    ensures r == TriCount(cs)
  {
    SumPolygons(cs);
    TriCount(cs)
  }

  /** Before any face is copied every cursor is at the start of its (empty) run. */
  lemma {:induction false} FillingStart(out: seq<int>, sm: seq<Submesh>, sizes: seq<int>, base: int, cs: seq<int>, mids: seq<int>)
    requires |cs| == |mids| && Polygons(cs) && NonNegativeBuckets(mids)
    requires |sizes| == NumBuckets(mids) && forall m :: 0 <= m < |sizes| ==> sizes[m] == BucketSize(cs, mids, m)
    requires 0 <= base && base + TriCount(cs) <= |out|
    requires |sm| == |sizes| && forall m :: 0 <= m < |sm| ==> sm[m].faces_to_write == RunStart(sizes, base, m)
    ensures Polygons(cs[..0]) && TriCount(cs[..0]) == 0
    ensures RunStart(sizes, base, |sizes|) == base + TriCount(cs)
    ensures Filling(out, sm, sizes, base, cs[..0], mids[..0], [])
  {
    assert cs[..0] == [] && mids[..0] == [];
    assert sizes == BucketSizes(cs, mids, NumBuckets(mids));
    BucketSizesTotal(cs, mids);
    assert sizes[..|sizes|] == sizes;
    SizesNonNegative(cs, mids, sizes);
    forall m | 0 <= m < |sm|
      ensures 0 <= RunStart(sizes, base, m) <= |out|
    {
      SumPrefixMonotone(sizes, m, |sizes|);
      SumNonNegative(sizes[..m]);
    }
  }

  /** Face f's triangles go to a stretch inside the split's output block. */
  lemma {:induction false} SpliceBounds(out: seq<int>, sm: seq<Submesh>, sizes: seq<int>, base: int,
                     cs: seq<int>, mids: seq<int>, tri: seq<int>, read0: int, read: int, f: int)
    requires |cs| == |mids| && Polygons(cs) && NonNegativeBuckets(mids) && 0 <= f < |cs|
    requires |sizes| == NumBuckets(mids) && forall m :: 0 <= m < |sizes| ==> sizes[m] == BucketSize(cs, mids, m)
    requires 0 <= read0 <= read <= |tri| && read - read0 == TriCount(cs[..f])
    requires Filling(out, sm, sizes, base, cs[..f], mids[..f], tri[read0..read])
    ensures 0 <= mids[f] < |sm|
    ensures base <= sm[mids[f]].faces_to_write
    ensures sm[mids[f]].faces_to_write + Tri(cs[f]) <= RunStart(sizes, base, |sizes|)
    ensures read + Tri(cs[f]) - read0 <= TriCount(cs)
  {
    var m := mids[f];
    OwnRoom(sizes, base, cs, mids, f);
    BucketStep(cs, mids, f, m);
    SumNonNegative(sizes[..m]) by {
      SizesNonNegative(cs, mids, sizes);
    }
    SumStep(cs, f);
    TriCountPrefixMonotone(cs, f + 1, |cs|);
  }

  /** `out'` agrees with `out` outside positions lo .. hi - 1. */
  ghost predicate SameOutside(out: seq<int>, out': seq<int>, lo: int, hi: int)
  {
    |out'| == |out| && forall k :: 0 <= k < |out| && !(lo <= k < hi) ==> out'[k] == out[k]
  }

  /** A write inside positions lo .. hi - 1 keeps agreement outside them. */
  lemma {:induction false} SameOutsideStep(out: seq<int>, out1: seq<int>, out2: seq<int>, lo: int, hi: int,
                        c: int, len: int, src: seq<int>, from: int)
    requires SameOutside(out, out1, lo, hi) && Spliced(out1, out2, c, len, src, from)
    requires lo <= c && c + len <= hi
    ensures SameOutside(out, out2, lo, hi)
  {
    forall k | 0 <= k < |out| && !(lo <= k < hi)
      ensures out2[k] == out[k]
    {
      assert out2[k] == out1[k];
    }
  }

  /** Agreement outside lo .. hi - 1 as equal prefix and suffix. */
  lemma {:induction false} SameOutsideSlices(out: seq<int>, out': seq<int>, lo: int, hi: int)
    requires SameOutside(out, out', lo, hi) && 0 <= lo <= hi <= |out|
    ensures out'[..lo] == out[..lo] && out'[hi..] == out[hi..]
  {
    assert forall k :: 0 <= k < |out| - hi ==> out'[hi..][k] == out'[hi + k];
  }

  /**
   * Copies `len` entries of `src`, from `from` on, to `out` at `c`: the
   * inner loop of genSubmesh's copy pass, which advances a read and a
   * write cursor together.
   */
  method CopyRun(out: seq<int>, c: int, len: int, src: seq<int>, from: int) returns (out': seq<int>)
    requires 0 <= c && 0 <= len && c + len <= |out| && 0 <= from && from + len <= |src|
    ensures Spliced(out, out', c, len, src, from)
    ensures out'[c..c + len] == src[from..from + len]
  {
    out' := out;
    for i := 0 to len
      invariant |out'| == |out|
      invariant forall k {:trigger out'[k]} :: 0 <= k < |out| ==>
        && (c <= k < c + i ==> out'[k] == src[from + k - c])
        && (!(c <= k < c + i) ==> out'[k] == out[k])
    {
      out' := out'[c + i := src[from + i]];
    }
  }

  /** The filled runs of buckets 0 .. k-1 lie side by side from `base`. */
  lemma {:induction false} ConcatRuns(out: seq<int>, sm: seq<Submesh>, sizes: seq<int>, base: int,
                                      cs: seq<int>, mids: seq<int>, block: seq<int>, k: int)
    requires |cs| == |mids| && Polygons(cs) && TriCount(cs) == |block|
    requires forall m :: 0 <= m < |sizes| ==> sizes[m] == BucketSize(cs, mids, m)
    requires Filling(out, sm, sizes, base, cs, mids, block)
    requires 0 <= base <= |out| && 0 <= k <= |sizes|
    ensures base <= RunStart(sizes, base, k) <= |out|
    ensures out[base..RunStart(sizes, base, k)] == BucketRuns(cs, mids, block, k)
  {
    if k > 0 {
      ConcatRuns(out, sm, sizes, base, cs, mids, block, k - 1);
      SumStep(sizes, k - 1);
      var a, e := RunStart(sizes, base, k - 1), RunStart(sizes, base, k);
      assert sm[k - 1].faces_to_write == e;
      assert out[base..e] == out[base..a] + out[a..e];
    }
  }

  /**
   * One face of genSubmesh's copy pass: face fi's triangles, read at
   * `read`, are written at the cursor of its bucket, which moves past them.
   */
  method FillFace(ghost out0: seq<int>, out: seq<int>, sm: seq<Submesh>, ghost sizes: seq<int>, base: int,
                  ghost cs: seq<int>, ghost mids: seq<int>, counts: seq<int>, materialIDs: seq<int>,
                  offset_faces: int, fi: int, tri: seq<int>, ghost read0: int, read: int)
    returns (out': seq<int>, sm': seq<Submesh>, read': int)
    requires |cs| == |mids| && Polygons(cs) && NonNegativeBuckets(mids) && 0 <= fi < |cs|
    requires 0 <= offset_faces && offset_faces + |cs| <= |counts| == |materialIDs|
    requires cs[fi] == counts[offset_faces + fi] && mids[fi] == materialIDs[offset_faces + fi] + 1
    requires |sizes| == NumBuckets(mids) && forall m :: 0 <= m < |sizes| ==> sizes[m] == BucketSize(cs, mids, m)
    requires 0 <= read0 <= read <= read0 + TriCount(cs) <= |tri| && read - read0 == TriCount(cs[..fi])
    requires RunStart(sizes, base, |sizes|) == base + TriCount(cs) <= |out|
    requires Filling(out, sm, sizes, base, cs[..fi], mids[..fi], tri[read0..read])
    requires SameOutside(out0, out, base, base + TriCount(cs))
    ensures Polygons(cs[..fi + 1]) && read <= read' <= read0 + TriCount(cs) && read' - read0 == TriCount(cs[..fi + 1])
    ensures Filling(out', sm', sizes, base, cs[..fi + 1], mids[..fi + 1], tri[read0..read'])
    ensures SameOutside(out0, out', base, base + TriCount(cs))
    ensures sm' == Advance(sm, mids[fi], Tri(cs[fi]))
  {
    var mid := materialIDs[offset_faces + fi] + 1;
    var count := counts[offset_faces + fi];
    var nidx := (count - 2) * 3;
    SpliceBounds(out, sm, sizes, base, cs, mids, tri, read0, read, fi);
    out' := CopyRun(out, sm[mid].faces_to_write, nidx, tri, read);
    read' := read + nidx;
    FillStep(out, out', sm, sizes, base, cs, mids, tri, read0, read, read', fi, mid, nidx);
    SameOutsideStep(out0, out, out', base, base + TriCount(cs), sm[mid].faces_to_write, nidx, tri, read);
    sm' := Advance(sm, mid, nidx);
  }

  /**
   * genSubmesh's copy pass over one split: each face's triangles, read in
   * face order from `tri` at `read`, are appended at the write cursor of the
   * face's bucket.  The output block is the split's triangles grouped into
   * runs in bucket order, nothing outside it changes, and each cursor ends
   * at the end of its run.
   */
  method FillBuckets(out: seq<int>, sm: seq<Submesh>, counts: seq<int>, materialIDs: seq<int>,
                     offset_faces: int, num_faces: int, tri: seq<int>, read: int, base: int)
    returns (out': seq<int>, sm': seq<Submesh>, read': int)
    requires 0 <= offset_faces && 0 <= num_faces && offset_faces + num_faces <= |counts| == |materialIDs|
    requires var cs := counts[offset_faces..offset_faces + num_faces];
      var mids := Buckets(materialIDs[offset_faces..offset_faces + num_faces]);
      && Polygons(cs) && NonNegativeBuckets(mids)
      && 0 <= read && read + TriCount(cs) <= |tri|
      && 0 <= base && base + TriCount(cs) <= |out|
      && Cursored(sm, cs, mids, base)
    ensures var cs := counts[offset_faces..offset_faces + num_faces];
      var mids := Buckets(materialIDs[offset_faces..offset_faces + num_faces]);
      && read' == read + BlockLength(cs)
      && out' == out[..base] + Bucketed(cs, mids, tri[read..read']) + out[base + BlockLength(cs)..]
      && sm' == SplitBuckets(cs, mids, base)
  {
    ghost var cs := counts[offset_faces..offset_faces + num_faces];
    ghost var mids := Buckets(materialIDs[offset_faces..offset_faces + num_faces]);
    ghost var sizes := Sizes(sm);
    FillSetup(out, sm, base, cs, mids, read, |tri|);
    out', sm', read' := FillFaces(out, sm, sizes, base, cs, mids, counts, materialIDs, offset_faces, num_faces, tri, read);
    FillFinish(out, out', sm, sm', base, cs, mids, tri[read..read']);
  }

  /** The cursored buckets are where the copy pass starts. */
  lemma {:induction false} FillSetup(out: seq<int>, sm: seq<Submesh>, base: int, cs: seq<int>, mids: seq<int>, read: int, n: int)
    requires |cs| == |mids| && Polygons(cs) && NonNegativeBuckets(mids) && Cursored(sm, cs, mids, base)
    requires 0 <= read && read + TriCount(cs) <= n && 0 <= base && base + TriCount(cs) <= |out|
    ensures |Sizes(sm)| == NumBuckets(mids) && forall m :: 0 <= m < |Sizes(sm)| ==> Sizes(sm)[m] == BucketSize(cs, mids, m)
    ensures 0 <= TriCount(cs) && RunStart(Sizes(sm), base, |Sizes(sm)|) == base + TriCount(cs)
    ensures Polygons(cs[..0]) && TriCount(cs[..0]) == 0 && Filling(out, sm, Sizes(sm), base, cs[..0], mids[..0], [])
  {
    CursoredFill(sm, cs, mids, base);
    FillingStart(out, sm, Sizes(sm), base, cs, mids);
    SumPolygons(cs);
  }

  /** Once every face is copied, the output holds the bucketed block and the buckets are SplitBuckets. */
  lemma {:induction false} FillFinish(out: seq<int>, out': seq<int>, sm: seq<Submesh>, sm': seq<Submesh>, base: int,
                                      cs: seq<int>, mids: seq<int>, block: seq<int>)
    requires |cs| == |mids| && Polygons(cs) && NonNegativeBuckets(mids) && TriCount(cs) == |block|
    requires Cursored(sm, cs, mids, base) && 0 <= base && base + TriCount(cs) <= |out|
    requires RunStart(Sizes(sm), base, |Sizes(sm)|) == base + TriCount(cs)
    requires Filling(out', sm', Sizes(sm), base, cs, mids, block)
    requires SameOutside(out, out', base, base + TriCount(cs))
    requires |sm'| == |sm| && forall m :: 0 <= m < |sm| ==> sm'[m] == sm[m].(faces_to_write := sm'[m].faces_to_write)
    ensures out' == out[..base] + Bucketed(cs, mids, block) + out[base + TriCount(cs)..]
    ensures sm' == SplitBuckets(cs, mids, base)
  {
    CursoredFill(sm, cs, mids, base);
    FillDone(out, out', sm, sm', Sizes(sm), base, cs, mids, block);
    CursoredBuckets(sm, sm', cs, mids, base);
  }

  /** Bucket m is material m - 1 with bucket m's size, its cursor where its run starts from `base`. */
  ghost predicate Cursored(sm: seq<Submesh>, cs: seq<int>, mids: seq<int>, base: int)
    requires |cs| == |mids|
  {
    && |sm| == NumBuckets(mids)
    && forall m :: 0 <= m < |sm| ==> sm[m] == Submesh(m - 1, BucketSize(cs, mids, m), base + Sum(Sizes(sm)[..m]))
  }

  /** What the copy pass needs of the cursored buckets. */
  lemma {:induction false} CursoredFill(sm: seq<Submesh>, cs: seq<int>, mids: seq<int>, base: int)
    requires |cs| == |mids| && Cursored(sm, cs, mids, base)
    ensures |sm| == NumBuckets(mids)
    ensures forall m :: 0 <= m < |sm| ==> sm[m].num_indices_tri == BucketSize(cs, mids, m)
    ensures forall m :: 0 <= m < |sm| ==> sm[m].faces_to_write == base + Sum(Sizes(sm)[..m])
  {
  }

  /** The cursored buckets, each cursor moved to the end of its run, are SplitBuckets. */
  lemma {:induction false} CursoredBuckets(sm: seq<Submesh>, sm': seq<Submesh>, cs: seq<int>, mids: seq<int>, base: int)
    requires |cs| == |mids| && Cursored(sm, cs, mids, base)
    requires |sm'| == |sm| && forall m :: 0 <= m < |sm| ==> sm'[m] == sm[m].(faces_to_write := base + Sum(Sizes(sm)[..m + 1]))
    ensures sm' == SplitBuckets(cs, mids, base)
  {
    assert Sizes(sm) == BucketSizes(cs, mids, NumBuckets(mids));
    var sb := SplitBuckets(cs, mids, base);
    forall m | 0 <= m < |sm'|
      ensures sm'[m] == sb[m]
    {
    }
  }


  /** The face loop of the copy pass: faces 0 .. |cs| - 1 in turn. */
  method FillFaces(out: seq<int>, sm: seq<Submesh>, ghost sizes: seq<int>, base: int,
                   ghost cs: seq<int>, ghost mids: seq<int>, counts: seq<int>, materialIDs: seq<int>,
                   offset_faces: int, num_faces: int, tri: seq<int>, read: int)
    returns (out': seq<int>, sm': seq<Submesh>, read': int)
    requires |cs| == |mids| == num_faces && Polygons(cs) && NonNegativeBuckets(mids)
    requires 0 <= offset_faces && offset_faces + num_faces <= |counts| == |materialIDs|
    requires forall f :: 0 <= f < |cs| ==> cs[f] == counts[offset_faces + f] && mids[f] == materialIDs[offset_faces + f] + 1
    requires |sizes| == NumBuckets(mids) && forall m :: 0 <= m < |sizes| ==> sizes[m] == BucketSize(cs, mids, m)
    requires 0 <= read && 0 <= TriCount(cs) && read + TriCount(cs) <= |tri|
    requires RunStart(sizes, base, |sizes|) == base + TriCount(cs) <= |out|
    requires Filling(out, sm, sizes, base, cs[..0], mids[..0], [])
    ensures read' == read + TriCount(cs)
    ensures Filling(out', sm', sizes, base, cs, mids, tri[read..read'])
    ensures SameOutside(out, out', base, base + TriCount(cs))
    ensures |sm'| == |sm| && forall m :: 0 <= m < |sm| ==> sm'[m] == sm[m].(faces_to_write := sm'[m].faces_to_write)
  {
    out', sm', read' := out, sm, read;
    assert tri[read..read'] == [];
    for fi := 0 to num_faces
      invariant Polygons(cs[..fi]) && read <= read' <= read + TriCount(cs) && read' - read == TriCount(cs[..fi])
      invariant Filling(out', sm', sizes, base, cs[..fi], mids[..fi], tri[read..read'])
      invariant SameOutside(out, out', base, base + TriCount(cs))
      invariant |sm'| == |sm| && forall m :: 0 <= m < |sm| ==> sm'[m] == sm[m].(faces_to_write := sm'[m].faces_to_write)
    {
      out', sm', read' := FillFace(out, out', sm', sizes, base, cs, mids, counts, materialIDs, offset_faces, fi, tri, read, read');
    }
    assert cs[..|cs|] == cs && mids[..|cs|] == mids;
  }

  /** When every face is copied the runs make up the bucketed block and every cursor is at its run's end. */
  lemma {:induction false} FillDone(out: seq<int>, out': seq<int>, sm: seq<Submesh>, sm': seq<Submesh>, sizes: seq<int>, base: int,
                 cs: seq<int>, mids: seq<int>, block: seq<int>)
    requires |cs| == |mids| && Polygons(cs) && NonNegativeBuckets(mids) && TriCount(cs) == |block|
    requires |sizes| == NumBuckets(mids) && forall m :: 0 <= m < |sizes| ==> sizes[m] == BucketSize(cs, mids, m)
    requires 0 <= base && base + TriCount(cs) <= |out|
    requires RunStart(sizes, base, |sizes|) == base + TriCount(cs)
    requires Filling(out', sm', sizes, base, cs, mids, block)
    requires SameOutside(out, out', base, base + TriCount(cs))
    requires |sm| == |sizes| && forall m :: 0 <= m < |sm| ==> sm'[m] == sm[m].(faces_to_write := sm'[m].faces_to_write)
    ensures out' == out[..base] + Bucketed(cs, mids, block) + out[base + TriCount(cs)..]
    ensures forall m :: 0 <= m < |sm| ==> sm'[m] == sm[m].(faces_to_write := base + Sum(sizes[..m + 1]))
  {
    SameOutsideSlices(out, out', base, base + TriCount(cs));
    ConcatRuns(out', sm', sizes, base, cs, mids, block, |sizes|);
    assert out' == out'[..base] + out'[base..base + TriCount(cs)] + out'[base + TriCount(cs)..];
    forall m | 0 <= m < |sm|
      ensures sm'[m] == sm[m].(faces_to_write := base + Sum(sizes[..m + 1]))
    {
      SumStep(sizes, m);
    }
  }
}
