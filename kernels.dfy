/**
 * The numeric kernels of the MeshUtils library that the refiner calls
 * (mu::CountIndices, mu::Triangulate, mu::TriangulateWithIndices,
 * mu::CopyWithIndices) and the sums they are specified by.  Their bodies
 * are not part of this model: each is given here as a reference definition
 * with the contract the refiner relies on.
 */
module Kernels {

  /** Sum of a sequence of integers, folded from the end. */
  function Sum(xs: seq<int>): int
  {
    if xs == [] then 0 else Sum(xs[..|xs| - 1]) + xs[|xs| - 1]
  }

  /** Number of triangulated indices a face with `c` corners produces. */
  function Tri(c: int): int
  {
    (c - 2) * 3
  }

  /** Number of triangulated indices of a whole face list. */
  function TriCount(cs: seq<int>): int
  {
    if cs == [] then 0 else TriCount(cs[..|cs| - 1]) + Tri(cs[|cs| - 1])
  }

  predicate NonNegative(cs: seq<int>)
  {
    forall f :: 0 <= f < |cs| ==> cs[f] >= 0
  }

  /** Every face is a polygon: at least three corners. */
  predicate Polygons(cs: seq<int>)
  {
    forall f :: 0 <= f < |cs| ==> cs[f] >= 3
  }

  /** Every index of `idx` addresses an element of a buffer of length `n`. */
  predicate IndicesBelow(idx: seq<int>, n: int)
  {
    forall k :: 0 <= k < |idx| ==> 0 <= idx[k] < n
  }

  lemma {:induction false} SumAppend(xs: seq<int>, ys: seq<int>)
    ensures Sum(xs + ys) == Sum(xs) + Sum(ys)
    decreases |ys|
  {
    if ys == [] {
      assert xs + ys == xs;
    } else {
      var ys' := ys[..|ys| - 1];
      assert (xs + ys)[..|xs + ys| - 1] == xs + ys';
      SumAppend(xs, ys');
    }
  }

  /** A prefix sum splits at any intermediate point. */
  lemma {:induction false} SumSlices(xs: seq<int>, i: int, j: int)
    requires 0 <= i <= j <= |xs|
    ensures Sum(xs[..j]) == Sum(xs[..i]) + Sum(xs[i..j])
  {
    assert xs[..j] == xs[..i] + xs[i..j];
    SumAppend(xs[..i], xs[i..j]);
  }

  /** A slice of a slice is a slice. */
  lemma {:induction false} SliceOfSlice<T>(s: seq<T>, a: int, b: int, c: int)
    requires 0 <= a <= b <= c <= |s|
    ensures s[a..c][..b - a] == s[a..b] && s[a..c][b - a..] == s[b..c]
  {
  }

  /** One more element of a prefix. */
  lemma {:induction false} SumStep(xs: seq<int>, i: int)
    requires 0 <= i < |xs|
    ensures Sum(xs[..i + 1]) == Sum(xs[..i]) + xs[i]
    ensures TriCount(xs[..i + 1]) == TriCount(xs[..i]) + Tri(xs[i])
  {
    assert xs[..i + 1][..i] == xs[..i];
  }

  /**
   * Every position below the total of non-negative counts falls in exactly
   * one bucket: the one whose prefix sums bracket it.
   */
  lemma {:induction false} PrefixSumOwner(xs: seq<int>, t: int) returns (b: int)
    requires NonNegative(xs) && 0 <= t < Sum(xs)
    ensures 0 <= b < |xs| && Sum(xs[..b]) <= t < Sum(xs[..b]) + xs[b]
    decreases |xs|
  {
    var pre := xs[..|xs| - 1];
    if t >= Sum(pre) {
      b := |xs| - 1;
      assert xs[..b] == pre;
    } else {
      b := PrefixSumOwner(pre, t);
      assert xs[..b] == pre[..b];
    }
  }

  /** The owning bucket is unique. */
  lemma {:induction false} PrefixSumOwnerUnique(xs: seq<int>, t: int, b1: int, b2: int)
    requires NonNegative(xs) && 0 <= b1 < |xs| && 0 <= b2 < |xs|
    requires Sum(xs[..b1]) <= t < Sum(xs[..b1]) + xs[b1]
    requires Sum(xs[..b2]) <= t < Sum(xs[..b2]) + xs[b2]
    ensures b1 == b2
  {
    if b1 < b2 {
      SumStep(xs, b1);
      SumPrefixMonotone(xs, b1 + 1, b2);
    } else if b2 < b1 {
      SumStep(xs, b2);
      SumPrefixMonotone(xs, b2 + 1, b1);
    }
  }

  /** Extending a range of faces by one face adds that face's corners and triangles. */
  lemma {:induction false} RangeExtend(xs: seq<int>, a: int, b: int)
    requires 0 <= a <= b < |xs|
    ensures Sum(xs[a..b + 1]) == Sum(xs[a..b]) + xs[b]
    ensures TriCount(xs[a..b + 1]) == TriCount(xs[a..b]) + Tri(xs[b])
  {
    assert xs[a..b + 1][..b - a] == xs[a..b];
  }

  lemma {:induction false} SumNonNegative(xs: seq<int>)
    requires NonNegative(xs)
    ensures Sum(xs) >= 0
    decreases |xs|
  {
    if xs != [] {
      SumNonNegative(xs[..|xs| - 1]);
    }
  }

  /** Prefix sums of non-negative counts never decrease. */
  lemma {:induction false} SumPrefixMonotone(xs: seq<int>, i: int, j: int)
    requires NonNegative(xs) && 0 <= i <= j <= |xs|
    ensures Sum(xs[..i]) <= Sum(xs[..j]) <= Sum(xs)
  {
    SumSlices(xs, i, j);
    SumNonNegative(xs[i..j]);
    SumSlices(xs, j, |xs|);
    SumNonNegative(xs[j..]);
    assert xs[..|xs|] == xs;
  }

  /** Every corner of a polygon mesh is counted: the total is at least three per face. */
  lemma {:induction false} SumPolygons(cs: seq<int>)
    requires Polygons(cs)
    ensures Sum(cs) >= 3 * |cs| && TriCount(cs) >= 3 * |cs|
    decreases |cs|
  {
    if cs != [] {
      SumPolygons(cs[..|cs| - 1]);
    }
  }

  lemma {:induction false} TriCountAppend(xs: seq<int>, ys: seq<int>)
    ensures TriCount(xs + ys) == TriCount(xs) + TriCount(ys)
    decreases |ys|
  {
    if ys == [] {
      assert xs + ys == xs;
    } else {
      var ys' := ys[..|ys| - 1];
      assert (xs + ys)[..|xs + ys| - 1] == xs + ys';
      TriCountAppend(xs, ys');
    }
  }

  lemma {:induction false} TriCountSlices(xs: seq<int>, i: int, j: int)
    requires 0 <= i <= j <= |xs|
    ensures TriCount(xs[..j]) == TriCount(xs[..i]) + TriCount(xs[i..j])
  {
    assert xs[..j] == xs[..i] + xs[i..j];
    TriCountAppend(xs[..i], xs[i..j]);
  }

  lemma {:induction false} TriCountPrefixMonotone(xs: seq<int>, i: int, j: int)
    requires Polygons(xs) && 0 <= i <= j <= |xs|
    ensures 0 <= TriCount(xs[..i]) <= TriCount(xs[..j]) <= TriCount(xs)
  {
    TriCountSlices(xs, i, j);
    SumPolygons(xs[..i]);
    SumPolygons(xs[i..j]);
    TriCountSlices(xs, j, |xs|);
    SumPolygons(xs[j..]);
    assert xs[..|xs|] == xs;
  }

  /** The result of mu::CountIndices: face offsets and the two totals. */
  datatype IndexCounts = IndexCounts(offsets: seq<int>, num_indices: int, num_indices_tri: int)

  /**
   * mu::CountIndices in one pass: each face's offset is the number of
   * corners before it; the totals are the corner count and the number of
   * indices fan triangulation produces.
   */
  function CountIndices(counts: seq<int>): (r: IndexCounts)
    ensures |r.offsets| == |counts|
    ensures forall f :: 0 <= f < |counts| ==> r.offsets[f] == Sum(counts[..f])
    ensures r.num_indices == Sum(counts)
    ensures r.num_indices_tri == TriCount(counts)
  {
    if counts == [] then IndexCounts([], 0, 0)
    else
      var last := counts[|counts| - 1];
      var pre := CountIndices(counts[..|counts| - 1]);
      assert forall f :: 0 <= f < |counts| ==> counts[..|counts| - 1][..f] == counts[..f];
      IndexCounts(pre.offsets + [pre.num_indices],
                  pre.num_indices + last,
                  pre.num_indices_tri + Tri(last))
  }

  /** An all-triangle face list: the layout `prepare` synthesises from a triangle soup. */
  lemma {:induction false} TriangleSoup(n: nat)
    ensures Sum(seq(n, _ => 3)) == 3 * n && TriCount(seq(n, _ => 3)) == 3 * n
    ensures forall f :: 0 <= f <= n ==> Sum(seq(n, _ => 3)[..f]) == 3 * f
  {
    var cs := seq(n, _ => 3);
    forall f | 0 <= f <= n
      ensures Sum(cs[..f]) == 3 * f && TriCount(cs[..f]) == 3 * f
    {
      SoupPrefix(f);
      assert cs[..f] == seq(f, _ => 3);
    }
    assert cs[..n] == cs;
  }

  lemma {:induction false} SoupPrefix(f: nat)
    ensures Sum(seq(f, _ => 3)) == 3 * f && TriCount(seq(f, _ => 3)) == 3 * f
  {
    if f > 0 {
      SoupPrefix(f - 1);
      assert seq(f, _ => 3)[..f - 1] == seq(f - 1, _ => 3);
    }
  }

  /**
   * Fan triangulation of one face: triangles (c0, c[k+1], c[k+2]) for
   * k = 0 .. |face|-3, each written (c0, c[k+2], c[k+1]) when `swap` is set.
   */
  function FaceFan(face: seq<int>, swap: bool): (r: seq<int>)
    requires |face| >= 3
    ensures |r| == Tri(|face|)
    ensures forall t :: 0 <= t < |r| ==> r[t] in face
    decreases |face|
  {
    var tri := if swap then [face[0], face[2], face[1]] else [face[0], face[1], face[2]];
    if |face| == 3 then tri
    else
      var rest := FaceFan([face[0]] + face[2..], swap);
      assert forall x :: x in [face[0]] + face[2..] ==> x in face;
      tri + rest
  }

  /** Triangle k of a face's fan, and its winding with and without `swap`. */
  lemma {:induction false} FaceFanAt(face: seq<int>, swap: bool, k: nat)
    requires |face| >= 3 && k < |face| - 2
    ensures 3 * k + 3 <= |FaceFan(face, swap)|
    ensures FaceFan(face, swap)[3 * k] == face[0]
    ensures FaceFan(face, swap)[3 * k + 1] == (if swap then face[k + 2] else face[k + 1])
    ensures FaceFan(face, swap)[3 * k + 2] == (if swap then face[k + 1] else face[k + 2])
    decreases |face|
  {
    if k > 0 {
      var face' := [face[0]] + face[2..];
      FaceFanAt(face', swap, k - 1);
      assert FaceFan(face, swap) == (if swap then [face[0], face[2], face[1]] else [face[0], face[1], face[2]]) + FaceFan(face', swap);
    }
  }

  /** mu::TriangulateWithIndices: fan triangulation of every face, reading corners from `idx`. */
  function TriangulateWithIndices(cs: seq<int>, idx: seq<int>, swap: bool): (r: seq<int>)
    requires Polygons(cs) && Sum(cs) == |idx|
    ensures |r| == TriCount(cs)
    ensures forall t :: 0 <= t < |r| ==> r[t] in idx
    decreases |cs|
  {
    if cs == [] then []
    else
      var c := cs[|cs| - 1];
      var pre := cs[..|cs| - 1];
      SumPolygons(pre);
      var base := |idx| - c;
      var r := TriangulateWithIndices(pre, idx[..base], swap) + FaceFan(idx[base..], swap);
      assert forall x :: x in idx[..base] || x in idx[base..] ==> x in idx;
      r
  }

  function Iota(n: nat): (r: seq<int>)
    ensures |r| == n && forall k :: 0 <= k < n ==> r[k] == k
  {
    seq(n, k => k)
  }

  /** mu::Triangulate: fan triangulation whose corners are the corner positions themselves. */
  function Triangulate(cs: seq<int>, swap: bool): (r: seq<int>)
    requires Polygons(cs)
    ensures |r| == TriCount(cs)
    ensures IndicesBelow(r, Sum(cs))
  {
    SumPolygons(cs);
    TriangulateWithIndices(cs, Iota(Sum(cs)), swap)
  }

  /** mu::CopyWithIndices: gather `src[idx[k]]` for every k. */
  function CopyWithIndices<T>(src: seq<T>, idx: seq<int>): (r: seq<T>)
    requires IndicesBelow(idx, |src|)
    ensures |r| == |idx|
    ensures forall k :: 0 <= k < |idx| ==> r[k] == src[idx[k]]
    decreases |idx|
  {
    if idx == [] then []
    else CopyWithIndices(src, idx[..|idx| - 1]) + [src[idx[|idx| - 1]]]
  }

  /** Gathering through a fan picks the same elements as the fan of the gathered face. */
  lemma {:induction false} FaceFanGather(src: seq<int>, face: seq<int>, swap: bool)
    requires |face| >= 3 && IndicesBelow(face, |src|)
    ensures IndicesBelow(FaceFan(face, swap), |src|)
    ensures FaceFan(CopyWithIndices(src, face), swap) == CopyWithIndices(src, FaceFan(face, swap))
    decreases |face|
  {
    var tf := FanHead(src, face, swap);
    if |face| > 3 {
      var face' := FanTail(src, face);
      FaceFanGather(src, face', swap);
      GatherAppend(src, tf, FaceFan(face', swap));
    }
  }

  /** The first triangle of a face's fan, gathered. */
  lemma {:induction false} FanHead(src: seq<int>, face: seq<int>, swap: bool) returns (tf: seq<int>)
    requires |face| >= 3 && IndicesBelow(face, |src|)
    ensures tf == (if swap then [face[0], face[2], face[1]] else [face[0], face[1], face[2]])
    ensures IndicesBelow(tf, |src|)
    ensures CopyWithIndices(src, tf)
         == (if swap then [CopyWithIndices(src, face)[0], CopyWithIndices(src, face)[2], CopyWithIndices(src, face)[1]]
             else [CopyWithIndices(src, face)[0], CopyWithIndices(src, face)[1], CopyWithIndices(src, face)[2]])
  {
    tf := if swap then [face[0], face[2], face[1]] else [face[0], face[1], face[2]];
  }

  /** The face left once the first fan triangle is cut off, gathered. */
  lemma {:induction false} FanTail(src: seq<int>, face: seq<int>) returns (face': seq<int>)
    requires |face| > 3 && IndicesBelow(face, |src|)
    ensures face' == [face[0]] + face[2..] && |face'| >= 3
    ensures IndicesBelow(face', |src|)
    ensures [CopyWithIndices(src, face)[0]] + CopyWithIndices(src, face)[2..] == CopyWithIndices(src, face')
  {
    face' := [face[0]] + face[2..];
    assert forall t :: 0 < t < |face'| ==> face'[t] == face[t + 1];
  }

  /**
   * Triangulating gathered corners is gathering the triangulated corners:
   * fan triangulation only chooses positions, whatever is stored at them.
   */
  lemma {:induction false} TriangulateGather(src: seq<int>, cs: seq<int>, idx: seq<int>, swap: bool)
    requires Polygons(cs) && Sum(cs) == |idx| && IndicesBelow(idx, |src|)
    ensures TriangulateWithIndices(cs, CopyWithIndices(src, idx), swap)
         == CopyWithIndices(src, TriangulateWithIndices(cs, idx, swap))
    decreases |cs|
  {
    if cs != [] {
      var pre := cs[..|cs| - 1];
      SumPolygons(pre);
      var base := |idx| - cs[|cs| - 1];
      var g := CopyWithIndices(src, idx);
      GatherSlices(src, idx, base);
      TriangulateGather(src, pre, idx[..base], swap);
      FaceFanGather(src, idx[base..], swap);
      var a, b := TriangulateWithIndices(pre, idx[..base], swap), FaceFan(idx[base..], swap);
      IndicesWithin(a, idx[..base], |src|);
      IndicesWithin(b, idx[base..], |src|);
      GatherAppend(src, a, b);
      TriangulateUnfold(cs, g, swap, base);
      TriangulateUnfold(cs, idx, swap, base);
    }
  }

  /** TriangulateWithIndices by its definition: the last face's fan follows the others'. */
  lemma {:induction false} TriangulateUnfold(cs: seq<int>, idx: seq<int>, swap: bool, base: int)
    requires Polygons(cs) && Sum(cs) == |idx| && cs != [] && base == |idx| - cs[|cs| - 1]
    ensures Polygons(cs[..|cs| - 1]) && 0 <= base && Sum(cs[..|cs| - 1]) == base && |idx[base..]| >= 3
    ensures TriangulateWithIndices(cs, idx, swap)
         == TriangulateWithIndices(cs[..|cs| - 1], idx[..base], swap) + FaceFan(idx[base..], swap)
  {
    SumPolygons(cs[..|cs| - 1]);
  }

  /** Elements drawn from `idx`, all below `n`, are below `n` too. */
  lemma {:induction false} IndicesWithin(r: seq<int>, idx: seq<int>, n: int)
    requires IndicesBelow(idx, n) && forall t :: 0 <= t < |r| ==> r[t] in idx
    ensures IndicesBelow(r, n)
  {
    forall t | 0 <= t < |r|
      ensures 0 <= r[t] < n
    {
      var j :| 0 <= j < |idx| && idx[j] == r[t];
    }
  }

  /** Gathering a prefix or a suffix of positions is the same slice of the gathered sequence. */
  lemma {:induction false} GatherSlices<T>(src: seq<T>, idx: seq<int>, m: int)
    requires IndicesBelow(idx, |src|) && 0 <= m <= |idx|
    ensures CopyWithIndices(src, idx)[..m] == CopyWithIndices(src, idx[..m])
    ensures CopyWithIndices(src, idx)[m..] == CopyWithIndices(src, idx[m..])
  {
  }

  /** Gathering two runs of positions in turn is gathering them joined. */
  lemma {:induction false} GatherAppend<T>(src: seq<T>, a: seq<int>, b: seq<int>)
    requires IndicesBelow(a, |src|) && IndicesBelow(b, |src|)
    ensures IndicesBelow(a + b, |src|)
    ensures CopyWithIndices(src, a + b) == CopyWithIndices(src, a) + CopyWithIndices(src, b)
  {
  }

  /**
   * refineDumb's flatten keeps every triangle: on the flattened buffer
   * (one entry per corner, gathered through the indices) the triangles of
   * mu::Triangulate name the very elements that mu::TriangulateWithIndices
   * names on the original buffer.
   */
  lemma {:induction false} FlattenKeepsTriangles<T>(points: seq<T>, cs: seq<int>, indices: seq<int>, swap: bool)
    requires Polygons(cs) && Sum(cs) == |indices| && IndicesBelow(indices, |points|)
    ensures |Triangulate(cs, swap)| == |TriangulateWithIndices(cs, indices, swap)|
    ensures forall t :: 0 <= t < |Triangulate(cs, swap)| ==>
      && 0 <= Triangulate(cs, swap)[t] < |indices|
      && 0 <= TriangulateWithIndices(cs, indices, swap)[t] < |points|
      && CopyWithIndices(points, indices)[Triangulate(cs, swap)[t]]
         == points[TriangulateWithIndices(cs, indices, swap)[t]]
  {
    var n := |indices|;
    SumPolygons(cs);
    assert CopyWithIndices(indices, Iota(n)) == indices;
    TriangulateGather(indices, cs, Iota(n), swap);
  }


  function Resize<T>(s: seq<T>, n: nat, fill: T): (r: seq<T>)
    ensures |r| == n
    ensures forall k :: 0 <= k < n ==> r[k] == if k < |s| then s[k] else fill
  {
    if |s| >= n then s[..n] else s + seq(n - |s|, _ => fill)
  }
}
