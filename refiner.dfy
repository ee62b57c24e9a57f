/**
 * mu::MeshRefiner: turns a polygon mesh (per-face corner counts, per-corner
 * point indices, points, and optional normals, uv, colors, skin weights and
 * tangents) into output buffers that a renderer can draw: vertices that
 * carry every attribute, corner indices local to splits of at most
 * split_unit vertices, fan-triangulated indices, and triangles regrouped
 * by material into submeshes.
 *
 * The vector types of points (V3), uv (V2), tangents and colors (V4) and
 * skin weights (W) are left abstract; the refiner only copies them and
 * compares them with the near-equality it is given.
 */
module Refiner {
  import opened Kernels
  import opened Splits
  import opened Connection
  import opened Layouts
  import opened Submeshes
  import opened Cache
  import opened SplitRule
  import opened SubmeshPass
  import opened Vertices

  /**
   * buildConnection's first pass: walking the faces in order, every corner
   * raises its point's count by one.
   */
  method CountCorners(counts: seq<int>, indices: seq<int>, n: nat) returns (vc: seq<int>)
    requires NonNegative(counts) && Sum(counts) == |indices| && IndicesBelow(indices, n)
    ensures vc == Histogram(indices, n)
  {
    vc := seq(n, _ => 0);
    var k := 0;
    for fi := 0 to |counts|
      invariant k == Sum(counts[..fi]) && 0 <= k <= |indices|
      invariant vc == Histogram(indices[..k], n)
    {
      var c := counts[fi];
      SumStep(counts, fi);
      SumPrefixMonotone(counts, fi + 1, |counts|);
      vc := CountFace(indices, n, vc, k, c);
      k := k + c;
    }
    assert counts[..|counts|] == counts;
    assert indices[..k] == indices;
  }

  /** The corners k .. k+c-1 of one face counted in. */
  method CountFace(indices: seq<int>, n: nat, vc0: seq<int>, k: int, c: int) returns (vc: seq<int>)
    requires IndicesBelow(indices, n) && 0 <= k && 0 <= c && k + c <= |indices|
    requires vc0 == Histogram(indices[..k], n)
    ensures vc == Histogram(indices[..k + c], n)
  {
    vc := vc0;
    for ci := 0 to c
      invariant vc == Histogram(indices[..k + ci], n)
    {
      HistogramStep(indices, k + ci, n);
      vc := vc[indices[k + ci] := vc[indices[k + ci]] + 1];
    }
  }

  /** buildConnection's second pass: each point's slot range starts where the previous point's ends. */
  method SlotOffsets(vc: seq<int>, vo0: seq<int>) returns (vo: seq<int>)
    ensures |vo| == |vc| && forall v :: 0 <= v < |vc| ==> vo[v] == Sum(vc[..v])
  {
    vo := Resize(vo0, |vc|, 0);
    var offset := 0;
    for i := 0 to |vc|
      invariant |vo| == |vc| && offset == Sum(vc[..i])
      invariant forall v :: 0 <= v < i ==> vo[v] == Sum(vc[..v])
    {
      vo := vo[i := offset];
      SumStep(vc, i);
      offset := offset + vc[i];
    }
  }

  /**
   * buildConnection's third pass: walking the faces in order, every corner
   * goes to the next free slot of its point, which records the corner and
   * its face.
   */
  method PlaceCorners(counts: seq<int>, indices: seq<int>, n: nat, vc: seq<int>, vo: seq<int>,
                      sf0: seq<int>, si0: seq<int>) returns (sf: seq<int>, si: seq<int>)
    requires NonNegative(counts) && Sum(counts) == |indices| && CsrLayout(indices, n, vc, vo)
    ensures IsCsr(counts, indices, n, vc, vo, sf, si)
  {
    sf, si := Resize(sf0, |indices|, 0), Resize(si0, |indices|, 0);
    var bump := seq(n, _ => 0);
    assert indices[..0] == [];
    var i := 0;
    for fi := 0 to |counts|
      invariant i == Sum(counts[..fi]) && 0 <= i <= |indices|
      invariant Placed(counts, indices, n, vo, i, bump, sf, si)
    {
      var c := counts[fi];
      SumStep(counts, fi);
      SumPrefixMonotone(counts, fi + 1, |counts|);
      bump, sf, si := PlaceFace(counts, indices, n, vc, vo, bump, sf, si, fi, i, c);
      i := i + c;
    }
    assert counts[..|counts|] == counts;
    HistogramCounts(indices, n);
    assert indices[..|indices|] == indices;
    assert bump == vc;
  }

  /** The corners i .. i+c-1 of face fi placed, each at the next free slot of its point. */
  method PlaceFace(counts: seq<int>, indices: seq<int>, n: nat, vc: seq<int>, vo: seq<int>,
                   bump0: seq<int>, sf0: seq<int>, si0: seq<int>, fi: int, i: int, c: int)
    returns (bump: seq<int>, sf: seq<int>, si: seq<int>)
    requires CsrLayout(indices, n, vc, vo) && Placed(counts, indices, n, vo, i, bump0, sf0, si0)
    requires 0 <= fi < |counts| && i == Sum(counts[..fi]) && c == counts[fi] && 0 <= c && i + c <= |indices|
    ensures Placed(counts, indices, n, vo, i + c, bump, sf, si)
  {
    bump, sf, si := bump0, sf0, si0;
    var k := i;  // the corner i + ci of the source's loop
    while k < i + c
      invariant i <= k <= i + c
      invariant Placed(counts, indices, n, vo, k, bump, sf, si)
    {
      var vi := indices[k];
      PlaceStep(counts, indices, n, vc, vo, k, bump, sf, si, fi);
      var ti := vo[vi] + bump[vi];
      bump := bump[vi := bump[vi] + 1];
      sf := sf[ti := fi];
      si := si[ti := k];
      k := k + 1;
    }
  }

  /**
   * What doRefine leaves, on values: the splits sp tile the faces and carry
   * the mesh's totals; the indices idx are local to their splits, and corner
   * k's index globalizes to an output vertex of o that stands for the
   * corner's vertex vs[k]; the buffers of o hold exactly the attributes
   * layout l reads; every split but the last was closed for want of room,
   * and when every face fits no split has more than unit vertices.
   */
  ghost predicate Outcome<V2, V3, V4, W>(eq: NearEq<V2, V3, V4>, counts: seq<int>, unit: int, l: Layout, weighted: bool,
                                       vs: seq<Vertex<V2, V3, V4>>, sp: seq<Split>, idx: seq<int>, o: Outputs<V2, V3, V4, W>)
  {
    && LocalRanges(sp, idx, false)
    && Refined(sp, counts, idx, Globalize(sp, idx), |o.points|, unit)
    && Shaped(o, l, weighted)
    && Agrees(eq, o, Globalize(sp, idx), vs)
  }

  /** An attribute buffer refineDumb's flatten leaves as it is: absent, or already one entry per corner. */
  predicate LeftAsIs<T>(a: seq<T>, indices: seq<int>)
  {
    |a| == 0 || |a| == |indices|
  }

  /** out' holds, for every corner, the entry of a at the corner's index. */
  ghost predicate Gathered<T>(a: seq<T>, indices: seq<int>, out': seq<T>)
  {
    && IndicesBelow(indices, |a|) && |out'| == |indices|
    && forall k :: 0 <= k < |indices| ==> out'[k] == a[indices[k]]
  }

  /**
   * out' is what refineDumb's flatten leaves in the output buffer out for
   * the attribute buffer a: out itself when a is left as it is, otherwise
   * a's entries gathered through the indices.
   */
  ghost predicate CopiedInto<T>(a: seq<T>, out: seq<T>, indices: seq<int>, out': seq<T>)
  {
    if LeftAsIs(a, indices) then out' == out else Gathered(a, indices, out')
  }

  /**
   * tri, read from points, draws the triangles that mu::TriangulateWithIndices
   * draws from p0 through the indices.
   */
  ghost predicate DrawsSameTriangles<T>(cs: seq<int>, indices: seq<int>, swap: bool, p0: seq<T>, points: seq<T>, tri: seq<int>)
    requires Polygons(cs) && Sum(cs) == |indices|
  {
    var tw := TriangulateWithIndices(cs, indices, swap);
    && |tri| == |tw|
    && forall t :: 0 <= t < |tri| ==> 0 <= tri[t] < |points| && 0 <= tw[t] < |p0| && points[tri[t]] == p0[tw[t]]
  }

  /**
   * refineDumb's triangulation of the whole mesh as one split: by corner
   * position when the points were flattened from p0, through the indices
   * when they were left as p0; either way the same triangles are drawn.
   */
  method TriangulateWhole<T>(cs: seq<int>, indices: seq<int>, swap: bool, flattened: bool, ghost p0: seq<T>, ghost points: seq<T>)
    returns (tri: seq<int>)
    requires Polygons(cs) && Sum(cs) == |indices| && IndicesBelow(indices, |p0|)
    requires flattened ==> Gathered(p0, indices, points)
    requires !flattened ==> points == p0
    ensures tri == if flattened then Triangulate(cs, swap) else TriangulateWithIndices(cs, indices, swap)
    ensures DrawsSameTriangles(cs, indices, swap, p0, points, tri)
  {
    FlattenKeepsTriangles(p0, cs, indices, swap);
    if flattened {
      tri := Triangulate(cs, swap);
    } else {
      tri := TriangulateWithIndices(cs, indices, swap);
    }
  }

  /**
   * refineDumb's split path on values: mu::Split groups the faces by
   * split_unit vertices, one per corner, and each group's faces are
   * triangulated on their own into the next block of tri0, which has one
   * entry per triangulated index.  The groups tile the faces, each
   * triangulated block indexes only its own group's vertices, and when
   * every face fits no group has more than `unit` vertices.
   */
  method DumbSplits(counts: seq<int>, unit: int, swap: bool, tri0: seq<int>) returns (groups: seq<Split>, tri: seq<int>)
    requires Polygons(counts) && |tri0| == TriCount(counts)
    ensures Tiles(groups, counts) && Totals(groups).num_faces == |counts|
    ensures forall g :: g in groups ==> g.num_vertices == g.num_indices && g.num_submeshes == 0
    ensures FacesFit(counts, unit) ==> forall g :: g in groups ==> g.num_vertices <= unit
    ensures tri == TriangulateLocal(groups, counts, swap) && |tri| == TriCount(counts)
    ensures LocalRanges(groups, tri, true)
  {
    groups := SplitFaces(counts, unit);
    TilesTotals(groups, counts);
    assert counts[..|counts|] == counts;
    tri := TriangulateGroups(groups, counts, swap, tri0);
    TriangulateLocalRanges(groups, counts, swap);
    assert tri[..|tri|] == tri;
  }

  /**
   * swapNewData's exchange for one destination: given, first and second
   * become given', first' and second'.  The caller's buffer `given` is
   * exchanged with the first non-empty of its sources `first` and
   * `second`, or with none when both are empty; the other source keeps
   * its buffer.
   */
  ghost predicate Exchanges<T>(given: seq<T>, first: seq<T>, second: seq<T>, given': seq<T>, first': seq<T>, second': seq<T>)
  {
    if |first| > 0 then given' == first && first' == given && second' == second
    else if |second| > 0 then given' == second && first' == first && second' == given
    else given' == given && first' == first && second' == second
  }

  /** One exchange of swapNewData. */
  method Exchange<T>(given: seq<T>, first: seq<T>, second: seq<T>) returns (given': seq<T>, first': seq<T>, second': seq<T>)
    ensures Exchanges(given, first, second, given', first', second')
  {
    if |first| > 0 {
      given', first', second' := first, given, second;
    } else if |second| > 0 {
      given', first', second' := second, first, given;
    } else {
      given', first', second' := given, first, second;
    }
  }

  /**
   * A tangent buffer left over from a previous mesh, as prepare leaves
   * new_tangents, is never realigned by the dedup step: every push keeps
   * it longer than the points, so the buffers are shaped for no layout.
   * Pushing the first vertex after stale tangents leaves the first stale
   * tangent, not the pushed one, at index 0.
   */
  lemma {:induction false} StaleTangentsMisalign(o: Outputs<V2, V3, V4, W>, v: Vertex<V2, V3, V4>, w: Option<W>,
                                                 l: Layout, weighted: bool)
    requires |o.tangents| > |o.points| && v.t.Some?
    ensures |Push(o, v, w).tangents| > |Push(o, v, w).points|
    ensures !Shaped(Push(o, v, w), l, weighted)
    ensures o.points == [] ==> Push(o, v, w).tangents[0] == o.tangents[0]
  {
  }

  /** The vector types of the mesh: uv (V2), points and normals (V3), tangents and colors (V4), skin weights (W). */
  type V2(!new)
  type V3(!new)
  type V4(!new)
  type W(!new)

  class MeshRefiner {
    // settings
    var split_unit: int
    var triangulate: bool
    var swap_faces: bool

    // near_equal on each vector type
    const nearEqual2: (V2, V2) -> bool
    const nearEqual3: (V3, V3) -> bool
    const nearEqual4: (V4, V4) -> bool

    // the mesh
    var counts: seq<int>
    var indices: seq<int>
    var points: seq<V3>
    var normals: seq<V3>
    var uv: seq<V2>
    var colors: seq<V4>
    var weights4: seq<W>

    // derived from the mesh
    var counts_tmp: seq<int>
    var offsets: seq<int>
    var num_indices_tri: int
    var v2f_counts: seq<int>
    var v2f_offsets: seq<int>
    var shared_faces: seq<int>
    var shared_indices: seq<int>
    var normals_tmp: seq<V3>
    var tangents_tmp: seq<V4>
    var old2new: seq<int>

    // output
    var new_points: seq<V3>
    var new_normals: seq<V3>
    var new_tangents: seq<V4>
    var new_uv: seq<V2>
    var new_colors: seq<V4>
    var new_weights4: seq<W>
    var new_indices: seq<int>
    var new_indices_triangulated: seq<int>
    var new_indices_submeshes: seq<int>
    var splits: seq<Split>
    var submeshes: seq<Submesh>

    /** The attributes of the mesh are not given. */
    ghost predicate AttributesCleared()
      reads this`normals, this`uv, this`colors, this`weights4
    {
      normals == [] && uv == [] && colors == [] && weights4 == []
    }

    /** No reverse index, generated attribute or vertex cache. */
    ghost predicate ConnectionCleared()
      reads this`v2f_counts, this`v2f_offsets, this`shared_faces, this`shared_indices, this`normals_tmp, this`tangents_tmp, this`old2new
    {
      && v2f_counts == [] && v2f_offsets == [] && shared_faces == [] && shared_indices == []
      && normals_tmp == [] && tangents_tmp == [] && old2new == []
    }

    /** No output other than tangents: vertex buffers, index buffers, splits and submeshes are empty. */
    ghost predicate OutputsCleared()
      reads this`new_points, this`new_normals, this`new_uv, this`new_colors, this`new_weights4,
        this`new_indices, this`new_indices_triangulated, this`new_indices_submeshes, this`splits, this`submeshes
    {
      && new_points == [] && new_normals == [] && new_uv == [] && new_colors == [] && new_weights4 == []
      && new_indices == [] && new_indices_triangulated == [] && new_indices_submeshes == []
      && splits == [] && submeshes == []
    }

    /** Nothing derived from a mesh yet: no index, cache or output. */
    ghost predicate Cleared()
      reads this`v2f_counts, this`v2f_offsets, this`shared_faces, this`shared_indices, this`normals_tmp, this`tangents_tmp, this`old2new,
        this`new_points, this`new_normals, this`new_uv, this`new_colors, this`new_weights4,
        this`new_indices, this`new_indices_triangulated, this`new_indices_submeshes, this`splits, this`submeshes, this`new_tangents
    {
      ConnectionCleared() && OutputsCleared() && new_tangents == []
    }

    /** A refiner with the given near-equalities and settings and no mesh. */
    constructor(nearEqual2: (V2, V2) -> bool, nearEqual3: (V3, V3) -> bool, nearEqual4: (V4, V4) -> bool,
                split_unit: int, triangulate: bool, swap_faces: bool)
      ensures this.nearEqual2 == nearEqual2 && this.nearEqual3 == nearEqual3 && this.nearEqual4 == nearEqual4
      ensures this.split_unit == split_unit && this.triangulate == triangulate && this.swap_faces == swap_faces
      ensures counts == [] && indices == [] && points == [] && normals == [] && uv == [] && colors == [] && weights4 == []
      ensures counts_tmp == [] && offsets == [] && num_indices_tri == 0 && Cleared()
    {
      this.nearEqual2, this.nearEqual3, this.nearEqual4 := nearEqual2, nearEqual3, nearEqual4;
      this.split_unit, this.triangulate, this.swap_faces := split_unit, triangulate, swap_faces;
      counts, indices, points, normals, uv, colors, weights4 := [], [], [], [], [], [], [];
      counts_tmp, offsets, num_indices_tri := [], [], 0;
      v2f_counts, v2f_offsets, shared_faces, shared_indices := [], [], [], [];
      normals_tmp, tangents_tmp, old2new := [], [], [];
      new_points, new_normals, new_tangents, new_uv, new_colors, new_weights4 := [], [], [], [], [], [];
      new_indices, new_indices_triangulated, new_indices_submeshes := [], [], [];
      splits, submeshes := [], [];
    }

    /** Every face has a non-negative corner count, the counts add up to the corners, and every corner names a point. */
    predicate WellFormed()
      reads this`counts, this`indices, this`points
    {
      NonNegative(counts) && Sum(counts) == |indices| && IndicesBelow(indices, |points|)
    }

    /** The face offsets and triangulated index total are those of counts. */
    predicate Counted()
      reads this`counts, this`offsets, this`num_indices_tri
    {
      && |offsets| == |counts|
      && (forall f :: 0 <= f < |counts| ==> offsets[f] == Sum(counts[..f]))
      && num_indices_tri == TriCount(counts)
    }

    /** The clearing of the reverse index, generated attributes and vertex cache at the start of prepare. */
    method ForgetConnection()
      modifies this`v2f_counts, this`v2f_offsets, this`shared_faces, this`shared_indices,
               this`normals_tmp, this`tangents_tmp, this`old2new
      ensures ConnectionCleared()
    {
      v2f_counts, v2f_offsets, shared_faces, shared_indices := [], [], [], [];
      normals_tmp, tangents_tmp, old2new := [], [], [];
    }

    /** The clearing of outputs at the start of prepare; new_tangents is not among them. */
    method ForgetOutputs()
      modifies this`new_points, this`new_normals, this`new_uv, this`new_colors, this`new_weights4,
               this`new_indices, this`new_indices_triangulated, this`new_indices_submeshes, this`splits, this`submeshes
      ensures OutputsCleared()
    {
      submeshes, splits := [], [];
      new_points, new_normals, new_uv, new_colors, new_weights4 := [], [], [], [], [];
      new_indices, new_indices_triangulated, new_indices_submeshes := [], [], [];
    }

    /**
     * The face layout of a mesh given without counts: every face a
     * triangle, at offsets 0, 3, 6, ...; a trailing one or two corners form
     * no face but still count in num_indices_tri.
     */
    method CountSoup()
      modifies this`counts, this`counts_tmp, this`offsets, this`num_indices_tri
      ensures counts == counts_tmp == seq(|indices| / 3, _ => 3)
      ensures num_indices_tri == |indices|
      ensures |offsets| == |indices| / 3 && (forall f :: 0 <= f < |offsets| ==> offsets[f] == 3 * f)
      ensures Sum(counts) == |indices| - |indices| % 3
      ensures Counted() <==> |indices| % 3 == 0
    {
      num_indices_tri := |indices|;
      var num_faces := |indices| / 3;
      counts_tmp := seq(num_faces, _ => 3);
      var offs := seq(num_faces, _ => 0);
      for i := 0 to num_faces
        invariant |offs| == num_faces && forall f :: 0 <= f < i ==> offs[f] == 3 * f
      {
        offs := offs[i := i * 3];
      }
      offsets := offs;
      counts := counts_tmp;
      TriangleSoup(num_faces);
    }

    /** The face layout of a mesh given with counts, by mu::CountIndices. */
    method CountFaces()
      modifies this`counts_tmp, this`offsets, this`num_indices_tri
      ensures counts_tmp == [] && Counted()
    {
      var r := CountIndices(counts);
      counts_tmp, offsets, num_indices_tri := [], r.offsets, r.num_indices_tri;
    }

    /** The clearing of everything derived from the previous mesh at the start of prepare, except new_tangents. */
    method Forget()
      modifies this`v2f_counts, this`v2f_offsets, this`shared_faces, this`shared_indices,
               this`normals_tmp, this`tangents_tmp, this`old2new,
               this`new_points, this`new_normals, this`new_uv, this`new_colors, this`new_weights4,
               this`new_indices, this`new_indices_triangulated, this`new_indices_submeshes, this`splits, this`submeshes
      ensures ConnectionCleared() && OutputsCleared()
    {
      ForgetOutputs();
      ForgetConnection();
    }

    /** The face layout: a triangle soup's when counts are absent, mu::CountIndices' otherwise. */
    method CountLayout()
      modifies this`counts, this`counts_tmp, this`offsets, this`num_indices_tri
      ensures old(counts) == [] ==>
        && counts == counts_tmp == seq(|indices| / 3, _ => 3)
        && num_indices_tri == |indices|
        && |offsets| == |indices| / 3 && (forall f :: 0 <= f < |offsets| ==> offsets[f] == 3 * f)
        && Sum(counts) == |indices| - |indices| % 3
        && (Counted() <==> |indices| % 3 == 0)
      ensures old(counts) != [] ==> counts == old(counts) && counts_tmp == [] && Counted()
    {
      if counts == [] {
        CountSoup();
      } else {
        CountFaces();
      }
    }

    /**
     * The new mesh replaces the old one, its attributes not yet given, and
     * its face layout is worked out.
     */
    method TakeMesh(counts_: seq<int>, indices_: seq<int>, points_: seq<V3>)
      modifies this`counts, this`indices, this`points, this`normals, this`uv, this`colors, this`weights4,
               this`counts_tmp, this`offsets, this`num_indices_tri
      ensures indices == indices_ && points == points_ && AttributesCleared()
      ensures counts_ == [] ==>
        && counts == counts_tmp == seq(|indices_| / 3, _ => 3)
        && num_indices_tri == |indices_|
        && |offsets| == |indices_| / 3 && (forall f :: 0 <= f < |offsets| ==> offsets[f] == 3 * f)
        && Sum(counts) == |indices_| - |indices_| % 3
        && (Counted() <==> |indices_| % 3 == 0)
      ensures counts_ != [] ==> counts == counts_ && counts_tmp == [] && Counted()
    {
      counts, indices, points := counts_, indices_, points_;
      normals, uv, colors, weights4 := [], [], [], [];
      CountLayout();
    }

    /**
     * prepare as written: takes a new mesh and forgets the attributes, the
     * derived data and the outputs of the previous one, except new_tangents.
     * Without face counts every face is taken to be a triangle; otherwise
     * offsets and the triangulated total come from the counts.
     */
    method PrepareAsWritten(counts_: seq<int>, indices_: seq<int>, points_: seq<V3>)
      modifies this`counts, this`indices, this`points, this`normals, this`uv, this`colors, this`weights4,
               this`counts_tmp, this`offsets, this`num_indices_tri,
               this`v2f_counts, this`v2f_offsets, this`shared_faces, this`shared_indices,
               this`normals_tmp, this`tangents_tmp, this`old2new,
               this`new_points, this`new_normals, this`new_uv, this`new_colors, this`new_weights4,
               this`new_indices, this`new_indices_triangulated, this`new_indices_submeshes, this`splits, this`submeshes
      ensures indices == indices_ && points == points_ && AttributesCleared()
      ensures ConnectionCleared() && OutputsCleared() && new_tangents == old(new_tangents)
      ensures counts_ == [] ==>
        && counts == counts_tmp == seq(|indices_| / 3, _ => 3)
        && num_indices_tri == |indices_|
        && |offsets| == |indices_| / 3 && (forall f :: 0 <= f < |offsets| ==> offsets[f] == 3 * f)
        && Sum(counts) == |indices_| - |indices_| % 3
        && (Counted() <==> |indices_| % 3 == 0)
      ensures counts_ != [] ==> counts == counts_ && counts_tmp == [] && Counted()
    {
      TakeMesh(counts_, indices_, points_);
      Forget();
    }

    /**
     * prepare with new_tangents forgotten as well, so that no output of a
     * previous mesh survives it.
     */
    method Prepare(counts_: seq<int>, indices_: seq<int>, points_: seq<V3>)
      modifies this`counts, this`indices, this`points, this`normals, this`uv, this`colors, this`weights4,
               this`counts_tmp, this`offsets, this`num_indices_tri,
               this`v2f_counts, this`v2f_offsets, this`shared_faces, this`shared_indices,
               this`normals_tmp, this`tangents_tmp, this`old2new,
               this`new_points, this`new_normals, this`new_tangents, this`new_uv, this`new_colors, this`new_weights4,
               this`new_indices, this`new_indices_triangulated, this`new_indices_submeshes, this`splits, this`submeshes
      ensures indices == indices_ && points == points_ && AttributesCleared() && Cleared()
      ensures counts_ == [] ==>
        && counts == counts_tmp == seq(|indices_| / 3, _ => 3)
        && num_indices_tri == |indices_|
        && |offsets| == |indices_| / 3 && (forall f :: 0 <= f < |offsets| ==> offsets[f] == 3 * f)
        && Sum(counts) == |indices_| - |indices_| % 3
        && (Counted() <==> |indices_| % 3 == 0)
      ensures counts_ != [] ==> counts == counts_ && counts_tmp == [] && Counted()
    {
      PrepareAsWritten(counts_, indices_, points_);
      new_tangents := [];
    }

    /** The reverse index of the current mesh is built: every corner sits in its point's slot range. */
    ghost predicate Connected()
      reads this`counts, this`indices, this`points, this`v2f_counts, this`v2f_offsets, this`shared_faces, this`shared_indices
    {
      IsCsr(counts, indices, |points|, v2f_counts, v2f_offsets, shared_faces, shared_indices)
    }

    /**
     * buildConnection: unless the per-point counts already have one entry
     * per point, builds the point-to-corner index of the mesh.
     */
    method BuildConnection()
      requires WellFormed()
      modifies this`v2f_counts, this`v2f_offsets, this`shared_faces, this`shared_indices
      ensures |old(v2f_counts)| == |points| ==>
        && v2f_counts == old(v2f_counts) && v2f_offsets == old(v2f_offsets)
        && shared_faces == old(shared_faces) && shared_indices == old(shared_indices)
      ensures |old(v2f_counts)| != |points| ==> Connected()
      ensures old(v2f_counts == [] && v2f_offsets == [] && shared_faces == [] && shared_indices == []) ==> Connected()
    {
      if |v2f_counts| == |points| {
        return;
      }
      var n := |points|;
      var vc := CountCorners(counts, indices, n);
      var vo := SlotOffsets(vc, v2f_offsets);
      var sf, si := PlaceCorners(counts, indices, n, vc, vo, shared_faces, shared_indices);
      v2f_counts, v2f_offsets, shared_faces, shared_indices := vc, vo, sf, si;
    }

    /** Point vi has a slot range, and each of its slots names a corner that has an entry in cache c. */
    predicate SlotsReady(vi: int, c: seq<int>)
      reads this`v2f_counts, this`v2f_offsets, this`shared_indices
    {
      && 0 <= vi < |v2f_counts| && |v2f_offsets| == |v2f_counts| && 0 <= v2f_counts[vi]
      && forall j :: 0 <= j < v2f_counts[vi] ==>
           0 <= Slot(v2f_offsets[vi], j) < |shared_indices| && 0 <= shared_indices[Slot(v2f_offsets[vi], j)] < |c|
    }

    /** The entry in cache c of the corner in point vi's slot j. */
    function Entry(vi: int, j: int, c: seq<int>): int
      reads this`v2f_counts, this`v2f_offsets, this`shared_indices
      requires SlotsReady(vi, c) && 0 <= j < v2f_counts[vi]
    {
      c[shared_indices[Slot(v2f_offsets[vi], j)]]
    }

    /** The output vertex buffers, taken together. */
    function Outs(): Outputs<V2, V3, V4, W>
      reads this`new_points, this`new_normals, this`new_tangents, this`new_uv, this`new_colors, this`new_weights4
    {
      Outputs(new_points, new_normals, new_tangents, new_uv, new_colors, new_weights4)
    }

    /** The near-equalities the refiner was given. */
    function Eq(): NearEq<V2, V3, V4>
    {
      NearEq(nearEqual2, nearEqual3, nearEqual4)
    }

    /** Point vi's skin weights, when the mesh has them. */
    function WeightOf(vi: int): (r: Option<W>)
      reads this`weights4
      requires weights4 != [] ==> 0 <= vi < |weights4|
    {
      if weights4 == [] then None else Some(weights4[vi])
    }

    /**
     * findOrAddVertexPNTUC, PNTU, PNU, PN and PU, given the vertex cache c
     * and the output buffers o and returning them updated as c' and o': the
     * variant is the set of attributes v has. The search visits point vi's
     * slots in order and stops at slot k, the first whose cache entry is
     * unassigned or names a matching output vertex; every slot before it
     * names a vertex that does not match. Exactly one of three outcomes
     * follows: a match is returned and nothing changes; an unassigned entry
     * is assigned a new output vertex made from v (with vi's skin weights);
     * or, when no slot stops the search, 0 is returned and nothing changes.
     * The cache is read per slot of the point, not per corner: the slot k
     * that stops the search belongs to some corner of vi, not necessarily
     * the corner being refined.
     */
    method FindOrAddVertex(vi: int, v: Vertex<V2, V3, V4>, c: seq<int>, o: Outputs<V2, V3, V4, W>)
      returns (ni: int, ghost k: int, c': seq<int>, o': Outputs<V2, V3, V4, W>)
      requires SlotsReady(vi, c) && CacheRange(c, 0, |o.points|) && Aligned(o, v)
      requires weights4 != [] ==> 0 <= vi < |weights4|
      ensures 0 <= k <= v2f_counts[vi]
      ensures forall j :: 0 <= j < k ==> Entry(vi, j, c) != -1 && !Matches(Eq(), o, Entry(vi, j, c), v)
      ensures k == v2f_counts[vi] ==> ni == 0 && c' == c && o' == o
      ensures k < v2f_counts[vi] && Entry(vi, k, c) != -1 ==>
        ni == Entry(vi, k, c) && Matches(Eq(), o, ni, v) && c' == c && o' == o
      ensures k < v2f_counts[vi] && Entry(vi, k, c) == -1 ==>
        && ni == |o.points| && c' == c[shared_indices[Slot(v2f_offsets[vi], k)] := ni]
        && o' == Push(o, v, WeightOf(vi))
    {
      var offset := v2f_offsets[vi];
      var count := v2f_counts[vi];
      var ci := 0;
      while ci < count && c[shared_indices[Slot(offset, ci)]] != -1 && !Matches(Eq(), o, c[shared_indices[Slot(offset, ci)]], v)
        invariant 0 <= ci <= count
        invariant forall j :: 0 <= j < ci ==> Entry(vi, j, c) != -1 && !Matches(Eq(), o, Entry(vi, j, c), v)
      {
        ci := ci + 1;
      }
      k, c', o' := ci, c, o;
      if ci == count {
        ni := 0;
        return;
      }
      var t := shared_indices[Slot(offset, ci)];
      ni := c[t];
      if ni != -1 {
        return;
      }
      ni := |o.points|;
      c' := c[t := ni];
      o' := Push(o, v, WeightOf(vi));
    }

    /** The points and attribute buffers corners read their vertices from (generated tangents among them). */
    function Attrs(): Attributes<V2, V3, V4>
      reads this`points, this`normals, this`tangents_tmp, this`uv, this`colors
    {
      Attributes(points, normals, tangents_tmp, uv, colors)
    }

    /**
     * Layout l reads every attribute within its buffer, and skin weights,
     * when given, have one entry per point.
     */
    predicate LayoutReadable(l: Layout)
      reads this`points, this`indices, this`normals, this`tangents_tmp, this`uv, this`colors, this`weights4
    {
      ReadableBy(Attrs(), l, |indices|) && (weights4 == [] || |weights4| == |points|)
    }

    /** The vertex corner i of point vi contributes under layout l. */
    function VertexAt(l: Layout, vi: int, i: int): (r: Vertex<V2, V3, V4>)
      reads this`points, this`indices, this`normals, this`tangents_tmp, this`uv, this`colors, this`weights4
      requires LayoutReadable(l) && 0 <= vi < |points| && 0 <= i < |indices|
    {
      VertexOf(Attrs(), l, |indices|, vi, i)
    }

    /** The vertices of all corners under layout l, in corner order. */
    ghost function Corners(l: Layout): (r: seq<Vertex<V2, V3, V4>>)
      reads this`counts, this`points, this`indices, this`normals, this`tangents_tmp, this`uv, this`colors, this`weights4
      requires WellFormed() && LayoutReadable(l)
    {
      CornerVertices(Attrs(), l, indices, |indices|)
    }

    /** vs lists the vertices of all corners under layout l, in corner order. */
    ghost predicate CornersAre(l: Layout, vs: seq<Vertex<V2, V3, V4>>)
      reads this`counts, this`points, this`indices, this`normals, this`tangents_tmp, this`uv, this`colors, this`weights4
      requires WellFormed() && LayoutReadable(l)
    {
      |vs| == |indices| && forall k :: 0 <= k < |vs| ==> vs[k] == VertexAt(l, indices[k], k)
    }

    /** The slots of the point-to-corner index, as the vertex cache reads them. */
    ghost predicate Indexed()
      reads this`indices, this`points, this`v2f_counts, this`v2f_offsets, this`shared_indices
    {
      SlotIndex(indices, |points|, v2f_counts, v2f_offsets, shared_indices)
    }

    /**
     * The dedup step for a corner of point vi with vertex v, when vi still
     * has an unassigned slot: the search stops at or before that slot, so
     * the corner is given either an output vertex of the open split (which
     * starts at output vertex ov) that matches v, or a new one made from v
     * in that slot.
     */
    method Dedup(vi: int, v: Vertex<V2, V3, V4>, ov: int, c: seq<int>, o: Outputs<V2, V3, V4, W>, ghost filled: seq<int>)
      returns (ni: int, c': seq<int>, o': Outputs<V2, V3, V4, W>, ghost filled': seq<int>)
      requires Indexed() && Filled(c, |points|, v2f_counts, v2f_offsets, shared_indices, filled)
      requires 0 <= vi < |points| && 0 <= filled[vi] < v2f_counts[vi]
      requires 0 <= ov <= |o.points| && CacheRange(c, ov, |o.points|) && Aligned(o, v)
      requires weights4 != [] ==> vi < |weights4|
      ensures ov <= ni < |o'.points| && CacheRange(c', ov, |o'.points|) && |c'| == |c|
      ensures Filled(c', |points|, v2f_counts, v2f_offsets, shared_indices, filled')
      ensures filled' == Bumped(filled, vi, ni >= |o.points|)
      ensures Dedupped(Eq(), o, o', ni, v, WeightOf(vi))
    {
      ghost var free := filled[vi];
      ghost var k;
      ni, k, c', o' := FindOrAddVertex(vi, v, c, o);
      assert Entry(vi, free, c) == -1;
      if k > free {
        assert false;
      }
      if k < free {
        assert Entry(vi, k, c) != -1;
        filled' := filled;
      } else {
        filled' := filled[vi := filled[vi] + 1];
        FilledAssign(indices, |points|, v2f_counts, v2f_offsets, shared_indices, c, filled, vi, ni);
      }
    }

    /**
     * The state the corner loop of doRefine keeps for the open split,
     * which starts at output vertex ov: the output buffers o are shaped for
     * layout l, the corners visited (|g| of them) were given output
     * vertices g standing for their vertices vs, and the vertex cache c
     * holds vertices of the open split only, in slot prefixes bounded by
     * the corners visited.
     */
    ghost predicate Emitting(l: Layout, vs: seq<Vertex<V2, V3, V4>>, ov: int, g: seq<int>, filled: seq<int>,
                             c: seq<int>, o: Outputs<V2, V3, V4, W>)
      reads this`indices, this`points, this`weights4, this`v2f_counts, this`v2f_offsets, this`shared_indices
    {
      && Shaped(o, l, weights4 != []) && Agrees(Eq(), o, g, vs) && |c| == |indices|
      && Filled(c, |points|, v2f_counts, v2f_offsets, shared_indices, filled)
      && FilledBelow(filled, indices, |points|, |g|)
      && 0 <= ov <= |o.points| && CacheRange(c, ov, |o.points|)
    }

    /**
     * The body of doRefine's corner loop for corner i: the dedup step for
     * its point, whose result is the corner's output vertex ni.
     */
    method EmitCorner(l: Layout, i: int, ov: int, c: seq<int>, o: Outputs<V2, V3, V4, W>,
                      ghost filled: seq<int>, ghost g: seq<int>, ghost vs: seq<Vertex<V2, V3, V4>>)
      returns (ni: int, c': seq<int>, o': Outputs<V2, V3, V4, W>, ghost filled': seq<int>)
      requires Indexed() && WellFormed() && LayoutReadable(l) && CornersAre(l, vs)
      requires Emitting(l, vs, ov, g, filled, c, o) && |g| == i < |indices|
      ensures Emitting(l, vs, ov, g + [ni], filled', c', o')
      ensures ov <= ni < |o'.points| && |o'.points| == |o.points| + (if ni == |o.points| then 1 else 0)
    {
      var vi := indices[i];
      FreeSlot(indices, |points|, v2f_counts, v2f_offsets, shared_indices, filled, i);
      var v := VertexAt(l, vi, i);
      ShapedAligned(o, l, weights4 != [], v);
      ni, c', o', filled' := Dedup(vi, v, ov, c, o, filled);
      FilledBelowStep(indices, |points|, filled, i, ni >= |o.points|);
      DedupKeeps(Eq(), o, o', l, weights4 != [], g, vs, ni, WeightOf(vi));
    }

    /**
     * doRefine's loop over the count corners of a face starting at corner
     * offset: each corner's output vertex is appended to g and its index
     * local to the open split to idx.
     */
    method EmitFace(l: Layout, ghost vs: seq<Vertex<V2, V3, V4>>, offset: int, count: int, ov: int,
                    idx: seq<int>, c: seq<int>, o: Outputs<V2, V3, V4, W>, ghost g: seq<int>, ghost filled: seq<int>)
      returns (idx': seq<int>, c': seq<int>, o': Outputs<V2, V3, V4, W>, ghost g': seq<int>, ghost filled': seq<int>)
      requires Indexed() && WellFormed() && LayoutReadable(l) && CornersAre(l, vs)
      requires Emitting(l, vs, ov, g, filled, c, o)
      requires |idx| == |g| == offset && 0 <= count && offset + count <= |indices|
      ensures Emitting(l, vs, ov, g', filled', c', o')
      ensures |idx'| == |g'| == offset + count && idx'[..|idx|] == idx && g'[..|g|] == g
      ensures forall k :: |idx| <= k < |idx'| ==> 0 <= idx'[k] < |o'.points| - ov && g'[k] == idx'[k] + ov
      ensures |o.points| <= |o'.points| <= |o.points| + count
    {
      idx', c', o', g', filled' := idx, c, o, g, filled;
      var ci := 0;
      while ci < count
        invariant 0 <= ci <= count && |idx'| == |g'| == offset + ci
        invariant idx'[..|idx|] == idx && g'[..|g|] == g
        invariant forall k :: |idx| <= k < |idx'| ==> 0 <= idx'[k] < |o'.points| - ov && g'[k] == idx'[k] + ov
        invariant |o.points| <= |o'.points| <= |o.points| + ci
        invariant Emitting(l, vs, ov, g', filled', c', o')
      {
        var i := offset + ci;
        var ni;
        ni, c', o', filled' := EmitCorner(l, i, ov, c', o', filled', g', vs);
        idx' := idx' + [ni - ov];
        g' := g' + [ni];
        ci := ci + 1;
      }
    }

    /**
     * The split check before face fi: add_new_split when split_unit is set
     * and the face's corners could take the open split past it, after
     * which the vertex cache is cleared; nothing changes otherwise.
     * Afterwards the face is admitted to the open split: it fits, or
     * split_unit is off, or the split was just opened. The check runs
     * before the first face too, so a first face with more corners than
     * split_unit closes an empty split of no face and no vertex.
     */
    method MakeRoom(fi: int, sp: seq<Split>, idx: seq<int>, c: seq<int>, np: int,
                    num_faces: int, num_tri: int, ov: int, oi: int,
                    ghost g: seq<int>, ghost filled: seq<int>, ghost start: int)
      returns (sp': seq<Split>, c': seq<int>, num_faces': int, num_tri': int, ov': int, oi': int,
               ghost filled': seq<int>, ghost start': int)
      requires Indexed() && 0 <= fi < |counts| && num_faces == fi - start
      requires |c| == |indices| && Filled(c, |points|, v2f_counts, v2f_offsets, shared_indices, filled)
      requires FilledBelow(filled, indices, |points|, |g|) && CacheRange(c, ov, np)
      requires Refining(sp, counts, idx, g, np, split_unit, fi, start, num_tri, ov, oi)
      requires 0 < |sp| ==> start < fi
      ensures if split_unit > 0 && np - ov + counts[fi] > split_unit then
          && sp' == sp + [Split(num_faces, np - ov, |idx| - oi, num_tri, 0)]
          && (forall j :: 0 <= j < |c'| ==> c'[j] == -1)
          && ov' == np && oi' == |idx| && start' == fi && num_faces' == 0 && num_tri' == 0
        else
          && sp' == sp && c' == c && ov' == ov && oi' == oi
          && start' == start && num_faces' == num_faces && num_tri' == num_tri
      ensures num_faces' == fi - start' && 0 <= ov' <= np
      ensures !(split_unit > 0 && np - ov' + counts[fi] > split_unit) || (np == ov' && start' == fi && 0 < |sp'|)
      ensures |c'| == |indices| && Filled(c', |points|, v2f_counts, v2f_offsets, shared_indices, filled')
      ensures FilledBelow(filled', indices, |points|, |g|) && CacheRange(c', ov', np)
      ensures Refining(sp', counts, idx, g, np, split_unit, fi, start', num_tri', ov', oi')
    {
      sp', c', num_faces', num_tri', ov', oi', filled', start' := sp, c, num_faces, num_tri, ov, oi, filled, start;
      if split_unit > 0 && np - ov + counts[fi] > split_unit {
        sp', c', ov', oi', filled' := CloseSplit(fi, sp, idx, c, np, num_faces, num_tri, ov, oi, g, filled, start);
        num_faces', num_tri' := 0, 0;
        start' := fi;
      }
    }

    /**
     * add_new_split before face fi, which would overfill the open split,
     * and the clearing of the vertex cache that follows it: the open split
     * is appended with its counts, the next one opens at face fi with the
     * next output vertex and index, and every cache entry is unassigned.
     */
    method CloseSplit(fi: int, sp: seq<Split>, idx: seq<int>, c: seq<int>, np: int,
                      num_faces: int, num_tri: int, ov: int, oi: int,
                      ghost g: seq<int>, ghost filled: seq<int>, ghost start: int)
      returns (sp': seq<Split>, c': seq<int>, ov': int, oi': int, ghost filled': seq<int>)
      requires Indexed() && 0 <= fi < |counts| && num_faces == fi - start && |c| == |indices| && |g| <= |indices|
      requires Refining(sp, counts, idx, g, np, split_unit, fi, start, num_tri, ov, oi)
      requires 0 < |sp| ==> start < fi
      requires split_unit > 0 && np - ov + counts[fi] > split_unit
      ensures sp' == sp + [Split(num_faces, np - ov, |idx| - oi, num_tri, 0)]
      ensures |c'| == |c| && (forall j :: 0 <= j < |c'| ==> c'[j] == -1) && ov' == np && oi' == |idx|
      ensures Filled(c', |points|, v2f_counts, v2f_offsets, shared_indices, filled')
      ensures FilledBelow(filled', indices, |points|, |g|) && CacheRange(c', np, np)
      ensures Refining(sp', counts, idx, g, np, split_unit, fi, fi, 0, np, |idx|)
    {
      var s := Split(num_faces, np - ov, |idx| - oi, num_tri, 0);
      RefiningClose(sp, counts, idx, g, np, split_unit, fi, start, num_tri, ov, oi, s);
      sp' := sp + [s];
      ov', oi' := np, |idx|;
      c' := Unassigned(|c|);
      filled' := seq(|points|, _ => 0);
      FilledReset(indices, |points|, v2f_counts, v2f_offsets, shared_indices, c', filled', |g|);
    }

    /** Before the first face: nothing emitted, with a cleared cache and empty output buffers. */
    lemma {:induction false} EmittingStart(l: Layout, vs: seq<Vertex<V2, V3, V4>>, c: seq<int>, o: Outputs<V2, V3, V4, W>, filled: seq<int>)
      requires Indexed() && |c| == |indices| && forall j :: 0 <= j < |c| ==> c[j] == -1
      requires o == Outputs([], [], [], [], [], []) && |filled| == |points| && forall v :: 0 <= v < |points| ==> filled[v] == 0
      ensures Emitting(l, vs, 0, [], filled, c, o)
    {
      FilledReset(indices, |points|, v2f_counts, v2f_offsets, shared_indices, c, filled, 0);
    }

    /**
     * One turn of doRefine's face loop, for face fi: the split check, then
     * the dedup of the face's corners into the open split.
     */
    method RefineFace(l: Layout, ghost vs: seq<Vertex<V2, V3, V4>>, fi: int,
                      sp: seq<Split>, idx: seq<int>, c: seq<int>, o: Outputs<V2, V3, V4, W>,
                      num_faces: int, num_tri: int, ov: int, oi: int,
                      ghost g: seq<int>, ghost filled: seq<int>, ghost start: int)
      returns (sp': seq<Split>, idx': seq<int>, c': seq<int>, o': Outputs<V2, V3, V4, W>,
               num_faces': int, num_tri': int, ov': int, oi': int,
               ghost g': seq<int>, ghost filled': seq<int>, ghost start': int)
      requires Indexed() && WellFormed() && Counted() && LayoutReadable(l) && CornersAre(l, vs)
      requires 0 <= fi < |counts| && num_faces == fi - start
      requires Emitting(l, vs, ov, g, filled, c, o)
      requires Refining(sp, counts, idx, g, |o.points|, split_unit, fi, start, num_tri, ov, oi)
      requires 0 < |sp| ==> start < fi
      ensures num_faces' == fi + 1 - start' && start' <= fi
      ensures Emitting(l, vs, ov', g', filled', c', o')
      ensures Refining(sp', counts, idx', g', |o'.points|, split_unit, fi + 1, start', num_tri', ov', oi')
    {
      var np := |o.points|;
      var nit;
      sp', c', num_faces', nit, ov', oi', filled', start' := MakeRoom(fi, sp, idx, c, np, num_faces, num_tri, ov, oi, g, filled, start);
      idx', c', o', g', filled', num_tri' := AdmitFace(l, vs, fi, sp', idx, c', o, nit, ov', oi', g, filled', start');
      num_faces' := num_faces' + 1;
    }

    /**
     * The second half of a face loop turn: face fi, which the open split
     * has room for, has its corners deduplicated into that split, and its
     * triangles are counted.
     */
    method AdmitFace(l: Layout, ghost vs: seq<Vertex<V2, V3, V4>>, fi: int,
                     sp: seq<Split>, idx: seq<int>, c: seq<int>, o: Outputs<V2, V3, V4, W>,
                     num_tri: int, ov: int, oi: int,
                     ghost g: seq<int>, ghost filled: seq<int>, ghost start: int)
      returns (idx': seq<int>, c': seq<int>, o': Outputs<V2, V3, V4, W>, ghost g': seq<int>, ghost filled': seq<int>, num_tri': int)
      requires Indexed() && WellFormed() && Counted() && LayoutReadable(l) && CornersAre(l, vs)
      requires 0 <= fi < |counts| && 0 <= ov <= |o.points|
      requires Emitting(l, vs, ov, g, filled, c, o)
      requires Refining(sp, counts, idx, g, |o.points|, split_unit, fi, start, num_tri, ov, oi)
      requires !(split_unit > 0 && |o.points| - ov + counts[fi] > split_unit) || (|o.points| == ov && start == fi && 0 < |sp|)
      ensures Emitting(l, vs, ov, g', filled', c', o')
      ensures Refining(sp, counts, idx', g', |o'.points|, split_unit, fi + 1, start, num_tri', ov, oi)
    {
      SumStep(counts, fi);
      SumPrefixMonotone(counts, fi + 1, |counts|);
      var count := counts[fi];
      idx', c', o', g', filled' := EmitFace(l, vs, offsets[fi], count, ov, idx, c, o, g, filled);
      num_tri' := num_tri + (count - 2) * 3;
      RefiningFace(sp, counts, idx, g, |o.points|, split_unit, fi, start, num_tri, ov, oi, idx', g', |o'.points|, num_tri');
    }

    /**
     * doRefine's face loop from face fi0 on: RefineFace for every face
     * left.
     */
    method RefineFrom(l: Layout, ghost vs: seq<Vertex<V2, V3, V4>>, fi0: int,
                      sp0: seq<Split>, idx0: seq<int>, c0: seq<int>, o0: Outputs<V2, V3, V4, W>,
                      num_faces0: int, num_tri0: int, ov0: int, oi0: int,
                      ghost g0: seq<int>, ghost filled0: seq<int>, ghost start0: int)
      returns (sp: seq<Split>, idx: seq<int>, c: seq<int>, o: Outputs<V2, V3, V4, W>,
               num_faces: int, num_tri: int, ov: int, oi: int,
               ghost g: seq<int>, ghost filled: seq<int>, ghost start: int)
      requires Indexed() && WellFormed() && Counted() && LayoutReadable(l) && CornersAre(l, vs)
      requires 0 <= fi0 <= |counts| && num_faces0 == fi0 - start0
      requires Emitting(l, vs, ov0, g0, filled0, c0, o0)
      requires Refining(sp0, counts, idx0, g0, |o0.points|, split_unit, fi0, start0, num_tri0, ov0, oi0)
      requires 0 < |sp0| ==> start0 < fi0
      ensures num_faces == |counts| - start && (0 < |sp| ==> start < |counts|)
      ensures Emitting(l, vs, ov, g, filled, c, o)
      ensures Refining(sp, counts, idx, g, |o.points|, split_unit, |counts|, start, num_tri, ov, oi)
    {
      sp, idx, c, o, num_faces, num_tri, ov, oi, g, filled, start :=
        sp0, idx0, c0, o0, num_faces0, num_tri0, ov0, oi0, g0, filled0, start0;
      var fi := fi0;
      while fi < |counts|
        invariant fi0 <= fi <= |counts| && num_faces == fi - start
        invariant Emitting(l, vs, ov, g, filled, c, o)
        invariant Refining(sp, counts, idx, g, |o.points|, split_unit, fi, start, num_tri, ov, oi)
        invariant 0 < |sp| ==> start < fi
      {
        sp, idx, c, o, num_faces, num_tri, ov, oi, g, filled, start :=
          RefineFace(l, vs, fi, sp, idx, c, o, num_faces, num_tri, ov, oi, g, filled, start);
        fi := fi + 1;
      }
    }

    /**
     * doRefine's face loop and its closing add_new_split, starting from the
     * cleared vertex cache c0 and the empty output buffers o0. Before each
     * face, the open split is closed when split_unit is set and the face's
     * corners would take its vertex count past split_unit; the cache is then
     * cleared. Each corner is given its output vertex by the dedup step and
     * its index local to the open split is recorded.
     *
     * The splits tile the faces and their totals are the mesh's; every
     * recorded index is local to its split, and globalizes to the output
     * vertex g[k] of corner k, which stands for that corner's vertex; every
     * split but the last was closed for want of room; and when every face
     * fits, no split has more than split_unit vertices.
     */
    method RefineFaces(l: Layout, c0: seq<int>, o0: Outputs<V2, V3, V4, W>)
      returns (sp: seq<Split>, idx: seq<int>, c: seq<int>, o: Outputs<V2, V3, V4, W>)
      requires Indexed() && WellFormed() && Counted() && LayoutReadable(l)
      requires |c0| == |indices| && forall j :: 0 <= j < |c0| ==> c0[j] == -1
      requires o0 == Outputs([], [], [], [], [], [])
      ensures Outcome(Eq(), counts, split_unit, l, weights4 != [], Corners(l), sp, idx, o)
      ensures |c| == |indices|
    {
      ghost var vs := Corners(l);
      assert CornersAre(l, vs);
      ghost var filled := seq(|points|, _ => 0);
      EmittingStart(l, vs, c0, o0, filled);
      RefiningStart(counts, split_unit);
      var num_faces, num_tri, ov, oi;
      ghost var g, start;
      sp, idx, c, o, num_faces, num_tri, ov, oi, g, filled, start :=
        RefineFrom(l, vs, 0, [], [], c0, o0, 0, 0, 0, 0, [], filled, 0);
      var s := Split(num_faces, |o.points| - ov, |idx| - oi, num_tri, 0);
      RefiningDone(sp, counts, idx, g, |o.points|, split_unit, start, num_tri, ov, oi, s);
      sp := sp + [s];
    }

    /** What doRefine leaves for layout l, as Outcome states it of the refiner's mesh, settings and outputs. */
    ghost predicate Refinement(l: Layout)
      reads this`splits, this`new_indices, this`counts, this`split_unit, this`points, this`indices, this`normals,
        this`tangents_tmp, this`uv, this`colors, this`weights4, this`new_points, this`new_normals, this`new_tangents,
        this`new_uv, this`new_colors, this`new_weights4
      requires WellFormed() && LayoutReadable(l)
    {
      Outcome(Eq(), counts, split_unit, l, weights4 != [], Corners(l), splits, new_indices, Outs())
    }

    /** What doRefine leaves: a vertex cache entry per corner, the refinement and, when asked, its triangulation. */
    ghost predicate Refined(l: Layout)
      reads this`old2new, this`splits, this`new_indices, this`counts, this`split_unit, this`points, this`indices, this`normals,
        this`tangents_tmp, this`uv, this`colors, this`weights4, this`new_points, this`new_normals, this`new_tangents,
        this`new_uv, this`new_colors, this`new_weights4, this`new_indices_triangulated, this`swap_faces, this`triangulate
      requires WellFormed() && LayoutReadable(l)
    {
      |old2new| == |indices| && Refinement(l) && (triangulate ==> Triangulated())
    }

    /** The triangulated indices are the per-split fan triangulation of the split-local indices. */
    ghost predicate Triangulated()
      reads this`splits, this`counts, this`new_indices, this`new_indices_triangulated, this`swap_faces
    {
      && Tiles(splits, counts) && Polygons(counts) && |new_indices| == Totals(splits).num_indices
      && new_indices_triangulated == TriangulateSplits(splits, counts, new_indices, swap_faces)
    }

    /** doRefine's vertex cache, output vertex buffers, split-local and triangulated indices and splits, stored. */
    method Commit(c: seq<int>, o: Outputs<V2, V3, V4, W>, idx: seq<int>, sp: seq<Split>, tri: seq<int>)
      modifies this`old2new, this`new_points, this`new_normals, this`new_tangents, this`new_uv, this`new_colors,
               this`new_weights4, this`new_indices, this`splits, this`new_indices_triangulated
      ensures old2new == c && Outs() == o && new_indices == idx && splits == sp && new_indices_triangulated == tri
    {
      old2new := c;
      new_points, new_normals, new_tangents, new_uv, new_colors, new_weights4 :=
        o.points, o.normals, o.tangents, o.uv, o.colors, o.weights4;
      new_indices, new_indices_triangulated := idx, tri;
      splits := sp;
    }

    /**
     * doRefine's face loop with its split rule, then, when triangulate is
     * set, the per-split fan triangulation of the split-local indices, on
     * values: the vertex cache c, output buffers o, split-local indices idx,
     * splits sp and triangulated indices tri that doRefine stores.
     */
    method RefineValues(l: Layout) returns (c: seq<int>, o: Outputs<V2, V3, V4, W>, idx: seq<int>, sp: seq<Split>, tri: seq<int>)
      requires Indexed() && WellFormed() && Counted() && LayoutReadable(l) && (triangulate ==> Polygons(counts))
      ensures |c| == |indices| && Outcome(Eq(), counts, split_unit, l, weights4 != [], Corners(l), sp, idx, o)
      ensures triangulate ==> tri == TriangulateSplits(sp, counts, idx, swap_faces)
      ensures !triangulate ==> tri == new_indices_triangulated
    {
      c := Unassigned(|indices|);
      sp, idx, c, o := RefineFaces(l, c, Outputs([], [], [], [], [], []));
      tri := new_indices_triangulated;
      if triangulate {
        tri := TriangulatePass(sp, counts, idx, swap_faces, tri);
      }
    }

    /** The face loop's results, once stored, are what doRefine leaves. */
    lemma {:induction false} Stored(l: Layout, cnt: seq<int>, unit: int, w: bool, vs: seq<Vertex<V2, V3, V4>>,
                 sp: seq<Split>, idx: seq<int>, o: Outputs<V2, V3, V4, W>)
      requires WellFormed() && LayoutReadable(l) && (triangulate ==> Polygons(counts))
      requires (counts, split_unit, weights4 != [], Corners(l)) == (cnt, unit, w, vs)
      requires (splits, new_indices, Outs()) == (sp, idx, o)
      requires Outcome(Eq(), cnt, unit, l, w, vs, sp, idx, o)
      requires triangulate ==> new_indices_triangulated == TriangulateSplits(sp, cnt, idx, swap_faces)
      ensures Refinement(l) && (triangulate ==> Triangulated())
    {
    }

    /**
     * The face loop's results stored: when they are an outcome of the face
     * loop for layout l on the refiner's mesh and settings (cnt, unit, w,
     * vs), and tri triangulates idx, the refiner is left as doRefine leaves
     * it.
     */
    method Store(l: Layout, c: seq<int>, o: Outputs<V2, V3, V4, W>, idx: seq<int>, sp: seq<Split>, tri: seq<int>,
                 ghost cnt: seq<int>, ghost unit: int, ghost w: bool, ghost vs: seq<Vertex<V2, V3, V4>>)
      requires WellFormed() && LayoutReadable(l) && (triangulate ==> Polygons(counts))
      requires (counts, split_unit, weights4 != [], Corners(l)) == (cnt, unit, w, vs)
      requires Outcome(Eq(), cnt, unit, l, w, vs, sp, idx, o)
      requires triangulate ==> tri == TriangulateSplits(sp, cnt, idx, swap_faces)
      modifies this`old2new, this`new_points, this`new_normals, this`new_tangents, this`new_uv, this`new_colors,
               this`new_weights4, this`new_indices, this`splits, this`new_indices_triangulated
      ensures old2new == c && new_indices_triangulated == tri
      ensures Refinement(l) && (triangulate ==> Triangulated())
    {
      Commit(c, o, idx, sp, tri);
      Stored(l, cnt, unit, w, vs, sp, idx, o);
    }

    /**
     * doRefine after buildConnection: the face loop and the triangulation
     * pass, whose results are stored.
     */
    method RefineConnected(l: Layout)
      requires WellFormed() && Counted() && LayoutReadable(l) && (triangulate ==> Polygons(counts)) && Indexed()
      modifies this`old2new, this`new_points, this`new_normals, this`new_tangents, this`new_uv, this`new_colors,
               this`new_weights4, this`new_indices, this`splits, this`new_indices_triangulated
      ensures Refined(l)
      ensures !triangulate ==> new_indices_triangulated == old(new_indices_triangulated)
    {
      var c, o, idx, sp, tri := RefineValues(l);
      Store(l, c, o, idx, sp, tri, counts, split_unit, weights4 != [], Corners(l));
    }

    /**
     * doRefine with the dedup variant of layout l, on the state prepare
     * leaves (no vertex cache, empty outputs): buildConnection, then the
     * face loop and the triangulation pass.
     */
    method DoRefine(l: Layout)
      requires WellFormed() && Counted() && LayoutReadable(l) && (triangulate ==> Polygons(counts))
      requires Connected() || (v2f_counts == [] && v2f_offsets == [] && shared_faces == [] && shared_indices == [])
      requires old2new == [] && Outs() == Outputs([], [], [], [], [], []) && new_indices == [] && splits == []
      modifies this`v2f_counts, this`v2f_offsets, this`shared_faces, this`shared_indices, this`old2new,
               this`new_points, this`new_normals, this`new_tangents, this`new_uv, this`new_colors, this`new_weights4,
               this`new_indices, this`new_indices_triangulated, this`splits
      ensures Refined(l)
      ensures !triangulate ==> new_indices_triangulated == old(new_indices_triangulated)
    {
      BuildConnection();
      CsrSlotIndex(counts, indices, |points|, v2f_counts, v2f_offsets, shared_faces, shared_indices);
      RefineConnected(l);
    }

    /** A buffer of n entries that flattening can read: absent, one entry per corner, or one for every index. */
    predicate Gatherable(n: int)
      reads this`indices
    {
      n == 0 || n == |indices| || IndicesBelow(indices, n)
    }

    /**
     * refineDumb's flatten test: more points than split_unit, or normals or
     * uv given per corner. split_unit is not tested for being set, so with
     * split_unit 0 any mesh with a point flattens (and then splits).
     */
    predicate Flattens()
      reads this`points, this`normals, this`uv, this`indices, this`split_unit
    {
      |points| > split_unit || |normals| == |indices| || |uv| == |indices|
    }

    /** refineDumb's gather of the points: both points and new_points become one point per corner. */
    method GatherPoints()
      requires IndicesBelow(indices, |points|)
      modifies this`points, this`new_points
      ensures new_points == points && Gathered(old(points), indices, points)
    {
      new_points := CopyWithIndices(points, indices);
      points := new_points;
    }

    /** refineDumb's gather of the normals, when given but not per corner. */
    method GatherNormals()
      requires Gatherable(|normals|)
      modifies this`normals, this`new_normals
      ensures CopiedInto(old(normals), old(new_normals), indices, new_normals)
      ensures normals == if LeftAsIs(old(normals), indices) then old(normals) else new_normals
    {
      if !LeftAsIs(normals, indices) {
        new_normals := CopyWithIndices(normals, indices);
        normals := new_normals;
      }
    }

    /** refineDumb's gather of the uv, when given but not per corner. */
    method GatherUv()
      requires Gatherable(|uv|)
      modifies this`uv, this`new_uv
      ensures CopiedInto(old(uv), old(new_uv), indices, new_uv)
      ensures uv == if LeftAsIs(old(uv), indices) then old(uv) else new_uv
    {
      if !LeftAsIs(uv, indices) {
        new_uv := CopyWithIndices(uv, indices);
        uv := new_uv;
      }
    }

    /** refineDumb's gather of the colors: into new_colors only, colors keeping its buffer. */
    method GatherColors()
      requires Gatherable(|colors|)
      modifies this`new_colors
      ensures CopiedInto(colors, old(new_colors), indices, new_colors)
    {
      if !LeftAsIs(colors, indices) {
        new_colors := CopyWithIndices(colors, indices);
      }
    }

    /** refineDumb's gather of the skin weights, when given but not per corner. */
    method GatherWeights()
      requires Gatherable(|weights4|)
      modifies this`weights4, this`new_weights4
      ensures CopiedInto(old(weights4), old(new_weights4), indices, new_weights4)
      ensures weights4 == if LeftAsIs(old(weights4), indices) then old(weights4) else new_weights4
    {
      if !LeftAsIs(weights4, indices) {
        new_weights4 := CopyWithIndices(weights4, indices);
        weights4 := new_weights4;
      }
    }

    /**
     * refineDumb's flatten: the points become one per corner, and so do
     * normals, uv and skin weights unless absent or already per corner;
     * colors are gathered into new_colors, but colors itself keeps its
     * buffer: the source assigns colors to itself where it assigns the
     * other attributes their gathered copies.
     */
    method Flatten()
      requires IndicesBelow(indices, |points|)
      requires Gatherable(|normals|) && Gatherable(|uv|) && Gatherable(|colors|) && Gatherable(|weights4|)
      modifies this`points, this`normals, this`uv, this`weights4,
               this`new_points, this`new_normals, this`new_uv, this`new_colors, this`new_weights4
      ensures new_points == points && Gathered(old(points), indices, points)
      ensures CopiedInto(old(normals), old(new_normals), indices, new_normals)
      ensures normals == (if LeftAsIs(old(normals), indices) then old(normals) else new_normals)
      ensures CopiedInto(old(uv), old(new_uv), indices, new_uv)
      ensures uv == (if LeftAsIs(old(uv), indices) then old(uv) else new_uv)
      ensures CopiedInto(colors, old(new_colors), indices, new_colors)
      ensures CopiedInto(old(weights4), old(new_weights4), indices, new_weights4)
      ensures weights4 == (if LeftAsIs(old(weights4), indices) then old(weights4) else new_weights4)
    {
      GatherPoints();
      GatherNormals();
      GatherUv();
      GatherColors();
      GatherWeights();
    }

    /**
     * The rest of refineDumb, once the points are flattened (when
     * flattened holds) or left as the points p0 they were: with
     * new_indices_triangulated first holding one entry per triangulated
     * index, the faces are split by split_unit vertices when the points
     * exceed split_unit, each split triangulated on its own; otherwise,
     * when triangulate is set, the whole mesh is triangulated as one split,
     * by corner position when flattened and through the indices otherwise,
     * and either way its triangles name the points the original indices
     * name.  Without either, no split is recorded.  As in Flattens, a
     * split_unit of 0 counts as exceeded by any point, so such a mesh is
     * split rather than triangulated as one.
     */
    method TriangulateDumb(flattened: bool, ghost p0: seq<V3>)
      requires NonNegative(counts) && Sum(counts) == |indices| && IndicesBelow(indices, |p0|)
      requires num_indices_tri == TriCount(counts) && 0 <= num_indices_tri
      requires flattened ==> Gathered(p0, indices, points)
      requires !flattened ==> points == p0 && |points| <= split_unit
      requires triangulate || |points| > split_unit ==> Polygons(counts)
      modifies this`splits, this`new_indices_triangulated
      ensures |points| > split_unit ==>
        && flattened && Tiles(splits, counts) && Totals(splits).num_faces == |counts|
        && (forall s :: s in splits ==> s.num_vertices == s.num_indices && s.num_submeshes == 0)
        && (FacesFit(counts, split_unit) ==> forall s :: s in splits ==> s.num_vertices <= split_unit)
        && new_indices_triangulated == TriangulateLocal(splits, counts, swap_faces)
        && LocalRanges(splits, new_indices_triangulated, true)
      ensures |points| <= split_unit && triangulate ==>
        && splits == [Split(|counts|, |points|, |indices|, num_indices_tri, 0)]
        && new_indices_triangulated
           == (if flattened then Triangulate(counts, swap_faces) else TriangulateWithIndices(counts, indices, swap_faces))
        && DrawsSameTriangles(counts, indices, swap_faces, p0, points, new_indices_triangulated)
      ensures |points| <= split_unit && !triangulate ==>
        splits == [] && new_indices_triangulated == Resize(old(new_indices_triangulated), num_indices_tri, 0)
    {
      splits := [];
      new_indices_triangulated := Resize(new_indices_triangulated, num_indices_tri, 0);
      if |points| > split_unit {
        splits, new_indices_triangulated := DumbSplits(counts, split_unit, swap_faces, new_indices_triangulated);
      } else if triangulate {
        new_indices_triangulated := TriangulateWhole(counts, indices, swap_faces, flattened, p0, points);
        splits := [Split(|counts|, |points|, |indices|, |new_indices_triangulated|, 0)];
      }
    }

    /**
     * refineDumb: flattens the mesh when Flattens() holds, then splits or
     * triangulates it as TriangulateDumb says.  It reports success.
     */
    method RefineDumb() returns (ok: bool)
      requires WellFormed() && Counted() && 0 <= num_indices_tri
      requires Flattens() ==> Gatherable(|normals|) && Gatherable(|uv|) && Gatherable(|colors|) && Gatherable(|weights4|)
      requires triangulate || (Flattens() && |indices| > split_unit) ==> Polygons(counts)
      modifies this`points, this`normals, this`uv, this`weights4,
               this`new_points, this`new_normals, this`new_uv, this`new_colors, this`new_weights4,
               this`splits, this`new_indices_triangulated
      ensures ok
      ensures old(Flattens()) ==> new_points == points && Gathered(old(points), indices, points)
      ensures old(Flattens()) ==> CopiedInto(old(normals), old(new_normals), indices, new_normals)
      ensures old(Flattens()) ==> normals == (if LeftAsIs(old(normals), indices) then old(normals) else new_normals)
      ensures old(Flattens()) ==> CopiedInto(old(uv), old(new_uv), indices, new_uv)
      ensures old(Flattens()) ==> uv == (if LeftAsIs(old(uv), indices) then old(uv) else new_uv)
      ensures old(Flattens()) ==> CopiedInto(colors, old(new_colors), indices, new_colors)
      ensures old(Flattens()) ==> CopiedInto(old(weights4), old(new_weights4), indices, new_weights4)
      ensures old(Flattens()) ==> weights4 == (if LeftAsIs(old(weights4), indices) then old(weights4) else new_weights4)
      ensures !old(Flattens()) ==>
        && points == old(points) && normals == old(normals) && uv == old(uv) && weights4 == old(weights4)
        && new_points == old(new_points) && new_normals == old(new_normals) && new_uv == old(new_uv)
        && new_colors == old(new_colors) && new_weights4 == old(new_weights4)
      ensures |points| > split_unit ==>
        && old(Flattens()) && Tiles(splits, counts) && Totals(splits).num_faces == |counts|
        && (forall s :: s in splits ==> s.num_vertices == s.num_indices && s.num_submeshes == 0)
        && (FacesFit(counts, split_unit) ==> forall s :: s in splits ==> s.num_vertices <= split_unit)
        && new_indices_triangulated == TriangulateLocal(splits, counts, swap_faces)
        && LocalRanges(splits, new_indices_triangulated, true)
      ensures |points| <= split_unit && triangulate ==>
        && splits == [Split(|counts|, |points|, |indices|, num_indices_tri, 0)]
        && new_indices_triangulated
           == (if old(Flattens()) then Triangulate(counts, swap_faces) else TriangulateWithIndices(counts, indices, swap_faces))
        && DrawsSameTriangles(counts, indices, swap_faces, old(points), points, new_indices_triangulated)
      ensures |points| <= split_unit && !triangulate ==>
        splits == [] && new_indices_triangulated == Resize(old(new_indices_triangulated), num_indices_tri, 0)
    {
      ghost var p0 := points;
      var flattened := Flattens();
      if flattened {
        Flatten();
      }
      TriangulateDumb(flattened, p0);
      ok := true;
    }

    /** swapNewData's exchange of the points with new_points. */
    method SwapPoints(p: seq<V3>) returns (p': seq<V3>)
      modifies this`new_points
      ensures Exchanges(p, old(new_points), [], p', new_points, [])
    {
      var r;
      p', new_points, r := Exchange(p, new_points, []);
    }

    /** swapNewData's exchange of the normals with new_normals, else the generated normals_tmp. */
    method SwapNormals(n: seq<V3>) returns (n': seq<V3>)
      modifies this`new_normals, this`normals_tmp
      ensures Exchanges(n, old(new_normals), old(normals_tmp), n', new_normals, normals_tmp)
    {
      n', new_normals, normals_tmp := Exchange(n, new_normals, normals_tmp);
    }

    /** swapNewData's exchange of the tangents with new_tangents, else the generated tangents_tmp. */
    method SwapTangents(t: seq<V4>) returns (t': seq<V4>)
      modifies this`new_tangents, this`tangents_tmp
      ensures Exchanges(t, old(new_tangents), old(tangents_tmp), t', new_tangents, tangents_tmp)
    {
      t', new_tangents, tangents_tmp := Exchange(t, new_tangents, tangents_tmp);
    }

    /** swapNewData's exchange of the uv with new_uv. */
    method SwapUv(u: seq<V2>) returns (u': seq<V2>)
      modifies this`new_uv
      ensures Exchanges(u, old(new_uv), [], u', new_uv, [])
    {
      var r;
      u', new_uv, r := Exchange(u, new_uv, []);
    }

    /** swapNewData's exchange of the colors with new_colors. */
    method SwapColors(c: seq<V4>) returns (c': seq<V4>)
      modifies this`new_colors
      ensures Exchanges(c, old(new_colors), [], c', new_colors, [])
    {
      var r;
      c', new_colors, r := Exchange(c, new_colors, []);
    }

    /** swapNewData's exchange of the skin weights with new_weights4. */
    method SwapWeights(w: seq<W>) returns (w': seq<W>)
      modifies this`new_weights4
      ensures Exchanges(w, old(new_weights4), [], w', new_weights4, [])
    {
      var r;
      w', new_weights4, r := Exchange(w, new_weights4, []);
    }

    /** swapNewData's exchange of the indices with new_indices_submeshes, else new_indices_triangulated. */
    method SwapIndices(idx: seq<int>) returns (idx': seq<int>)
      modifies this`new_indices_submeshes, this`new_indices_triangulated
      ensures Exchanges(idx, old(new_indices_submeshes), old(new_indices_triangulated),
                        idx', new_indices_submeshes, new_indices_triangulated)
    {
      idx', new_indices_submeshes, new_indices_triangulated := Exchange(idx, new_indices_submeshes, new_indices_triangulated);
    }

    /**
     * swapNewData: each destination the caller passes is exchanged with the
     * first non-empty of its sources, in order of preference: points with
     * new_points; normals with new_normals, else normals_tmp; tangents with
     * new_tangents, else tangents_tmp; uv, colors and skin weights with
     * new_uv, new_colors and new_weights4; indices with
     * new_indices_submeshes, else new_indices_triangulated.  The caller
     * gets the source, and the source's field is left holding the
     * caller's buffer.
     */
    method SwapNewData(p: seq<V3>, n: seq<V3>, t: seq<V4>, u: seq<V2>, c: seq<V4>, w: seq<W>, idx: seq<int>)
      returns (p': seq<V3>, n': seq<V3>, t': seq<V4>, u': seq<V2>, c': seq<V4>, w': seq<W>, idx': seq<int>)
      modifies this`new_points, this`new_normals, this`normals_tmp, this`new_tangents, this`tangents_tmp,
               this`new_uv, this`new_colors, this`new_weights4, this`new_indices_submeshes, this`new_indices_triangulated
      ensures Exchanges(p, old(new_points), [], p', new_points, [])
      ensures Exchanges(n, old(new_normals), old(normals_tmp), n', new_normals, normals_tmp)
      ensures Exchanges(t, old(new_tangents), old(tangents_tmp), t', new_tangents, tangents_tmp)
      ensures Exchanges(u, old(new_uv), [], u', new_uv, [])
      ensures Exchanges(c, old(new_colors), [], c', new_colors, [])
      ensures Exchanges(w, old(new_weights4), [], w', new_weights4, [])
      ensures Exchanges(idx, old(new_indices_submeshes), old(new_indices_triangulated),
                        idx', new_indices_submeshes, new_indices_triangulated)
    {
      p' := SwapPoints(p);
      n' := SwapNormals(n);
      t' := SwapTangents(t);
      u' := SwapUv(u);
      c' := SwapColors(c);
      w' := SwapWeights(w);
      idx' := SwapIndices(idx);
    }

    /** The dedup variant refineWithOptimization picks from the sizes of the attribute buffers, if any. */
    function Selected(): Option<Layout>
      reads this`points, this`indices, this`normals, this`uv, this`colors, this`tangents_tmp
    {
      SelectLayout(|points|, |indices|, |normals|, |uv|, |colors|, |tangents_tmp|)
    }

    /** refineWithOptimization once the dedup variant is chosen: doRefine with it, or nothing when there is none. */
    method RefineWith(l: Option<Layout>)
      requires WellFormed() && Counted() && (triangulate ==> Polygons(counts))
      requires Connected() || (v2f_counts == [] && v2f_offsets == [] && shared_faces == [] && shared_indices == [])
      requires old2new == [] && Outs() == Outputs([], [], [], [], [], []) && new_indices == [] && splits == []
      requires l.Some? ==> LayoutReadable(l.value)
      modifies this`v2f_counts, this`v2f_offsets, this`shared_faces, this`shared_indices, this`old2new,
               this`new_points, this`new_normals, this`new_tangents, this`new_uv, this`new_colors, this`new_weights4,
               this`new_indices, this`new_indices_triangulated, this`splits
      ensures l.Some? ==> Refined(l.value)
      ensures l.Some? && !triangulate ==> new_indices_triangulated == old(new_indices_triangulated)
      ensures l.None? ==>
        && v2f_counts == old(v2f_counts) && v2f_offsets == old(v2f_offsets)
        && shared_faces == old(shared_faces) && shared_indices == old(shared_indices) && old2new == old(old2new)
        && Outs() == old(Outs()) && new_indices == old(new_indices)
        && new_indices_triangulated == old(new_indices_triangulated) && splits == old(splits)
    {
      if l.Some? {
        DoRefine(l.value);
      }
    }

    /**
     * refineWithOptimization: doRefine with the dedup variant the buffer
     * sizes select, reported in layout; when no branch matches nothing is
     * refined.  It reports success either way.
     */
    method RefineWithOptimization() returns (ok: bool, ghost layout: Option<Layout>)
      requires WellFormed() && Counted() && (triangulate ==> Polygons(counts))
      requires Connected() || (v2f_counts == [] && v2f_offsets == [] && shared_faces == [] && shared_indices == [])
      requires old2new == [] && Outs() == Outputs([], [], [], [], [], []) && new_indices == [] && splits == []
      requires Selected().Some? ==> LayoutReadable(Selected().value)
      modifies this`v2f_counts, this`v2f_offsets, this`shared_faces, this`shared_indices, this`old2new,
               this`new_points, this`new_normals, this`new_tangents, this`new_uv, this`new_colors, this`new_weights4,
               this`new_indices, this`new_indices_triangulated, this`splits
      ensures ok && layout == old(Selected())
      ensures points == old(points) && normals == old(normals) && uv == old(uv) && weights4 == old(weights4)
      ensures layout.Some? ==> Refined(layout.value)
      ensures layout.Some? && !triangulate ==> new_indices_triangulated == old(new_indices_triangulated)
      ensures layout.None? ==>
        && v2f_counts == old(v2f_counts) && v2f_offsets == old(v2f_offsets)
        && shared_faces == old(shared_faces) && shared_indices == old(shared_indices) && old2new == old(old2new)
        && Outs() == old(Outs()) && new_indices == old(new_indices)
        && new_indices_triangulated == old(new_indices_triangulated) && splits == old(splits)
    {
      var l := Selected();
      layout := l;
      RefineWith(l);
      ok := true;
    }

    /**
     * refine: refineWithOptimization when optimize is set, which leaves the
     * mesh as it is and refines it with the selected dedup variant, if any;
     * refineDumb otherwise, whose triangles, when the mesh is triangulated
     * whole, name the points the original indices name.  It reports
     * success.
     */
    method Refine(optimize: bool) returns (ok: bool, ghost layout: Option<Layout>)
      requires WellFormed() && Counted()
      requires optimize ==>
        && (triangulate ==> Polygons(counts))
        && (Connected() || (v2f_counts == [] && v2f_offsets == [] && shared_faces == [] && shared_indices == []))
        && old2new == [] && Outs() == Outputs([], [], [], [], [], []) && new_indices == [] && splits == []
        && (Selected().Some? ==> LayoutReadable(Selected().value))
      requires !optimize ==>
        && 0 <= num_indices_tri
        && (Flattens() ==> Gatherable(|normals|) && Gatherable(|uv|) && Gatherable(|colors|) && Gatherable(|weights4|))
        && (triangulate || (Flattens() && |indices| > split_unit) ==> Polygons(counts))
      modifies this`points, this`normals, this`uv, this`weights4,
               this`v2f_counts, this`v2f_offsets, this`shared_faces, this`shared_indices, this`old2new,
               this`new_points, this`new_normals, this`new_tangents, this`new_uv, this`new_colors, this`new_weights4,
               this`new_indices, this`new_indices_triangulated, this`splits
      ensures ok
      ensures optimize ==> points == old(points) && normals == old(normals) && uv == old(uv) && weights4 == old(weights4)
      ensures optimize ==> layout == old(Selected()) && (layout.Some? ==> Refined(layout.value))
      ensures !optimize ==> layout.None?
      ensures !optimize && |points| <= split_unit && triangulate ==>
        DrawsSameTriangles(counts, indices, swap_faces, old(points), points, new_indices_triangulated)
    {
      if optimize {
        ok, layout := RefineWithOptimization();
      } else {
        ok := RefineDumb();
        layout := None;
      }
    }

    /**
     * genSubmesh: forgets the submeshes, and fails when the material ids
     * are not one per face.  Otherwise new_indices_submeshes takes the size
     * of new_indices_triangulated, each split's triangulated block is
     * regrouped into runs by ascending material, the non-empty runs are
     * recorded in split order, and each split counts its recorded runs.
     */
    method GenSubmesh(materialIDs: seq<int>) returns (ok: bool)
      requires |materialIDs| == |counts| ==> Tiles(splits, counts) && Polygons(counts)
      requires |materialIDs| == |counts| ==> Totals(splits).num_indices_triangulated <= |new_indices_triangulated|
      requires |materialIDs| == |counts| ==> Materials(counts, materialIDs)
      modifies this`submeshes, this`new_indices_submeshes, this`splits
      ensures ok <==> |materialIDs| == |counts|
      ensures !ok ==> submeshes == [] && new_indices_submeshes == old(new_indices_submeshes) && splits == old(splits)
      ensures ok ==>
        var sp, tri, T := old(splits), new_indices_triangulated, Totals(old(splits)).num_indices_triangulated;
        && Materials(counts, materialIDs) && sp[..|sp|] == sp && 0 <= T <= |new_indices_submeshes| == |tri|
        && new_indices_submeshes[..T] == SubmeshIndices(sp, counts, materialIDs, tri, |sp|)
        && new_indices_submeshes[T..] == Resize(old(new_indices_submeshes), |tri|, 0)[T..]
        && submeshes == SubmeshRecords(sp, counts, materialIDs, |sp|)
        && splits == SubmeshSplits(sp, counts, materialIDs)
    {
      submeshes := [];
      if |materialIDs| != |counts| {
        return false;
      }
      new_indices_submeshes := Resize(new_indices_submeshes, |new_indices_triangulated|, 0);
      var out, records, sp := SubmeshAll(splits, counts, materialIDs, new_indices_triangulated, new_indices_submeshes);
      new_indices_submeshes, submeshes, splits := out, records, sp;
      ok := true;
    }
  }
}
