/**
 * Output vertices as values. A corner contributes a Vertex (its point and
 * the attributes the running dedup variant reads); the refiner's output
 * vertex buffers, taken together, are an Outputs value that the dedup step
 * either leaves alone (a match was found) or grows by one vertex. The
 * facts the face loop of doRefine keeps across corners are stated and
 * proved here on those values.
 */
module Vertices {
  import opened Layouts

  /**
   * The attributes a corner contributes to an output vertex. An attribute
   * the running dedup variant does not handle is None: findOrAddVertexPN
   * builds vertices with a point and a normal only, findOrAddVertexPNTUC
   * with all five.
   */
  datatype Vertex<V2, V3, V4> = Vertex(p: V3, n: Option<V3>, t: Option<V4>, u: Option<V2>, c: Option<V4>)

  /** The near-equalities the dedup search compares points, normals, uv and colors with. */
  datatype NearEq<!V2, !V3, !V4> = NearEq(eq2: (V2, V2) -> bool, eq3: (V3, V3) -> bool, eq4: (V4, V4) -> bool)

  /** The output vertex buffers: one entry per output vertex in each buffer that is filled. */
  datatype Outputs<V2, V3, V4, W> = Outputs(points: seq<V3>, normals: seq<V3>, tangents: seq<V4>,
                                            uv: seq<V2>, colors: seq<V4>, weights4: seq<W>)

  /** A present attribute as the one element a buffer grows by; nothing for an absent one. */
  function Pushed<T>(a: Option<T>): (r: seq<T>)
    ensures |r| == (if a.Some? then 1 else 0)
    ensures a.Some? ==> r[0] == a.value
  {
    if a.Some? then [a.value] else []
  }

  /** An attribute read as `src` says for corner i of point vi. */
  function Pick<T>(buf: seq<T>, src: Source, vi: int, i: int): (r: Option<T>)
    requires src == PerVertex ==> 0 <= vi < |buf|
    requires src == PerCorner ==> 0 <= i < |buf|
    ensures r.Some? <==> src != Absent
    ensures src == PerVertex ==> r == Some(buf[vi])
    ensures src == PerCorner ==> r == Some(buf[i])
  {
    match src
    case Absent => None
    case PerVertex => Some(buf[vi])
    case PerCorner => Some(buf[i])
  }

  /** The buffers a corner's vertex is read from: the points and the attributes that come with them. */
  datatype Attributes<V2, V3, V4> = Attributes(points: seq<V3>, normals: seq<V3>, tangents: seq<V4>, uv: seq<V2>, colors: seq<V4>)

  /**
   * Layout l reads every attribute of a within its buffer, in a mesh of
   * ncorners corners: per point from a buffer with one entry per point,
   * per corner from one with one entry per corner.
   */
  predicate ReadableBy<V2, V3, V4>(a: Attributes<V2, V3, V4>, l: Layout, ncorners: int)
  {
    && Readable(l.normals, |a.normals|, |a.points|, ncorners)
    && Readable(l.tangents, |a.tangents|, |a.points|, ncorners)
    && Readable(l.uv, |a.uv|, |a.points|, ncorners)
    && Readable(l.colors, |a.colors|, |a.points|, ncorners)
  }

  /** The vertex corner i of point vi contributes under layout l. */
  function VertexOf<V2, V3, V4>(a: Attributes<V2, V3, V4>, l: Layout, ncorners: int, vi: int, i: int): (r: Vertex<V2, V3, V4>)
    requires ReadableBy(a, l, ncorners) && 0 <= vi < |a.points| && 0 <= i < ncorners
    ensures r.p == a.points[vi] && Fits(l, r)
  {
    Vertex(a.points[vi], Pick(a.normals, l.normals, vi, i), Pick(a.tangents, l.tangents, vi, i),
           Pick(a.uv, l.uv, vi, i), Pick(a.colors, l.colors, vi, i))
  }

  /** The vertices of the first n corners, whose points are idx, under layout l, in corner order. */
  ghost function CornerVertices<V2, V3, V4>(a: Attributes<V2, V3, V4>, l: Layout, idx: seq<int>, n: int): (r: seq<Vertex<V2, V3, V4>>)
    requires ReadableBy(a, l, |idx|) && (forall k :: 0 <= k < |idx| ==> 0 <= idx[k] < |a.points|) && 0 <= n <= |idx|
    ensures |r| == n && forall k :: 0 <= k < n ==> r[k] == VertexOf(a, l, |idx|, idx[k], k)
    decreases n
  {
    if n == 0 then [] else CornerVertices(a, l, idx, n - 1) + [VertexOf(a, l, |idx|, idx[n - 1], n - 1)]
  }

  /** Vertex v has exactly the attributes layout l reads. */
  predicate Fits<V2, V3, V4>(l: Layout, v: Vertex<V2, V3, V4>)
  {
    && (v.n.Some? <==> l.normals != Absent)
    && (v.t.Some? <==> l.tangents != Absent)
    && (v.u.Some? <==> l.uv != Absent)
    && (v.c.Some? <==> l.colors != Absent)
  }

  /** The push_back of a new vertex v, with skin weights w when the mesh has them. */
  function Push<V2, V3, V4, W>(o: Outputs<V2, V3, V4, W>, v: Vertex<V2, V3, V4>, w: Option<W>): Outputs<V2, V3, V4, W>
  {
    Outputs(o.points + [v.p], o.normals + Pushed(v.n), o.tangents + Pushed(v.t),
            o.uv + Pushed(v.u), o.colors + Pushed(v.c), o.weights4 + Pushed(w))
  }

  /**
   * The buffers of the attributes l does not read stay empty, and those it
   * reads (skin weights when the mesh has them) have one entry per output
   * vertex.
   */
  predicate Shaped<V2, V3, V4, W>(o: Outputs<V2, V3, V4, W>, l: Layout, weighted: bool)
  {
    && (if l.normals == Absent then o.normals == [] else |o.normals| == |o.points|)
    && (if l.tangents == Absent then o.tangents == [] else |o.tangents| == |o.points|)
    && (if l.uv == Absent then o.uv == [] else |o.uv| == |o.points|)
    && (if l.colors == Absent then o.colors == [] else |o.colors| == |o.points|)
    && (if weighted then |o.weights4| == |o.points| else o.weights4 == [])
  }

  /** Every buffer a vertex is compared in has one entry per output vertex. */
  predicate Aligned<V2, V3, V4, W>(o: Outputs<V2, V3, V4, W>, v: Vertex<V2, V3, V4>)
  {
    && (v.n.Some? ==> |o.normals| == |o.points|)
    && (v.u.Some? ==> |o.uv| == |o.points|)
    && (v.c.Some? ==> |o.colors| == |o.points|)
  }

  /**
   * Output vertex ni is near-equal to v in the point and in every other
   * attribute v has, tangents excepted: they follow from the point, normal
   * and uv and are not compared.
   */
  predicate Matches<V2, V3, V4, W>(eq: NearEq<V2, V3, V4>, o: Outputs<V2, V3, V4, W>, ni: int, v: Vertex<V2, V3, V4>)
    requires 0 <= ni < |o.points| && Aligned(o, v)
  {
    && eq.eq3(o.points[ni], v.p)
    && (v.n.Some? ==> eq.eq3(o.normals[ni], v.n.value))
    && (v.u.Some? ==> eq.eq2(o.uv[ni], v.u.value))
    && (v.c.Some? ==> eq.eq4(o.colors[ni], v.c.value))
  }

  /** Output vertex ni was made from v: it holds v's point and every attribute v has. */
  ghost predicate Holds<V2, V3, V4, W>(o: Outputs<V2, V3, V4, W>, ni: int, v: Vertex<V2, V3, V4>)
  {
    && 0 <= ni < |o.points| && o.points[ni] == v.p
    && (v.n.Some? ==> ni < |o.normals| && o.normals[ni] == v.n.value)
    && (v.t.Some? ==> ni < |o.tangents| && o.tangents[ni] == v.t.value)
    && (v.u.Some? ==> ni < |o.uv| && o.uv[ni] == v.u.value)
    && (v.c.Some? ==> ni < |o.colors| && o.colors[ni] == v.c.value)
  }

  /** Output vertex ni stands for v: it was made from v, or v was found to match it. */
  ghost predicate Carries<V2, V3, V4, W>(eq: NearEq<V2, V3, V4>, o: Outputs<V2, V3, V4, W>, ni: int, v: Vertex<V2, V3, V4>)
  {
    0 <= ni < |o.points| && Aligned(o, v) && (Holds(o, ni, v) || Matches(eq, o, ni, v))
  }

  /** o' keeps every vertex of o and has at most one more. */
  ghost predicate Grown<V2, V3, V4, W>(o: Outputs<V2, V3, V4, W>, o': Outputs<V2, V3, V4, W>)
  {
    && o.points <= o'.points && |o'.points| <= |o.points| + 1
    && o.normals <= o'.normals && o.tangents <= o'.tangents
    && o.uv <= o'.uv && o.colors <= o'.colors && o.weights4 <= o'.weights4
  }

  /**
   * The first |g| corners, whose vertices are vs, were given the output
   * vertices g, and each stands for its corner's vertex.
   */
  ghost predicate Agrees<V2, V3, V4, W>(eq: NearEq<V2, V3, V4>, o: Outputs<V2, V3, V4, W>, g: seq<int>, vs: seq<Vertex<V2, V3, V4>>)
  {
    |g| <= |vs| && forall k :: 0 <= k < |g| ==> Carries(eq, o, g[k], vs[k])
  }

  /**
   * One dedup step for a corner with vertex v, seen from the output
   * buffers: either the step found output vertex ni matching v and left
   * the buffers as they were, or it pushed v (and skin weights w) as the
   * new vertex ni.
   */
  ghost predicate Dedupped<V2, V3, V4, W>(eq: NearEq<V2, V3, V4>, o: Outputs<V2, V3, V4, W>, o': Outputs<V2, V3, V4, W>,
                                        ni: int, v: Vertex<V2, V3, V4>, w: Option<W>)
  {
    || (0 <= ni < |o.points| && Aligned(o, v) && o' == o && Matches(eq, o, ni, v))
    || (ni == |o.points| && o' == Push(o, v, w))
  }

  /**
   * Pushing a vertex with the attributes l reads (and skin weights exactly
   * when the mesh has them) keeps the buffers shaped for l, keeps every
   * vertex, and the new vertex is made from v.
   */
  lemma {:induction false} PushShaped<V2, V3, V4, W>(o: Outputs<V2, V3, V4, W>, l: Layout, weighted: bool, v: Vertex<V2, V3, V4>, w: Option<W>)
    requires Shaped(o, l, weighted) && Fits(l, v) && (w.Some? <==> weighted)
    ensures Shaped(Push(o, v, w), l, weighted) && Grown(o, Push(o, v, w))
    ensures Aligned(Push(o, v, w), v) && Holds(Push(o, v, w), |o.points|, v)
  {
  }

  /** Buffers shaped for l are aligned for every vertex with the attributes l reads. */
  lemma {:induction false} ShapedAligned<V2, V3, V4, W>(o: Outputs<V2, V3, V4, W>, l: Layout, weighted: bool, v: Vertex<V2, V3, V4>)
    requires Shaped(o, l, weighted) && Fits(l, v)
    ensures Aligned(o, v)
  {
  }

  /** A vertex that stood for v still does after the buffers grew. */
  lemma {:induction false} CarriesKept<V2, V3, V4, W>(eq: NearEq<V2, V3, V4>, o: Outputs<V2, V3, V4, W>, o': Outputs<V2, V3, V4, W>,
                                   ni: int, v: Vertex<V2, V3, V4>)
    requires Carries(eq, o, ni, v) && Grown(o, o')
    requires Aligned(o', v)
    ensures Carries(eq, o', ni, v)
  {
    assert o'.points[ni] == o.points[ni];
    if v.n.Some? {
      assert o'.normals[ni] == o.normals[ni];
    }
    if v.t.Some? && ni < |o.tangents| {
      assert o'.tangents[ni] == o.tangents[ni];
    }
    if v.u.Some? {
      assert o'.uv[ni] == o.uv[ni];
    }
    if v.c.Some? {
      assert o'.colors[ni] == o.colors[ni];
    }
  }

  /**
   * The corner after the agreeing prefix, given a vertex that stands for
   * it, extends the prefix, also when the buffers grew meanwhile.
   */
  lemma {:induction false} AgreesExtend<V2, V3, V4, W>(eq: NearEq<V2, V3, V4>, o: Outputs<V2, V3, V4, W>, o': Outputs<V2, V3, V4, W>,
                                    l: Layout, weighted: bool, g: seq<int>, vs: seq<Vertex<V2, V3, V4>>, ni: int)
    requires Agrees(eq, o, g, vs) && Grown(o, o') && |g| < |vs|
    requires Shaped(o', l, weighted) && forall k :: 0 <= k < |vs| ==> Fits(l, vs[k])
    requires Carries(eq, o', ni, vs[|g|])
    ensures Agrees(eq, o', g + [ni], vs)
  {
    var g' := g + [ni];
    forall k | 0 <= k < |g'|
      ensures Carries(eq, o', g'[k], vs[k])
    {
      if k < |g| {
        ShapedAligned(o', l, weighted, vs[k]);
        CarriesKept(eq, o, o', g[k], vs[k]);
      }
    }
  }

  /**
   * A dedup step for the corner after the agreeing prefix keeps the
   * buffers shaped for l, keeps every vertex, and extends the prefix:
   * the vertex it gives the corner stands for the corner's vertex.
   */
  lemma {:induction false} DedupKeeps<V2, V3, V4, W>(eq: NearEq<V2, V3, V4>, o: Outputs<V2, V3, V4, W>, o': Outputs<V2, V3, V4, W>,
                                  l: Layout, weighted: bool, g: seq<int>, vs: seq<Vertex<V2, V3, V4>>, ni: int, w: Option<W>)
    requires Agrees(eq, o, g, vs) && |g| < |vs| && Shaped(o, l, weighted)
    requires forall k :: 0 <= k < |vs| ==> Fits(l, vs[k])
    requires (w.Some? <==> weighted) && Dedupped(eq, o, o', ni, vs[|g|], w)
    ensures Shaped(o', l, weighted) && Grown(o, o') && Agrees(eq, o', g + [ni], vs)
    ensures 0 <= ni < |o'.points| && |o'.points| == |o.points| + (if ni == |o.points| then 1 else 0)
  {
    if ni == |o.points| {
      PushShaped(o, l, weighted, vs[|g|], w);
    }
    AgreesExtend(eq, o, o', l, weighted, g, vs, ni);
  }
}
