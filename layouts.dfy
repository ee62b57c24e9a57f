/**
 * The attribute-layout dispatch of refineWithOptimization: from the sizes
 * of the attribute buffers it picks which dedup variant runs and, per
 * attribute, whether it is read per point (`vi`) or per corner (`i`).
 */
module Layouts {

  datatype Option<T> = None | Some(value: T)

  /** Where an attribute is read from for a corner `i` of point `vi`. */
  datatype Source = Absent | PerVertex | PerCorner

  /**
   * A dedup variant: which attributes take part and how each is indexed.
   * Normals, tangents, uv and colors present gives findOrAddVertexPNTUC;
   * without colors PNTU; without tangents PNU; normals only PN; uv only PU.
   */
  datatype Layout = Layout(normals: Source, tangents: Source, uv: Source, colors: Source)

  /**
   * The branch refineWithOptimization takes (or None when no branch
   * matches and nothing is refined), following its nested tests in order.
   * A per-corner test comes before the per-point one, so a buffer whose
   * size equals both counts is read per corner.
   */
  function SelectLayout(numPoints: int, numIndices: int, numNormals: int, numUV: int,
                        numColors: int, numTangents: int): Option<Layout>
  {
    if numUV != 0 then
      if numNormals != 0 then
        if numTangents != 0 then
          if numColors != 0 then
            if numNormals == numIndices && numUV == numIndices && numColors == numIndices then
              Some(Layout(PerCorner, PerCorner, PerCorner, PerCorner))
            else if numNormals == numIndices && numUV == numIndices && numColors == numPoints then
              Some(Layout(PerCorner, PerCorner, PerCorner, PerVertex))
            else if numNormals == numIndices && numUV == numPoints && numColors == numIndices then
              Some(Layout(PerCorner, PerCorner, PerVertex, PerCorner))
            else if numNormals == numIndices && numUV == numPoints && numColors == numPoints then
              Some(Layout(PerCorner, PerCorner, PerVertex, PerVertex))
            else if numNormals == numPoints && numUV == numIndices && numColors == numIndices then
              Some(Layout(PerVertex, PerCorner, PerCorner, PerCorner))
            else if numNormals == numPoints && numUV == numIndices && numColors == numPoints then
              Some(Layout(PerVertex, PerCorner, PerCorner, PerVertex))
            else if numNormals == numPoints && numUV == numPoints && numColors == numIndices then
              Some(Layout(PerVertex, PerVertex, PerVertex, PerCorner))
            else if numNormals == numPoints && numUV == numPoints && numColors == numPoints then
              Some(Layout(PerVertex, PerVertex, PerVertex, PerVertex))
            else None
          else
            if numNormals == numIndices && numUV == numIndices then
              Some(Layout(PerCorner, PerCorner, PerCorner, Absent))
            else if numNormals == numIndices && numUV == numPoints then
              Some(Layout(PerCorner, PerCorner, PerVertex, Absent))
            else if numNormals == numPoints && numUV == numIndices then
              Some(Layout(PerVertex, PerCorner, PerCorner, Absent))
            else if numNormals == numPoints && numUV == numPoints then
              Some(Layout(PerVertex, PerVertex, PerVertex, Absent))
            else None
        else
          if numNormals == numIndices && numUV == numIndices then
            Some(Layout(PerCorner, Absent, PerCorner, Absent))
          else if numNormals == numIndices && numUV == numPoints then
            Some(Layout(PerCorner, Absent, PerVertex, Absent))
          else if numNormals == numPoints && numUV == numIndices then
            Some(Layout(PerVertex, Absent, PerCorner, Absent))
          else if numNormals == numPoints && numUV == numPoints then
            Some(Layout(PerVertex, Absent, PerVertex, Absent))
          else None
      else
        if numUV == numIndices then Some(Layout(Absent, Absent, PerCorner, Absent))
        else if numUV == numPoints then Some(Layout(Absent, Absent, PerVertex, Absent))
        else None
    else
      if numNormals == numIndices then Some(Layout(PerCorner, Absent, Absent, Absent))
      else if numNormals == numPoints then Some(Layout(PerVertex, Absent, Absent, Absent))
      else None
  }

  /**
   * How a buffer of `num` entries can be read: not at all when empty, per
   * corner when it has one entry per corner (checked first), per point
   * when it has one per point; None when its size fits neither.
   */
  function Classify(num: int, numPoints: int, numIndices: int): Option<Source>
  {
    if num == 0 then Some(Absent)
    else if num == numIndices then Some(PerCorner)
    else if num == numPoints then Some(PerVertex)
    else None
  }

  /**
   * The rule behind the dispatch, stated attribute by attribute: at least
   * one of normals and uv is present (but see the empty-mesh case below); tangents take part exactly when
   * normals, uv and tangents are all present, and colors exactly when
   * tangents take part and colors are present; every attribute that takes
   * part must have a usable size; tangents are read per point only when
   * normals and uv both are.
   */
  function LayoutRule(numPoints: int, numIndices: int, numNormals: int, numUV: int,
                      numColors: int, numTangents: int): Option<Layout>
  {
    var n := Classify(numNormals, numPoints, numIndices);
    var u := Classify(numUV, numPoints, numIndices);
    var withTangents := numNormals != 0 && numUV != 0 && numTangents != 0;
    var c := if withTangents then Classify(numColors, numPoints, numIndices) else Some(Absent);
    if numNormals == 0 && numUV == 0 then
      // With neither buffer the normals-only test still compares sizes: an
      // empty normal buffer "fits" a mesh without corners or without points.
      if numIndices == 0 then Some(Layout(PerCorner, Absent, Absent, Absent))
      else if numPoints == 0 then Some(Layout(PerVertex, Absent, Absent, Absent))
      else None
    else if n.None? || u.None? || c.None? then None
    else
      var t := if !withTangents then Absent
               else if n.value == PerVertex && u.value == PerVertex then PerVertex
               else PerCorner;
      Some(Layout(n.value, t, u.value, c.value))
  }

  /** The nested dispatch picks exactly the layout the rule describes, and None exactly when the rule does. */
  lemma {:induction false} SelectLayoutFollowsRule(numPoints: int, numIndices: int, numNormals: int, numUV: int,
                                numColors: int, numTangents: int)
    ensures SelectLayout(numPoints, numIndices, numNormals, numUV, numColors, numTangents)
         == LayoutRule(numPoints, numIndices, numNormals, numUV, numColors, numTangents)
  {
    if numNormals == numIndices {
    } else if numNormals == numPoints {
    }
    if numUV == numIndices {
    } else if numUV == numPoints {
    }
    if numColors == numIndices {
    } else if numColors == numPoints {
    }
  }

  /** A buffer of `num` entries can be read at a corner `i` of point `vi` as `src` says. */
  predicate Readable(src: Source, num: int, numPoints: int, numIndices: int)
  {
    match src
    case Absent => true
    case PerVertex => num == numPoints
    case PerCorner => num == numIndices
  }

  /**
   * Every attribute a selected layout reads has the size its indexing needs
   * (tangents excepted: their size is not tested), the layout reads every
   * non-empty normal or uv buffer, and it reads normals or uv.
   */
  lemma {:induction false} SelectedLayoutReadable(numPoints: int, numIndices: int, numNormals: int, numUV: int,
                               numColors: int, numTangents: int)
    requires SelectLayout(numPoints, numIndices, numNormals, numUV, numColors, numTangents).Some?
    ensures var l := SelectLayout(numPoints, numIndices, numNormals, numUV, numColors, numTangents).value;
      && Readable(l.normals, numNormals, numPoints, numIndices)
      && Readable(l.uv, numUV, numPoints, numIndices)
      && Readable(l.colors, numColors, numPoints, numIndices)
      && (numNormals != 0 ==> l.normals != Absent)
      && (l.normals == Absent ==> numNormals == 0 && numUV != 0)
      && (l.uv == Absent <==> numUV == 0)
      && (l.tangents != Absent <==> l.normals != Absent && l.uv != Absent && numTangents != 0)
      && (l.colors != Absent ==> l.tangents != Absent)
  {
  }
}
