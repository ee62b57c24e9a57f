/**
 * The point-to-corner reverse index that buildConnection fills, in CSR
 * (compressed sparse row) form: per point a count and an offset, and per
 * slot the corner and the face that corner belongs to.  This module states
 * what a correct index is and proves the step facts the building loops use.
 */
module Connection {
  import opened Kernels

  /** Corner positions of `s` holding `v`, in increasing order (see OccurrencesSorted). */
  function Occurrences(s: seq<int>, v: int): (r: seq<int>)
    ensures forall j :: 0 <= j < |r| ==> 0 <= r[j] < |s| && s[r[j]] == v
    decreases |s|
  {
    if s == [] then []
    else
      var pre := Occurrences(s[..|s| - 1], v);
      if s[|s| - 1] == v then pre + [|s| - 1] else pre
  }

  /** The positions of one point's corners are listed in increasing order. */
  lemma {:induction false} OccurrencesSorted(s: seq<int>, v: int)
    ensures forall j1, j2 :: 0 <= j1 < j2 < |Occurrences(s, v)| ==> Occurrences(s, v)[j1] < Occurrences(s, v)[j2]
    decreases |s|
  {
    if s != [] {
      OccurrencesSorted(s[..|s| - 1], v);
    }
  }

  /** Occurrences of a prefix one element longer. */
  lemma {:induction false} OccurrencesStep(s: seq<int>, i: int, v: int)
    requires 0 <= i < |s|
    ensures Occurrences(s[..i + 1], v) == Occurrences(s[..i], v) + (if s[i] == v then [i] else [])
  {
    assert s[..i + 1][..i] == s[..i];
  }

  /** The occurrences in a prefix are a prefix of the occurrences. */
  lemma {:induction false} OccurrencesPrefix(s: seq<int>, i: int, v: int)
    requires 0 <= i <= |s|
    ensures |Occurrences(s[..i], v)| <= |Occurrences(s, v)|
    ensures Occurrences(s[..i], v) == Occurrences(s, v)[..|Occurrences(s[..i], v)|]
    decreases |s| - i
  {
    if i == |s| {
      assert s[..i] == s;
    } else {
      OccurrencesPrefix(s, i + 1, v);
      OccurrencesStep(s, i, v);
    }
  }

  /**
   * Corner `k` is listed among the occurrences of its point, at the rank
   * given by the number of earlier corners of the same point.
   */
  lemma {:induction false} OccurrenceRank(s: seq<int>, k: int)
    requires 0 <= k < |s|
    ensures |Occurrences(s[..k], s[k])| < |Occurrences(s, s[k])|
    ensures Occurrences(s, s[k])[|Occurrences(s[..k], s[k])|] == k
  {
    OccurrencesStep(s, k, s[k]);
    OccurrencesPrefix(s, k + 1, s[k]);
  }

  /**
   * Per-point corner counts of `s` over points 0 .. n-1, built one corner
   * at a time as buildConnection's first loop does.
   */
  function Histogram(s: seq<int>, n: nat): (r: seq<int>)
    requires IndicesBelow(s, n)
    ensures |r| == n
    decreases |s|
  {
    if s == [] then seq(n, _ => 0)
    else
      var h := Histogram(s[..|s| - 1], n);
      var x := s[|s| - 1];
      h[x := h[x] + 1]
  }

  /** The histogram counts occurrences. */
  lemma {:induction false} HistogramCounts(s: seq<int>, n: nat)
    requires IndicesBelow(s, n)
    ensures forall v :: 0 <= v < n ==> Histogram(s, n)[v] == |Occurrences(s, v)|
    decreases |s|
  {
    if s != [] {
      HistogramCounts(s[..|s| - 1], n);
    }
  }

  /** Raising one entry by one raises the sum by one. */
  lemma {:induction false} SumIncrement(xs: seq<int>, x: int)
    requires 0 <= x < |xs|
    ensures Sum(xs[x := xs[x] + 1]) == Sum(xs) + 1
    decreases |xs|
  {
    var ys := xs[x := xs[x] + 1];
    if x == |xs| - 1 {
      assert ys[..|ys| - 1] == xs[..|xs| - 1];
    } else {
      SumIncrement(xs[..|xs| - 1], x);
      assert ys[..|ys| - 1] == xs[..|xs| - 1][x := xs[x] + 1];
    }
  }

  /** Every corner is counted once: the histogram adds up to the number of corners. */
  lemma {:induction false} HistogramTotal(s: seq<int>, n: nat)
    requires IndicesBelow(s, n)
    ensures Sum(Histogram(s, n)) == |s|
    ensures NonNegative(Histogram(s, n))
    decreases |s|
  {
    if s == [] {
      ZerosSum(n);
    } else {
      HistogramTotal(s[..|s| - 1], n);
      SumIncrement(Histogram(s[..|s| - 1], n), s[|s| - 1]);
    }
  }

  lemma {:induction false} ZerosSum(n: nat)
    ensures Sum(seq(n, _ => 0)) == 0
  {
    if n > 0 {
      ZerosSum(n - 1);
      assert seq(n, _ => 0)[..n - 1] == seq(n - 1, _ => 0);
    }
  }

  /** The histogram of a prefix one element longer. */
  lemma {:induction false} HistogramStep(s: seq<int>, i: int, n: nat)
    requires IndicesBelow(s, n) && 0 <= i < |s|
    ensures Histogram(s[..i + 1], n) == Histogram(s[..i], n)[s[i] := Histogram(s[..i], n)[s[i]] + 1]
  {
    assert s[..i + 1][..i] == s[..i];
  }

  /** Corner `k` lies in face `f`: between the face's first corner and the next face's. */
  predicate CornerInFace(counts: seq<int>, k: int, f: int)
  {
    0 <= f < |counts| && Sum(counts[..f]) <= k < Sum(counts[..f]) + counts[f]
  }

  /**
   * The counts and offsets half of the index: counts are the histogram,
   * offsets its exclusive prefix sums.
   */
  ghost predicate CsrLayout(indices: seq<int>, n: nat, vc: seq<int>, vo: seq<int>)
  {
    && IndicesBelow(indices, n)
    && vc == Histogram(indices, n)
    && |vo| == n
    && forall v :: 0 <= v < n ==> vo[v] == Sum(vc[..v])
  }

  /** Position of the `j`-th slot of a point whose range starts at `offset`. */
  function Slot(offset: int, j: int): int
  {
    offset + j
  }

  /**
   * The first `i` corners are placed: each point's slots hold its
   * occurrences among them in increasing order, with their faces.
   */
  ghost predicate Placed(counts: seq<int>, indices: seq<int>, n: nat, vo: seq<int>,
                         i: int, bump: seq<int>, sf: seq<int>, si: seq<int>)
  {
    && 0 <= i <= |indices| && |bump| == n && |vo| == n && |sf| == |indices| && |si| == |indices|
    && (forall v :: 0 <= v < n ==> bump[v] == |Occurrences(indices[..i], v)| <= |Occurrences(indices, v)|)
    && forall v, j :: 0 <= v < n && 0 <= j < bump[v] ==>
         && 0 <= Slot(vo[v], j) < |indices|
         && si[Slot(vo[v], j)] == Occurrences(indices, v)[j]
         && CornerInFace(counts, si[Slot(vo[v], j)], sf[Slot(vo[v], j)])
  }

  /** A complete CSR index of `indices` over `n` points. */
  ghost predicate IsCsr(counts: seq<int>, indices: seq<int>, n: nat,
                        vc: seq<int>, vo: seq<int>, sf: seq<int>, si: seq<int>)
  {
    CsrLayout(indices, n, vc, vo) && Placed(counts, indices, n, vo, |indices|, vc, sf, si)
  }

  /** A slot of point `v`'s range lies inside the index. */
  lemma {:induction false} SlotInRange(indices: seq<int>, n: nat, vc: seq<int>, vo: seq<int>, v: int, j: int)
    requires CsrLayout(indices, n, vc, vo) && 0 <= v < n && 0 <= j < vc[v]
    ensures 0 <= vo[v] + j < |indices|
  {
    HistogramTotal(indices, n);
    SumStep(vc, v);
    SumPrefixMonotone(vc, v + 1, n);
    SumPrefixMonotone(vc, 0, v);
    assert vc[..n] == vc;
  }

  /** Slots of different points never coincide. */
  lemma {:induction false} SlotsDisjoint(indices: seq<int>, n: nat, vc: seq<int>, vo: seq<int>, v: int, j: int, w: int, l: int)
    requires CsrLayout(indices, n, vc, vo)
    requires 0 <= v < n && 0 <= j < vc[v] && 0 <= w < n && 0 <= l < vc[w]
    requires vo[v] + j == vo[w] + l
    ensures v == w && j == l
  {
    HistogramTotal(indices, n);
    PrefixSumOwnerUnique(vc, vo[v] + j, v, w);
  }

  /** Counting corner `i` in: the bump counters track occurrences in the longer prefix. */
  lemma {:induction false} BumpStep(indices: seq<int>, n: nat, i: int, bump: seq<int>)
    requires 0 <= i < |indices| && 0 <= indices[i] < n && |bump| == n
    requires forall v :: 0 <= v < n ==> bump[v] == |Occurrences(indices[..i], v)|
    ensures forall v :: 0 <= v < n ==>
      (if v == indices[i] then bump[v] + 1 else bump[v]) == |Occurrences(indices[..i + 1], v)| <= |Occurrences(indices, v)|
  {
    forall v | 0 <= v < n
      ensures (if v == indices[i] then bump[v] + 1 else bump[v]) == |Occurrences(indices[..i + 1], v)| <= |Occurrences(indices, v)|
    {
      OccurrencesStep(indices, i, v);
      OccurrencesPrefix(indices, i + 1, v);
    }
  }

  /** Corner i of face f, placed at the next free slot of its point, extends the placement. */
  lemma {:induction false} PlaceStep(counts: seq<int>, indices: seq<int>, n: nat, vc: seq<int>, vo: seq<int>,
                  i: int, bump: seq<int>, sf: seq<int>, si: seq<int>, f: int)
    requires CsrLayout(indices, n, vc, vo)
    requires Placed(counts, indices, n, vo, i, bump, sf, si)
    requires i < |indices| && CornerInFace(counts, i, f)
    ensures 0 <= bump[indices[i]] < vc[indices[i]]
    ensures 0 <= vo[indices[i]] + bump[indices[i]] < |indices|
    ensures Placed(counts, indices, n, vo, i + 1, bump[indices[i] := bump[indices[i]] + 1],
                   sf[vo[indices[i]] + bump[indices[i]] := f], si[vo[indices[i]] + bump[indices[i]] := i])
  {
    var x := indices[i];
    var b := bump[x];
    var t := vo[x] + b;
    HistogramCounts(indices, n);
    OccurrenceRank(indices, i);
    assert b < vc[x];
    SlotInRange(indices, n, vc, vo, x, b);
    BumpStep(indices, n, i, bump);
    var bump' := bump[x := b + 1];
    var sf' := sf[t := f];
    var si' := si[t := i];
    forall v, j | 0 <= v < n && 0 <= j < bump'[v]
      ensures 0 <= Slot(vo[v], j) < |indices|
      ensures si'[Slot(vo[v], j)] == Occurrences(indices, v)[j]
      ensures CornerInFace(counts, si'[Slot(vo[v], j)], sf'[Slot(vo[v], j)])
    {
      if v == x && j == b {
        assert Slot(vo[v], j) == t;
      } else {
        assert j < bump[v];
        assert 0 <= Slot(vo[v], j) < |indices|;
        if Slot(vo[v], j) == t {
          SlotsDisjoint(indices, n, vc, vo, v, j, x, b);
        }
      }
    }
  }

  /** Every corner sits in exactly one slot, and that slot is its point's. */
  lemma {:induction false} CsrExactlyOnce(counts: seq<int>, indices: seq<int>, n: nat,
                       vc: seq<int>, vo: seq<int>, sf: seq<int>, si: seq<int>, k: int)
    requires IsCsr(counts, indices, n, vc, vo, sf, si) && 0 <= k < |indices|
    ensures exists t :: 0 <= t < |indices| && si[t] == k
    ensures forall t1, t2 :: 0 <= t1 < |indices| && 0 <= t2 < |indices| && si[t1] == k && si[t2] == k ==> t1 == t2
  {
    var x := indices[k];
    var j := |Occurrences(indices[..k], x)|;
    OccurrenceRank(indices, k);
    HistogramCounts(indices, n);
    assert si[Slot(vo[x], j)] == k;
    forall t1, t2 | 0 <= t1 < |indices| && 0 <= t2 < |indices| && si[t1] == k && si[t2] == k
      ensures t1 == t2
    {
      var v1, j1 := SlotOf(indices, n, vc, vo, t1);
      var v2, j2 := SlotOf(indices, n, vc, vo, t2);
      assert Occurrences(indices, v1)[j1] == k == Occurrences(indices, v2)[j2];
      OccurrencesInjective(indices, v1, j1, v2, j2);
    }
  }

  /** Every position of the index is a slot of some point. */
  lemma {:induction false} SlotOf(indices: seq<int>, n: nat, vc: seq<int>, vo: seq<int>, t: int) returns (v: int, j: int)
    requires CsrLayout(indices, n, vc, vo) && 0 <= t < |indices|
    ensures 0 <= v < n && 0 <= j < vc[v] && Slot(vo[v], j) == t
  {
    HistogramTotal(indices, n);
    v := PrefixSumOwner(vc, t);
    j := t - vo[v];
  }

  /** A corner is an occurrence of one point only, at one rank only. */
  lemma {:induction false} OccurrencesInjective(s: seq<int>, v1: int, j1: int, v2: int, j2: int)
    requires 0 <= j1 < |Occurrences(s, v1)| && 0 <= j2 < |Occurrences(s, v2)|
    requires Occurrences(s, v1)[j1] == Occurrences(s, v2)[j2]
    ensures v1 == v2 && j1 == j2
  {
    OccurrencesSorted(s, v1);
  }

  /**
   * Read slot by slot: slot `t` holds a corner of the point whose range
   * contains `t`, and the face that owns that corner.
   */
  lemma {:induction false} CsrFaces(counts: seq<int>, indices: seq<int>, n: nat,
                 vc: seq<int>, vo: seq<int>, sf: seq<int>, si: seq<int>, t: int)
    requires IsCsr(counts, indices, n, vc, vo, sf, si) && 0 <= t < |indices|
    ensures 0 <= si[t] < |indices| && 0 <= indices[si[t]] < n
    ensures vo[indices[si[t]]] <= t < vo[indices[si[t]]] + vc[indices[si[t]]]
    ensures CornerInFace(counts, si[t], sf[t])
  {
    var v, j := SlotOf(indices, n, vc, vo, t);
    HistogramCounts(indices, n);
    assert si[Slot(vo[v], j)] == Occurrences(indices, v)[j];
  }
}
