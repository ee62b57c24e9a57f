/**
 * The old2new vertex cache of doRefine read through the point-to-corner
 * index. The dedup search gives a new vertex the first slot of its point
 * whose cache entry is unassigned, so the assigned slots of every point
 * form a prefix of its slot range, and no point has more assigned slots
 * than corners of it have been visited since the cache was cleared. At
 * every corner its point therefore still has an unassigned slot, and the
 * search never runs off the end of the range.
 */
module Cache {
  import opened Kernels
  import opened Connection

  /** How many of the first k entries of s are v. */
  ghost function Count(s: seq<int>, v: int, k: int): (r: int)
    requires 0 <= k <= |s|
    ensures 0 <= r <= k
    decreases k
  {
    if k == 0 then 0 else Count(s, v, k - 1) + (if s[k - 1] == v then 1 else 0)
  }

  /** Count agrees with the occurrence list of the prefix. */
  lemma {:induction false} CountOccurrences(s: seq<int>, v: int, k: int)
    requires 0 <= k <= |s|
    ensures Count(s, v, k) == |Occurrences(s[..k], v)|
  {
    if k > 0 {
      CountOccurrences(s, v, k - 1);
      OccurrencesStep(s, k - 1, v);
    }
  }

  /** Counting over a longer prefix counts no fewer. */
  lemma {:induction false} CountMonotone(s: seq<int>, v: int, a: int, b: int)
    requires 0 <= a <= b <= |s|
    ensures Count(s, v, a) <= Count(s, v, b)
    decreases b - a
  {
    if a < b {
      CountMonotone(s, v, a, b - 1);
    }
  }

  /**
   * The j-th corner of point v is a corner of v with exactly j corners of
   * v before it.
   */
  lemma {:induction false} SlotRank(s: seq<int>, v: int, j: int)
    requires 0 <= j < |Occurrences(s, v)|
    ensures 0 <= Occurrences(s, v)[j] < |s| && s[Occurrences(s, v)[j]] == v
    ensures Count(s, v, Occurrences(s, v)[j]) == j
  {
    var c := Occurrences(s, v)[j];
    OccurrenceRank(s, c);
    CountOccurrences(s, v, c);
    OccurrencesInjective(s, v, |Occurrences(s[..c], v)|, v, j);
  }

  /**
   * The first filled[v] slots of each point v have an assigned (not -1)
   * cache entry and its other slots an unassigned one.
   */
  ghost predicate Filled(cache: seq<int>, n: nat, vc: seq<int>, vo: seq<int>, si: seq<int>, filled: seq<int>)
  {
    && |filled| == n && |vc| == n && |vo| == n
    && forall v, j :: 0 <= v < n && 0 <= j < vc[v] ==>
         && 0 <= Slot(vo[v], j) < |si|
         && 0 <= si[Slot(vo[v], j)] < |cache|
         && (cache[si[Slot(vo[v], j)]] != -1 <==> j < filled[v])
  }

  /** No point has more assigned slots than it has corners among the first k. */
  ghost predicate FilledBelow(filled: seq<int>, indices: seq<int>, n: nat, k: int)
  {
    && 0 <= k <= |indices| && |filled| == n
    && forall v :: 0 <= v < n ==> 0 <= filled[v] <= Count(indices, v, k)
  }

  /**
   * The part of the point-to-corner index the cache reads: point v has one
   * slot per corner of it, and its slot j names the corner of v that has
   * j corners of v before it.
   */
  ghost predicate SlotIndex(indices: seq<int>, n: nat, vc: seq<int>, vo: seq<int>, si: seq<int>)
  {
    && IndicesBelow(indices, n) && |vc| == n && |vo| == n
    && (forall v :: 0 <= v < n ==> vc[v] == Count(indices, v, |indices|))
    && forall v, j :: 0 <= v < n && 0 <= j < vc[v] ==>
         && 0 <= Slot(vo[v], j) < |si|
         && 0 <= si[Slot(vo[v], j)] < |indices|
         && indices[si[Slot(vo[v], j)]] == v
         && Count(indices, v, si[Slot(vo[v], j)]) == j
  }

  /** A complete index gives the cache what it reads. */
  lemma {:induction false} CsrSlotIndex(counts: seq<int>, indices: seq<int>, n: nat, vc: seq<int>, vo: seq<int>,
                     sf: seq<int>, si: seq<int>)
    requires IsCsr(counts, indices, n, vc, vo, sf, si)
    ensures SlotIndex(indices, n, vc, vo, si)
  {
    assert indices[..|indices|] == indices;
    HistogramCounts(indices, n);
    forall v | 0 <= v < n
      ensures vc[v] == Count(indices, v, |indices|)
    {
      CountOccurrences(indices, v, |indices|);
    }
    forall v, j | 0 <= v < n && 0 <= j < vc[v]
      ensures 0 <= si[Slot(vo[v], j)] < |indices| && indices[si[Slot(vo[v], j)]] == v
      ensures Count(indices, v, si[Slot(vo[v], j)]) == j
    {
      SlotRank(indices, v, j);
    }
  }

  /** A vertex cache of n entries, none of them assigned yet. */
  method Unassigned(n: nat) returns (c: seq<int>)
    ensures |c| == n && forall j :: 0 <= j < n ==> c[j] == -1
  {
    c := seq(n, _ => -1);
  }

  /** A cleared cache (every entry -1) has no assigned slot. */
  lemma {:induction false} FilledReset(indices: seq<int>, n: nat, vc: seq<int>, vo: seq<int>, si: seq<int>, cache: seq<int>,
                    filled: seq<int>, k: int)
    requires SlotIndex(indices, n, vc, vo, si) && 0 <= k <= |indices|
    requires |cache| == |indices| && forall j :: 0 <= j < |cache| ==> cache[j] == -1
    requires |filled| == n && forall v :: 0 <= v < n ==> filled[v] == 0
    ensures Filled(cache, n, vc, vo, si, filled)
    ensures FilledBelow(filled, indices, n, k)
  {
  }

  /** At corner k, k not beyond the visited corners, its point still has an unassigned slot. */
  lemma {:induction false} FreeSlot(indices: seq<int>, n: nat, vc: seq<int>, vo: seq<int>, si: seq<int>, filled: seq<int>, k: int)
    requires SlotIndex(indices, n, vc, vo, si)
    requires 0 <= k < |indices| && FilledBelow(filled, indices, n, k)
    ensures 0 <= indices[k] < n && filled[indices[k]] < vc[indices[k]]
  {
    CountMonotone(indices, indices[k], k + 1, |indices|);
  }

  /**
   * Assigning the first unassigned slot of point x keeps every point's
   * assigned slots a prefix, x's one slot longer.
   */
  lemma {:induction false} FilledAssign(indices: seq<int>, n: nat, vc: seq<int>, vo: seq<int>, si: seq<int>,
                     cache: seq<int>, filled: seq<int>, x: int, value: int)
    requires SlotIndex(indices, n, vc, vo, si) && Filled(cache, n, vc, vo, si, filled)
    requires 0 <= x < n && 0 <= filled[x] < vc[x] && value != -1
    ensures Filled(cache[si[Slot(vo[x], filled[x])] := value], n, vc, vo, si, filled[x := filled[x] + 1])
  {
    // a corner names its point, and its rank among that point's corners
    var t := si[Slot(vo[x], filled[x])];
    assert indices[t] == x && Count(indices, x, t) == filled[x];
  }

  /** The assigned-slot counts after a dedup step at point x, which assigned one more slot of x when it grew. */
  ghost function Bumped(filled: seq<int>, x: int, grow: bool): (r: seq<int>)
    requires 0 <= x < |filled|
    ensures |r| == |filled| && r[x] == filled[x] + (if grow then 1 else 0)
    ensures forall v :: 0 <= v < |filled| && v != x ==> r[v] == filled[v]
  {
    if grow then filled[x := filled[x] + 1] else filled
  }

  /**
   * Visiting corner k moves the bound one corner on; point indices[k] may
   * gain one assigned slot.
   */
  lemma {:induction false} FilledBelowStep(indices: seq<int>, n: nat, filled: seq<int>, k: int, grow: bool)
    requires 0 <= k < |indices| && 0 <= indices[k] < n && FilledBelow(filled, indices, n, k)
    ensures FilledBelow(Bumped(filled, indices[k], grow), indices, n, k + 1)
  {
  }

  /** Every assigned entry of the cache names an output vertex in [lo, hi). */
  predicate CacheRange(cache: seq<int>, lo: int, hi: int)
  {
    forall j :: 0 <= j < |cache| ==> cache[j] == -1 || lo <= cache[j] < hi
  }
}
