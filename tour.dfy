/** One candidate solution: an ordering of city ids with the coordinate
    tables it was read with (Tour.cpp). */
module Tours {
  import opened Permutations

  /** The distance between two cities, looked up by id. The program rounds a
      Euclidean distance computed in floating point; here it is any integer
      function of the two ids. */
  type DistFn = (int, int) -> int

  ghost predicate NonNegative(dist: DistFn) {
    forall a, b :: dist(a, b) >= 0
  }

  /** The k-th leg of the closed tour: from ids[k] to the next city, the last
      city leading back to the first. */
  function Edge(ids: seq<int>, dist: DistFn, k: nat): (e: int)
    requires k < |ids|
  {
    dist(ids[k], if k + 1 < |ids| then ids[k + 1] else ids[0])
  }

  /** The k-th leg ends at position (k + 1) mod n. */
  lemma EdgeIsCyclic(ids: seq<int>, dist: DistFn, k: nat)
    requires k < |ids|
    ensures Edge(ids, dist, k) == dist(ids[k], ids[(k + 1) % |ids|])
  {
    if k + 1 < |ids| {
      assert (k + 1) % |ids| == k + 1;
    } else {
      assert (k + 1) % |ids| == 0;
    }
  }

  /** The length of the first k legs. */
  function EdgeSum(ids: seq<int>, dist: DistFn, k: nat): (s: int)
    requires k <= |ids|
  {
    if k == 0 then 0 else EdgeSum(ids, dist, k - 1) + Edge(ids, dist, k - 1)
  }

  /** The length of the closed tour through `ids`, in visiting order. */
  function TourDist(ids: seq<int>, dist: DistFn): (d: int)
    ensures |ids| == 0 ==> d == 0
  {
    EdgeSum(ids, dist, |ids|)
  }

  lemma {:induction false} EdgeSumNonNegative(ids: seq<int>, dist: DistFn, k: nat)
    requires NonNegative(dist) && k <= |ids|
    ensures EdgeSum(ids, dist, k) >= 0
  {
    if k > 0 {
      EdgeSumNonNegative(ids, dist, k - 1);
      var next := if k < |ids| then ids[k] else ids[0];
      assert dist(ids[k - 1], next) >= 0;
    }
  }

  /** A tour is never negative in length when no leg is. */
  lemma TourDistNonNegative(ids: seq<int>, dist: DistFn)
    requires NonNegative(dist)
    ensures TourDist(ids, dist) >= 0
  {
    EdgeSumNonNegative(ids, dist, |ids|);
  }

  /** The tour that starts k cities later along the same cycle. */
  function Rotated(ids: seq<int>, k: nat): (r: seq<int>)
    requires k <= |ids|
    ensures |r| == |ids|
  {
    ids[k..] + ids[..k]
  }

  lemma {:induction false} RotatedPrefixSum(ids: seq<int>, dist: DistFn, k: nat)
    requires 0 < |ids| && k < |ids|
    ensures EdgeSum(Rotated(ids, 1), dist, k) == EdgeSum(ids, dist, k + 1) - Edge(ids, dist, 0)
  {
    if k > 0 {
      RotatedPrefixSum(ids, dist, k - 1);
      var r := Rotated(ids, 1);
      assert r[k - 1] == ids[k] && r[k] == if k + 1 < |ids| then ids[k + 1] else ids[0];
      assert Edge(r, dist, k - 1) == Edge(ids, dist, k);
    }
  }

  /** Starting one city later along the cycle does not change its length. */
  lemma RotateOnceKeepsDist(ids: seq<int>, dist: DistFn)
    requires |ids| > 0
    ensures TourDist(Rotated(ids, 1), dist) == TourDist(ids, dist)
  {
    var r := Rotated(ids, 1);
    var n := |ids|;
    RotatedPrefixSum(ids, dist, n - 1);
    assert r[n - 1] == ids[0] && r[0] == if 1 < n then ids[1] else ids[0];
    assert Edge(r, dist, n - 1) == Edge(ids, dist, 0);
  }

  /** The length of a closed tour does not depend on the city it starts from. */
  lemma {:induction false} RotationKeepsDist(ids: seq<int>, dist: DistFn, k: nat)
    requires k <= |ids|
    ensures TourDist(Rotated(ids, k), dist) == TourDist(ids, dist)
  {
    if k > 0 {
      RotationKeepsDist(ids, dist, k - 1);
      var prev := Rotated(ids, k - 1);
      assert prev[0] == ids[k - 1];
      assert prev[1..] == ids[k..] + ids[..k - 1];
      assert ids[..k] == ids[..k - 1] + [ids[k - 1]];
      assert Rotated(prev, 1) == Rotated(ids, k);
      RotateOnceKeepsDist(prev, dist);
    } else {
      assert Rotated(ids, 0) == ids;
    }
  }

  /** `s` with the entries at positions i and j exchanged. */
  function Swapped(s: seq<int>, i: int, j: int): (r: seq<int>)
    requires 0 <= i < |s| && 0 <= j < |s|
    ensures |r| == |s| && r[i] == s[j] && r[j] == s[i]
    ensures forall k :: 0 <= k < |s| && k != i && k != j ==> r[k] == s[k]
  {
    s[i := s[j]][j := s[i]]
  }

  /** A swap only reorders the ids, so it keeps a permutation a permutation. */
  lemma SwapKeepsIds(s: seq<int>, i: int, j: int, n: nat)
    requires 0 <= i < |s| && 0 <= j < |s|
    ensures IsRearrangement(Swapped(s, i, j), s)
    ensures IsPermutation(s, n) ==> IsPermutation(Swapped(s, i, j), n)
  {
    if IsPermutation(s, n) {
      RearrangedPermutation(Swapped(s, i, j), s, n);
    }
  }

  /** Swapping a position with itself changes nothing. */
  lemma SwapSelfIsIdentity(s: seq<int>, i: int)
    requires 0 <= i < |s|
    ensures Swapped(s, i, i) == s
  {
  }

  /** Swapping the same pair twice restores the original order. */
  lemma SwapTwiceRestores(s: seq<int>, i: int, j: int)
    requires 0 <= i < |s| && 0 <= j < |s|
    ensures Swapped(Swapped(s, i, j), i, j) == s
  {
  }

  /** A tour: the visiting order `id` and the coordinate tables `xc`, `yc`
      inherited from the point set. A city id doubles as its index into the
      coordinate tables. */
  class Tour {
    var id: seq<int>
    var xc: seq<int>
    var yc: seq<int>

    /** The default constructor: an empty tour, later filled by reading the
        input file (not part of this model). */
    constructor Empty()
      ensures id == [] && xc == [] && yc == []
    {
      id, xc, yc := [], [], [];
    }

    constructor (ids: seq<int>, x: seq<int>, y: seq<int>)
      ensures id == ids && xc == x && yc == y
    {
      id, xc, yc := ids, x, y;
    }

    /** The implicit copy constructor: the program keeps tours by value, so
        each copy is a separate object. */
    constructor Copy(other: Tour)
      ensures id == other.id && xc == other.xc && yc == other.yc
    {
      id, xc, yc := other.id, other.xc, other.yc;
    }

    /** The length of the closed tour, accumulated leg by leg. */
    method CalcTourDist(dist: DistFn) returns (total: int)
      ensures total == TourDist(id, dist)
    {
      total := 0;
      var length := |id|;
      for i := 0 to length
        invariant total == EdgeSum(id, dist, i)
      {
        if i == length - 1 {
          total := total + dist(id[i], id[0]);
        } else {
          total := total + dist(id[i], id[i + 1]);
        }
      }
    }

    /** Reorders the ids in some way the model leaves open (the program
        draws a random permutation). */
    method ShufflePath()
      modifies this
      ensures IsRearrangement(id, old(id)) && |id| == old(|id|)
      ensures xc == old(xc) && yc == old(yc)
    {
      var before := id;
      assert IsRearrangement(before, before);
      var shuffled: seq<int> :| multiset(shuffled) == multiset(before);
      id := shuffled;
      assert multiset(shuffled) == multiset(before);
      assert |multiset(shuffled)| == |multiset(before)|;
    }

    method Swap(i: int, j: int)
      requires 0 <= i < |id| && 0 <= j < |id|
      modifies this
      ensures id == Swapped(old(id), i, j)
      ensures xc == old(xc) && yc == old(yc)
    {
      var temp := id[i];
      id := id[i := id[j]];
      id := id[j := temp];
    }

    method SetID(newPath: seq<int>)
      modifies this
      ensures id == newPath
      ensures xc == old(xc) && yc == old(yc)
    {
      id := newPath;
    }

    method GetID() returns (r: seq<int>)
      ensures r == id
    {
      r := id;
    }

    method GetX() returns (r: seq<int>)
      ensures r == xc
    {
      r := xc;
    }

    method GetY() returns (r: seq<int>)
      ensures r == yc
    {
      r := yc;
    }
  }
}
