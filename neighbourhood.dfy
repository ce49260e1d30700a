/** The neighbourhood map: for every point, the indices of the points within
    the radius, found by a forward scan over points sorted on one dimension. */
module Neighbourhood {
  import opened Distance
  import opened Ordering

  /** What one build of the map reads: the points in scan order, the
      ordering dimension, the radius `eps`, its square `eps2` and the number
      of measured dimensions. */
  datatype Scan = Scan(points: seq<seq<real>>, dim: int, eps: real, eps2: real, dims: nat)
  {
    /** Every point has a coordinate at the ordering dimension and at least
        `dims` coordinates. */
    predicate Readable()
    {
      HasDimension(points, dim) && forall k :: 0 <= k < |points| ==> dims <= |points[k]|
    }

    /** The conditions under which the window is exact: points sorted on the
        ordering dimension, that dimension measured, and `eps2 == eps * eps`
        with a non-negative radius. */
    predicate Exact()
      requires Readable()
    {
      SortedOn(points, dim) && dim < dims && 0.0 <= eps && eps2 == eps * eps
    }
  }

  /** A sequence of indices in strictly increasing order (so without repeats). */
  predicate StrictlyIncreasing(s: seq<nat>)
  {
    forall p, q :: 0 <= p < q < |s| ==> s[p] < s[q]
  }

  /** The indices `0, 1, ..., n - 1` in order. */
  function Indices(n: nat): (r: seq<nat>)
    ensures |r| == n && forall i :: 0 <= i < n ==> r[i] == i
  {
    seq(n, i requires 0 <= i < n => i as nat)
  }

  /** The forward scan started at point `i` gets as far as point `j`: every
      point after `i` up to and including `j` lies at most `eps` above point
      `i` on the ordering dimension. */
  ghost predicate Reaches(sc: Scan, i: nat, j: nat)
    requires sc.Readable()
  {
    i < j < |sc.points| &&
    forall m :: i < m <= j ==> sc.points[m][sc.dim] <= sc.points[i][sc.dim] + sc.eps
  }

  /** The scan from `i` reaches `j` and finds it within `eps2`: the edge that
      scan records in both directions. */
  ghost predicate Linked(sc: Scan, i: nat, j: nat)
    requires sc.Readable()
  {
    Reaches(sc, i, j) && Dist2(sc.points[i], sc.points[j], sc.dims) <= sc.eps2
  }

  /** `j` belongs to the set of point `k` in the completed map: it is `k`
      itself, or an edge between them was found by the earlier one's scan. */
  ghost predicate Neighbour(sc: Scan, k: nat, j: nat)
    requires sc.Readable()
  {
    k < |sc.points| && j < |sc.points| && (j == k || Linked(sc, k, j) || Linked(sc, j, k))
  }

  /** The indices in `[from, n)` satisfying `f`, in increasing order. */
  function IndicesWhere(n: nat, from: nat, f: nat -> bool): (r: seq<nat>)
    requires from <= n
    ensures StrictlyIncreasing(r)
    ensures forall p :: 0 <= p < |r| ==> from <= r[p] < n
    ensures forall j :: j in r <==> from <= j < n && f(j)
    decreases n - from
  {
    if from == n then []
    else if f(from) then [from] + IndicesWhere(n, from + 1, f)
    else IndicesWhere(n, from + 1, f)
  }

  /** An increasing sequence of indices in `[from, n)` has at most one
      entry per index, and has one for every index exactly when it holds
      them all. */
  lemma {:induction false} IncreasingFull(r: seq<nat>, from: nat, n: nat)
    requires StrictlyIncreasing(r) && from <= n
    requires forall p :: 0 <= p < |r| ==> from <= r[p] < n
    ensures |r| <= n - from
    ensures |r| == n - from <==> forall j :: from <= j < n ==> j in r
    decreases n - from
  {
    if r == [] {
      if from < n {
        assert from !in r;
      }
    } else if r[0] == from {
      IncreasingSplit(r);
      IncreasingFull(r[1..], from + 1, n);
    } else {
      IncreasingSplit(r);
      forall p | 0 <= p < |r|
        ensures from + 1 <= r[p]
      {
        assert r[p] in r;
      }
      IncreasingFull(r, from + 1, n);
      assert from !in r;
    }
  }

  /** The set of point `k` in the completed map: the point itself and every
      point linked to it by either scan, in increasing order. */
  ghost function Neighbours(sc: Scan, k: nat): (r: seq<nat>)
    requires sc.Readable() && k < |sc.points|
    ensures StrictlyIncreasing(r)
    ensures forall p :: 0 <= p < |r| ==> r[p] < |sc.points|
    ensures forall j :: j in r <==> 0 <= j < |sc.points| && Neighbour(sc, k, j)
  {
    IndicesWhere(|sc.points|, 0, (j: nat) => sc.Readable() && Neighbour(sc, k, j))
  }

  /** The completed neighbourhood map. */
  ghost function NeighbourhoodMap(sc: Scan): (m: seq<seq<nat>>)
    requires sc.Readable()
    ensures |m| == |sc.points|
    ensures forall k :: 0 <= k < |m| ==> m[k] == Neighbours(sc, k)
  {
    seq(|sc.points|, k requires 0 <= k < |sc.points| => Neighbours(sc, k))
  }

  /** Every set of the map holds its own point, only indices of points, and
      no index twice; and the map is symmetric: `j` is in the set of `k`
      exactly when `k` is in the set of `j`. */
  lemma MapShape(sc: Scan)
    requires sc.Readable()
    ensures forall k :: 0 <= k < |sc.points| ==> k in NeighbourhoodMap(sc)[k]
    ensures forall k, j :: 0 <= k < |sc.points| && j in NeighbourhoodMap(sc)[k] ==> j < |sc.points|
    ensures forall k :: 0 <= k < |sc.points| ==> StrictlyIncreasing(NeighbourhoodMap(sc)[k])
    ensures forall k, j :: 0 <= k < |sc.points| && 0 <= j < |sc.points| ==>
      (j in NeighbourhoodMap(sc)[k] <==> k in NeighbourhoodMap(sc)[j])
  {
  }

  /** Point 0's set holds every point exactly when its scan linked it to every
      later point, and then it is `0, 1, ..., n - 1`. */
  lemma {:induction false} FirstSetFull(sc: Scan)
    requires sc.Readable() && 0 < |sc.points|
    ensures |Neighbours(sc, 0)| == |sc.points| <==> forall j :: 0 < j < |sc.points| ==> Linked(sc, 0, j)
    ensures |Neighbours(sc, 0)| == |sc.points| ==> Neighbours(sc, 0) == Indices(|sc.points|)
  {
    var n := |sc.points|;
    var r := Neighbours(sc, 0);
    IncreasingFull(r, 0, n);
    assert forall j :: 0 < j < n ==> (Neighbour(sc, 0, j) <==> Linked(sc, 0, j));
    assert Neighbour(sc, 0, 0);
    if |r| == n {
      var all := Indices(n);
      forall p, q | 0 <= p < q < |all| ensures all[p] < all[q] { }
      forall x ensures x in r <==> x in all {
        if x in all {
          var i :| 0 <= i < n && all[i] == x;
        }
        if x in r {
          assert all[x] == x;
        }
      }
      SameMembersEqual(r, all);
    }
  }

  /** Two increasing sequences with the same members are equal. */
  lemma {:induction false} SameMembersEqual(a: seq<nat>, b: seq<nat>)
    requires StrictlyIncreasing(a) && StrictlyIncreasing(b)
    requires forall x :: x in a <==> x in b
    ensures a == b
    decreases |a|
  {
    assert a != [] ==> a[0] in b;
    assert b != [] ==> b[0] in a;
    if a != [] && b != [] {
      IncreasingSplit(a);
      IncreasingSplit(b);
      assert a[0] == b[0];
      SameMembersEqual(a[1..], b[1..]);
      assert a == [a[0]] + a[1..];
      assert b == [b[0]] + b[1..];
    }
  }

  /** The head of an increasing sequence is its least member, and the tail
      holds every other member. */
  lemma IncreasingSplit(s: seq<nat>)
    requires StrictlyIncreasing(s) && s != []
    ensures StrictlyIncreasing(s[1..])
    ensures forall x :: x in s ==> s[0] <= x
    ensures forall x :: x in s[1..] <==> x in s && x != s[0]
  {
    forall x | x in s ensures s[0] <= x {
      var p :| 0 <= p < |s| && s[p] == x;
    }
    forall x ensures x in s[1..] <==> x in s && x != s[0] {
      if x in s && x != s[0] {
        var p :| 0 <= p < |s| && s[p] == x;
        assert s[1..][p - 1] == x;
      }
      if x in s[1..] {
        var p :| 0 <= p < |s| - 1 && s[1..][p] == x;
        assert s[p + 1] == x;
      }
    }
  }

  /** When the points are sorted on the ordering dimension, that dimension is
      measured and `eps2 == eps * eps >= 0`, a point within the radius of an
      earlier point is always reached by the earlier point's scan: the gap on
      one dimension is at most the full distance. */
  lemma ScanReachesClose(sc: Scan, i: nat, j: nat)
    requires sc.Readable() && sc.Exact()
    requires i < j < |sc.points|
    requires Dist2(sc.points[i], sc.points[j], sc.dims) <= sc.eps2
    ensures Reaches(sc, i, j)
  {
    var d := sc.dim;
    Dist2Dominates(sc.points[i], sc.points[j], sc.dims, d);
    SqWithin(sc.points[i][d] - sc.points[j][d], sc.eps);
    forall m | i < m <= j
      ensures sc.points[m][d] <= sc.points[i][d] + sc.eps
    {
      assert m == j || sc.points[m][d] <= sc.points[j][d];
    }
  }

  /** Under the conditions of `Exact`, the pruned scan loses nothing: two
      distinct points are neighbours exactly when their squared distance is
      at most `eps2`. */
  lemma NeighbourIffClose(sc: Scan, i: nat, j: nat)
    requires sc.Readable() && sc.Exact()
    requires i < |sc.points| && j < |sc.points| && i != j
    ensures Neighbour(sc, i, j) <==> Dist2(sc.points[i], sc.points[j], sc.dims) <= sc.eps2
  {
    Dist2Symmetric(sc.points[i], sc.points[j], sc.dims);
    if i < j && Dist2(sc.points[i], sc.points[j], sc.dims) <= sc.eps2 {
      ScanReachesClose(sc, i, j);
    } else if j < i && Dist2(sc.points[j], sc.points[i], sc.dims) <= sc.eps2 {
      ScanReachesClose(sc, j, i);
    }
  }

  /** The same, for every pair of distinct points at once. */
  lemma WindowIsSound(sc: Scan)
    requires sc.Readable() && sc.Exact()
    ensures forall i, j :: 0 <= i < |sc.points| && 0 <= j < |sc.points| && i != j ==>
      (j in NeighbourhoodMap(sc)[i] <==> Dist2(sc.points[i], sc.points[j], sc.dims) <= sc.eps2)
  {
    forall i, j | 0 <= i < |sc.points| && 0 <= j < |sc.points| && i != j
      ensures j in NeighbourhoodMap(sc)[i] <==> Dist2(sc.points[i], sc.points[j], sc.dims) <= sc.eps2
    {
      NeighbourIffClose(sc, i, j);
    }
  }

  // The build, one scan at a time.

  /** `j` is in the set of point `k` once the scans started at every index
      below `s` have run: either an earlier scan from `j` linked `k`, or the
      scan from `k` itself has run and added `k` and what it linked. */
  ghost predicate HeldAfter(sc: Scan, s: nat, k: nat, j: nat)
    requires sc.Readable()
  {
    j < |sc.points| && ((j < s && Linked(sc, j, k)) || (k < s && (j == k || Linked(sc, k, j))))
  }

  /** The map `m` is exactly what the scans started below `s` have built. */
  ghost predicate MapAfter(sc: Scan, m: seq<seq<nat>>, s: nat)
    requires sc.Readable()
  {
    |m| == |sc.points| &&
    forall k :: 0 <= k < |m| ==>
      StrictlyIncreasing(m[k]) && forall j :: j in m[k] <==> HeldAfter(sc, s, k, j)
  }

  /** While the scan from `start` is at index `i`: the earlier scans are done,
      and this one has added `start` to its own set and recorded its links
      with every index below `i`. */
  ghost predicate HeldDuring(sc: Scan, start: nat, i: nat, k: nat, j: nat)
    requires sc.Readable()
  {
    HeldAfter(sc, start, k, j)
    || (k == start && (j == start || (j < i && Linked(sc, start, j))))
    || (j == start && k < i && Linked(sc, start, k))
  }

  /** The map `m` is what the build holds while the scan from `start` is at `i`. */
  ghost predicate MapDuring(sc: Scan, m: seq<seq<nat>>, start: nat, i: nat)
    requires sc.Readable()
  {
    |m| == |sc.points| &&
    forall k :: 0 <= k < |m| ==>
      StrictlyIncreasing(m[k]) && forall j :: j in m[k] <==> HeldDuring(sc, start, i, k, j)
  }

  /** Before any scan every set is empty. */
  lemma MapBeforeScans(sc: Scan, m: seq<seq<nat>>)
    requires sc.Readable()
    requires |m| == |sc.points| && forall k :: 0 <= k < |m| ==> m[k] == []
    ensures MapAfter(sc, m, 0)
  {
  }

  /** Appending an index above every member keeps a set increasing. */
  lemma AppendIncreasing(s: seq<nat>, x: nat)
    requires StrictlyIncreasing(s)
    requires forall y :: y in s ==> y < x
    ensures StrictlyIncreasing(s + [x])
  {
    forall p, q | 0 <= p < q < |s| + 1
      ensures (s + [x])[p] < (s + [x])[q]
    {
      if q == |s| {
        assert s[p] in s;
      }
    }
  }

  /** A scan starts by adding its own index to its own set. */
  lemma {:induction false} ScanBegins(sc: Scan, m: seq<seq<nat>>, start: nat)
    requires sc.Readable() && start < |sc.points|
    requires MapAfter(sc, m, start)
    ensures MapDuring(sc, m[start := m[start] + [start]], start, start + 1)
  {
    var m' := m[start := m[start] + [start]];
    AppendIncreasing(m[start], start);
    forall k, j | 0 <= k < |m'|
      ensures j in m'[k] <==> HeldDuring(sc, start, start + 1, k, j)
    {
      if k == start {
        assert j in m'[k] <==> j in m[k] || j == start;
      }
    }
  }

  /** The scan from `start` examines index `i`, which lies inside its window,
      and records the edge in both directions when the two points are within
      `eps2`; the scan then moves on to `i + 1`. */
  lemma {:induction false} ScanSteps(sc: Scan, m: seq<seq<nat>>, start: nat, i: nat)
    requires sc.Readable() && start < i < |sc.points|
    requires MapDuring(sc, m, start, i)
    requires forall q :: start < q <= i ==> sc.points[q][sc.dim] <= sc.points[start][sc.dim] + sc.eps
    ensures Dist2(sc.points[start], sc.points[i], sc.dims) <= sc.eps2 ==>
      MapDuring(sc, m[start := m[start] + [i]][i := m[i] + [start]], start, i + 1)
    ensures Dist2(sc.points[start], sc.points[i], sc.dims) > sc.eps2 ==>
      MapDuring(sc, m, start, i + 1)
  {
    assert Reaches(sc, start, i);
    if Dist2(sc.points[start], sc.points[i], sc.dims) <= sc.eps2 {
      assert Linked(sc, start, i);
      var m' := m[start := m[start] + [i]][i := m[i] + [start]];
      AppendIncreasing(m[start], i);
      AppendIncreasing(m[i], start);
      forall k, j | 0 <= k < |m'|
        ensures j in m'[k] <==> HeldDuring(sc, start, i + 1, k, j)
      {
        if k == start {
          assert j in m'[k] <==> j in m[k] || j == i;
        } else if k == i {
          assert j in m'[k] <==> j in m[k] || j == start;
        } else {
          assert m'[k] == m[k];
        }
      }
    } else {
      assert !Linked(sc, start, i);
      forall k, j | 0 <= k < |m|
        ensures j in m[k] <==> HeldDuring(sc, start, i + 1, k, j)
      {
      }
    }
  }

  /** The scan stops at the end of the points or at the first point more than
      `eps` above `start` on the ordering dimension; no later point is linked
      to `start`, so the scan from `start` is complete. */
  lemma {:induction false} ScanEnds(sc: Scan, m: seq<seq<nat>>, start: nat, i: nat)
    requires sc.Readable() && start < i <= |sc.points|
    requires MapDuring(sc, m, start, i)
    requires i < |sc.points| ==> sc.points[i][sc.dim] > sc.points[start][sc.dim] + sc.eps
    ensures MapAfter(sc, m, start + 1)
  {
    forall j | i <= j < |sc.points|
      ensures !Reaches(sc, start, j)
    {
      assert sc.points[i][sc.dim] > sc.points[start][sc.dim] + sc.eps;
    }
    forall k, j | 0 <= k < |m|
      ensures j in m[k] <==> HeldAfter(sc, start + 1, k, j)
    {
      assert HeldDuring(sc, start, i, k, j) <==> HeldAfter(sc, start + 1, k, j);
    }
  }

  /** Once every scan has run, the map is the completed neighbourhood map. */
  lemma {:induction false} AllScansBuildMap(sc: Scan, m: seq<seq<nat>>)
    requires sc.Readable()
    requires MapAfter(sc, m, |sc.points|)
    ensures m == NeighbourhoodMap(sc)
  {
    forall k | 0 <= k < |m|
      ensures m[k] == Neighbours(sc, k)
    {
      assert forall j :: HeldAfter(sc, |sc.points|, k, j) <==> Neighbour(sc, k, j);
      SameMembersEqual(m[k], Neighbours(sc, k));
    }
  }

  /** After the scan from point 0, the set of point 0 is complete: no other
      scan adds to it. */
  lemma {:induction false} FirstSetAfterFirstScan(sc: Scan, m: seq<seq<nat>>, s: nat)
    requires sc.Readable() && 0 < s && 0 < |sc.points|
    requires MapAfter(sc, m, s)
    ensures m[0] == Neighbours(sc, 0)
  {
    assert forall j :: HeldAfter(sc, s, 0, j) <==> Neighbour(sc, 0, j);
    SameMembersEqual(m[0], Neighbours(sc, 0));
  }

  /** When the scan from point 0 linked every later point, the scan from 0
      alone leaves every other set holding just `0`. */
  lemma OtherSetsAfterFullFirstScan(sc: Scan, m: seq<seq<nat>>)
    requires sc.Readable() && 0 < |sc.points| && MapAfter(sc, m, 1)
    requires forall j :: 0 < j < |sc.points| ==> Linked(sc, 0, j)
    ensures forall k :: 0 < k < |m| ==> m[k] == [0]
  {
    forall k | 0 < k < |m|
      ensures m[k] == [0]
    {
      assert Linked(sc, 0, k);
      assert forall j :: j in m[k] <==> j in [0];
      SameMembersEqual(m[k], [0]);
    }
  }
}
