/** The clusterer object: its configuration, the distance it measures, the
    neighbourhood-map builder and the clustering entry point. */
module DBSCAN {
  import opened Distance
  import opened Ordering
  import opened Neighbourhood
  import opened Expansion
  import opened DimensionChoice

  /** Every index of every group names one of `points`. */
  predicate GroupsIndex(points: seq<seq<real>>, groups: seq<seq<nat>>)
  {
    forall a, i :: 0 <= a < |groups| && 0 <= i < |groups[a]| ==> groups[a][i] < |points|
  }

  /** The groups of indices, each index replaced by its point. */
  function Gather(points: seq<seq<real>>, groups: seq<seq<nat>>): (r: seq<seq<seq<real>>>)
    requires GroupsIndex(points, groups)
    ensures |r| == |groups|
    ensures forall a :: 0 <= a < |groups| ==>
      |r[a]| == |groups[a]| && forall i :: 0 <= i < |groups[a]| ==> r[a][i] == points[groups[a][i]]
  {
    seq(|groups|, a requires 0 <= a < |groups| =>
      seq(|groups[a]|, i requires 0 <= i < |groups[a]| => points[groups[a][i]]))
  }

  /** Reordering the points keeps every point at least `dims` long. */
  lemma SameLengthsAfterSort(before: seq<seq<real>>, after: seq<seq<real>>, dims: nat)
    requires multiset(after) == multiset(before)
    requires forall k :: 0 <= k < |before| ==> dims <= |before[k]|
    ensures forall k :: 0 <= k < |after| ==> dims <= |after[k]|
  {
    forall k | 0 <= k < |after|
      ensures dims <= |after[k]|
    {
      assert after[k] in multiset(before);
    }
  }

  /** The completed map is what the expander needs: a map of indices of the
      points, symmetric. */
  lemma BuiltMapFitsExpander(sc: Scan)
    requires sc.Readable()
    ensures ValidMap(NeighbourhoodMap(sc)) && SymmetricMap(NeighbourhoodMap(sc))
  {
    MapShape(sc);
  }

  /** The clusters of a clustering index the points the map was built from. */
  lemma ClusteringIndexes(points: seq<seq<real>>, nbrs: seq<seq<nat>>, minPts: int, groups: seq<seq<nat>>)
    requires |nbrs| == |points| && IsClustering(nbrs, minPts, groups)
    ensures GroupsIndex(points, groups)
  {
    forall a, i | 0 <= a < |groups| && 0 <= i < |groups[a]|
      ensures groups[a][i] < |points|
    {
      assert GoodCluster(nbrs, minPts, groups[a]);
      assert groups[a][i] in groups[a];
    }
  }

  /** With sorted points, a measured ordering dimension and
      `eps2 == eps * eps >= 0`, a cluster found on the pruned map holds every
      point within the radius of each of its members. */
  lemma ClustersAreRadiusClosed(sc: Scan, minPts: int, groups: seq<seq<nat>>, a: int, i: nat, j: nat)
    requires sc.Readable() && sc.Exact() && IsClustering(NeighbourhoodMap(sc), minPts, groups)
    requires 0 <= a < |groups| && i in groups[a] && j < |sc.points|
    requires Dist2(sc.points[i], sc.points[j], sc.dims) <= sc.eps2
    ensures j in groups[a]
  {
    var nbrs := NeighbourhoodMap(sc);
    assert GoodCluster(nbrs, minPts, groups[a]);
    if i != j {
      NeighbourIffClose(sc, i, j);
      assert j in nbrs[i];
    }
  }

  /** Widening the radius, with everything else the same, only adds edges
      to the completed map. */
  lemma EdgesGrow(sc: Scan, wide: Scan)
    requires sc.Readable() && sc.Exact() && wide.Readable() && wide.Exact()
    requires wide.points == sc.points && wide.dim == sc.dim && wide.dims == sc.dims
    requires sc.eps <= wide.eps
    ensures SubMap(NeighbourhoodMap(sc), NeighbourhoodMap(wide))
  {
    var m, w := NeighbourhoodMap(sc), NeighbourhoodMap(wide);
    if sc.eps < wide.eps {
      SqGrows(wide.eps, sc.eps);
    }
    assert sc.eps2 <= wide.eps2;
    forall k, j | 0 <= k < |m| && j in m[k]
      ensures j in w[k]
    {
      assert m[k] == Neighbours(sc, k) && w[k] == Neighbours(wide, k);
      assert j < |m| && Neighbour(sc, k, j);
      if j != k {
        NeighbourIffClose(sc, k, j);
        NeighbourIffClose(wide, k, j);
        assert Dist2(sc.points[k], sc.points[j], sc.dims) <= wide.eps2;
      }
      assert Neighbour(wide, k, j);
    }
  }

  /** Raising `eps` never splits a cluster: on sorted points with exact
      radii, every cluster found with the smaller radius lies inside one
      cluster found with the larger, for the same `MinPts`. */
  lemma ClustersOnlyMerge(sc: Scan, wide: Scan, minPts: int,
                          groups: seq<seq<nat>>, merged: seq<seq<nat>>, a: int)
    requires sc.Readable() && sc.Exact() && wide.Readable() && wide.Exact()
    requires wide.points == sc.points && wide.dim == sc.dim && wide.dims == sc.dims
    requires sc.eps <= wide.eps
    requires IsClustering(NeighbourhoodMap(sc), minPts, groups)
    requires IsClustering(NeighbourhoodMap(wide), minPts, merged)
    requires 0 <= a < |groups|
    ensures exists b :: 0 <= b < |merged| && forall y :: y in groups[a] ==> y in merged[b]
  {
    EdgesGrow(sc, wide);
    BuiltMapFitsExpander(sc);
    BuiltMapFitsExpander(wide);
    ComponentsOnlyMerge(NeighbourhoodMap(sc), NeighbourhoodMap(wide), minPts, groups, merged, a);
  }

  /** Raising `eps` keeps an early exit: when point 0's set holds every
      point at the smaller radius, it does so at the larger one too, so the
      single all-points cluster is never split. */
  lemma EarlyExitPersists(sc: Scan, wide: Scan)
    requires sc.Readable() && sc.Exact() && wide.Readable() && wide.Exact()
    requires wide.points == sc.points && wide.dim == sc.dim && wide.dims == sc.dims
    requires sc.eps <= wide.eps && 0 < |sc.points|
    requires |Neighbours(sc, 0)| == |sc.points|
    ensures |Neighbours(wide, 0)| == |wide.points|
  {
    EdgesGrow(sc, wide);
    FirstSetFull(sc);
    FirstSetFull(wide);
    forall j | 0 < j < |sc.points|
      ensures Linked(wide, 0, j)
    {
      assert Linked(sc, 0, j);
      assert j in NeighbourhoodMap(sc)[0];
      assert j in NeighbourhoodMap(wide)[0];
      assert Neighbour(wide, 0, j);
    }
  }

  class DBSCANClusterer {
    var eps: real
    var eps2: real
    var MinPts: int
    var numDimensions: nat
    var SortDimensionIndex: int
    var AutoSelectDimension: bool

    /** A clusterer with radius `eps` and minimum cluster size `minPts` that
        picks its ordering dimension itself; every other field is zero. */
    constructor (eps: real, minPts: int)
      ensures GetEps() == eps
      ensures this.eps == eps && eps2 == eps * eps && MinPts == minPts && AutoSelectDimension
      ensures numDimensions == 0 && SortDimensionIndex == 0
    {
      this.eps := eps;
      eps2 := eps * eps;
      MinPts := minPts;
      numDimensions := 0;
      SortDimensionIndex := 0;
      AutoSelectDimension := true;
    }

    /** The radius, as set by the constructor or the last `SetEps`. */
    function GetEps(): (r: real)
      reads this
      ensures r == eps
    {
      eps
    }

    /** Changes the radius and its square together, and nothing else. */
    method SetEps(eps: real)
      modifies this`eps, this`eps2
      ensures GetEps() == eps && this.eps == eps && eps2 == eps * eps
    {
      this.eps := eps;
      eps2 := eps * eps;
    }

    /** The squared Euclidean distance over the first `numDimensions`
        coordinates, accumulated from coordinate 0 upwards. */
    method CalcDistance(aPoint: seq<real>, bPoint: seq<real>) returns (sum: real)
      requires numDimensions <= |aPoint| && numDimensions <= |bPoint|
      ensures sum == Dist2(aPoint, bPoint, numDimensions)
      ensures sum >= 0.0
    {
      sum := 0.0;
      for i := 0 to numDimensions
        invariant sum == Dist2(aPoint, bPoint, i)
      {
        sum := sum + (aPoint[i] - bPoint[i]) * (aPoint[i] - bPoint[i]);
      }
      Dist2NonNegative(aPoint, bPoint, numDimensions);
    }

    /** What a build of the map reads from the clusterer and the data. */
    ghost function ScanOf(data: seq<seq<real>>): Scan
      reads this
    {
      Scan(data, SortDimensionIndex, eps, eps2, numDimensions)
    }

    /** The scan started at `start`: adds `start` to its own set, then walks
        forward while the ordering coordinate stays within `eps` above that
        of `start`, and records both directions of every pair within `eps2`. */
    method ScanFrom(data: seq<seq<real>>, result: array<seq<nat>>, start: nat)
      requires ScanOf(data).Readable() && start < |data| && result.Length == |data|
      requires MapAfter(ScanOf(data), result[..], start)
      modifies result
      ensures MapAfter(ScanOf(data), result[..], start + 1)
    {
      ghost var sc := ScanOf(data);
      var headV := data[start];
      var headDimV := headV[SortDimensionIndex] + eps;
      ScanBegins(sc, result[..], start);
      ghost var m := result[..];
      result[start] := result[start] + [start];
      assert result[..] == m[start := m[start] + [start]];
      var i := start + 1;
      while i < |data| && data[i][SortDimensionIndex] <= headDimV
        invariant start < i <= |data|
        invariant MapDuring(sc, result[..], start, i)
        invariant forall q :: start < q < i ==> data[q][SortDimensionIndex] <= headDimV
        decreases |data| - i
      {
        var d := CalcDistance(headV, data[i]);
        ScanSteps(sc, result[..], start, i);
        if d <= eps2 {
          ghost var before := result[..];
          result[start] := result[start] + [i];
          result[i] := result[i] + [start];
          assert result[..] == before[start := before[start] + [i]][i := before[i] + [start]];
        }
        i := i + 1;
      }
      ScanEnds(sc, result[..], start, i);
    }

    /** Builds the neighbourhood map of points already sorted on the ordering
        dimension, one scan per point in index order. When the scan from
        point 0 already linked every point, it stops there: the set of point
        0 is then complete and holds every index, and every other set holds
        only what that one scan added. Otherwise the result is the
        completed map. */
    method BuildNeighborhoodMap(data: seq<seq<real>>) returns (result: array<seq<nat>>)
      requires ScanOf(data).Readable() && 0 < |data|
      ensures fresh(result) && result.Length == |data|
      ensures result[0] == Neighbours(ScanOf(data), 0)
      ensures |result[0]| == |data| ==> result[0] == Indices(|data|)
      ensures |result[0]| == |data| ==> forall k :: 0 < k < |data| ==> result[k] == [0]
      ensures |result[0]| != |data| ==> result[..] == NeighbourhoodMap(ScanOf(data))
    {
      ghost var sc := ScanOf(data);
      result := new seq<nat>[|data|](_ => []);
      MapBeforeScans(sc, result[..]);
      ScanFrom(data, result, 0);
      FirstSetAfterFirstScan(sc, result[..], 1);
      FirstSetFull(sc);
      if |result[0]| == |data| {
        OtherSetsAfterFullFirstScan(sc, result[..]);
        return;
      }
      for i := 1 to |data|
        invariant MapAfter(sc, result[..], i)
      {
        ScanFrom(data, result, i);
      }
      AllScansBuildMap(sc, result[..]);
    }

    /** Picks the ordering dimension: computes the variance of every measured
        dimension, then keeps a running maximum starting from 0 at index 0
        and moves it to every value at least as large. */
    method PredictDimensionByMaxVariance(data: seq<seq<real>>, welford: (seq<seq<real>>, nat) -> real)
      returns (dim: int)
      ensures IsChosenDimension(Variances(data, numDimensions, welford), dim)
    {
      var result := new real[numDimensions];
      for d := 0 to numDimensions
        invariant forall e :: 0 <= e < d ==> result[e] == Variance(data, e, welford)
      {
        result[d] := Variance(data, d, welford);
      }
      ghost var vs := Variances(data, numDimensions, welford);
      assert result[..] == vs;
      var maxV, maxI := 0.0, 0;
      for i := 0 to result.Length
        invariant 0 <= maxI && 0.0 <= maxV
        invariant forall j :: 0 <= j < i ==> vs[j] <= maxV
        invariant forall j :: maxI < j < i ==> vs[j] < maxV
        invariant (maxI < i && vs[maxI] == maxV) ||
                  (maxI == 0 && maxV == 0.0 && forall j :: 0 <= j < i ==> vs[j] < 0.0)
      {
        var v := result[i];
        if maxV <= v {
          maxV, maxI := v, i;
        }
      }
      dim := maxI;
    }

    /** The preparation of a clustering run: records the number of measured
        dimensions (those of the first point), chooses the ordering dimension
        when auto-selection is on, and sorts the points in place on it. */
    method OrderPoints(data: array<seq<real>>, welford: (seq<seq<real>>, nat) -> real)
      requires 0 < data.Length && 0 < |data[0]|
      requires forall k :: 0 <= k < data.Length ==> |data[0]| <= |data[k]|
      requires !AutoSelectDimension ==> 0 <= SortDimensionIndex < |data[0]|
      modifies this`numDimensions, this`SortDimensionIndex, data
      ensures numDimensions == |old(data[0])|
      ensures AutoSelectDimension ==>
        IsChosenDimension(Variances(old(data[..]), numDimensions, welford), SortDimensionIndex)
      ensures !AutoSelectDimension ==> SortDimensionIndex == old(SortDimensionIndex)
      ensures multiset(data[..]) == multiset(old(data[..]))
      ensures HasDimension(data[..], SortDimensionIndex) && SortedOn(data[..], SortDimensionIndex)
      ensures ScanOf(data[..]).Readable() && SortDimensionIndex < numDimensions
    {
      numDimensions := |data[0]|;
      if AutoSelectDimension {
        SortDimensionIndex := PredictDimensionByMaxVariance(data[..], welford);
        ChosenDimensionUnique(Variances(data[..], numDimensions, welford), SortDimensionIndex, SortDimensionIndex);
      }
      ghost var before := data[..];
      SortByDimension(data, SortDimensionIndex);
      SameLengthsAfterSort(before, data[..], numDimensions);
    }

    /** Clusters the points, sorting the caller's array in place on the
        ordering dimension; every index below is a position after the sort.
        No points give no clusters. Otherwise the measured dimensions are
        those of the first point, the ordering dimension is chosen when
        auto-selection is on, and the map is built. When point 0's set holds
        every point, all points form one cluster whatever `MinPts` is;
        otherwise the clusters are the components of the map with at least
        `MinPts` points, in order of their smallest index. */
    method Cluster(data: array<seq<real>>, welford: (seq<seq<real>>, nat) -> real)
      returns (clusters: seq<seq<seq<real>>>, ghost groups: seq<seq<nat>>)
      requires forall k :: 0 <= k < data.Length ==> |data[0]| <= |data[k]|
      requires 0 < data.Length ==> 0 < |data[0]|
      requires 0 < data.Length && !AutoSelectDimension ==> 0 <= SortDimensionIndex < |data[0]|
      modifies this, data
      ensures eps == old(eps) && eps2 == old(eps2) && MinPts == old(MinPts)
      ensures AutoSelectDimension == old(AutoSelectDimension)
      ensures data.Length == 0 ==> clusters == [] && groups == [] && unchanged(this)
      ensures 0 < data.Length ==> numDimensions == |old(data[0])|
      ensures 0 < data.Length && AutoSelectDimension ==>
        IsChosenDimension(Variances(old(data[..]), numDimensions, welford), SortDimensionIndex)
      ensures 0 < data.Length && !AutoSelectDimension ==> SortDimensionIndex == old(SortDimensionIndex)
      ensures multiset(data[..]) == multiset(old(data[..]))
      ensures 0 < data.Length ==>
        HasDimension(data[..], SortDimensionIndex) && SortedOn(data[..], SortDimensionIndex) &&
        ScanOf(data[..]).Readable() && SortDimensionIndex < numDimensions
      ensures 0 < data.Length && |Neighbours(ScanOf(data[..]), 0)| == data.Length ==>
        groups == [Indices(data.Length)] && clusters == [data[..]]
      ensures 0 < data.Length && |Neighbours(ScanOf(data[..]), 0)| != data.Length ==>
        IsClustering(NeighbourhoodMap(ScanOf(data[..])), MinPts, groups) &&
        GroupsIndex(data[..], groups) && clusters == Gather(data[..], groups)
    {
      if data.Length == 0 {
        clusters, groups := [], [];
        return;
      }
      var dataSize := data.Length;
      OrderPoints(data, welford);
      ghost var sc := ScanOf(data[..]);
      var neighborhoodMap := BuildNeighborhoodMap(data[..]);

      if |neighborhoodMap[0]| == dataSize {
        // One cluster holding every point, in the order of point 0's set.
        var cluster: seq<seq<real>> := [];
        var slice := neighborhoodMap[0];
        for p := 0 to |slice|
          invariant cluster == data[..p]
        {
          cluster := cluster + [data[slice[p]]];
        }
        assert cluster == data[..];
        clusters, groups := [cluster], [slice];
        return;
      }

      var nbrs := neighborhoodMap[..];
      BuiltMapFitsExpander(sc);
      var found := ExpandClusters(nbrs, MinPts);
      ClusteringIndexes(data[..], nbrs, MinPts, found);
      groups := found;
      clusters := Gather(data[..], found);
    }
  }
}
