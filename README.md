# DBSCAN clusterer — a verified Dafny model

This project models the clustering engine of go-DBSCAN (`DBSCANclusterer.go`).
Points are sequences of exact real coordinates. The engine groups points that
are linked by chains of points within a radius `eps`. It works in five steps:

1. **Dimension choice.** When `AutoSelectDimension` is on, it picks the
   dimension whose variance is largest.
2. **Sort.** It sorts the caller's points in place, ascending on that dimension.
3. **Neighbourhood map.** One forward scan per point builds the map. Each scan
   stops at the first point lying more than `eps` above the scanning point on
   the ordering dimension, and records an edge both ways for every pair within
   `eps2 = eps * eps`.
4. **Early exit.** When the set of point 0 already holds every point, all the
   points are returned as one cluster. `MinPts` is not checked on this path.
5. **Expansion.** Otherwise a depth-first search runs from each unvisited point
   in index order, using a visited array and a LIFO stack that may hold repeats.
   Every component with at least `MinPts` points is emitted as a cluster. The
   other components are noise.

Modules, one file each:

- `Distance` (`distance.dfy`): the squared distance `Dist2` and its laws.
- `Ordering` (`ordering.dfy`): the in-place sort on one dimension.
- `Neighbourhood` (`neighbourhood.dfy`): the specification of the map. It has
  the window relation `Linked`, the completed map `NeighbourhoodMap`, and the
  proof that the window loses no pair within the radius. It also has the
  per-step lemmas that the builder is proved against.
- `Expansion` (`expansion.dfy`): the depth-first expander on indices, and the
  proof that its clusters are whole connected components while everything else
  is noise.
- `DimensionChoice` (`dimension.dfy`): the variances and the argmax rule.
- `DBSCAN` (`clusterer.dfy`): the class `DBSCANClusterer`. Its fields, methods
  and loops follow the Go struct.

In the dimension choice the model follows the code, which compares with
`maxV <= v` starting from `maxV = 0` at index 0. Ties therefore go to the
LAST maximal dimension. When every variance is 0, for example with fewer than
two points, the last dimension is chosen, not dimension 0. The selection falls
back to 0 only when there are no dimensions or every value is negative.

## Model

| member | source | states |
|---|---|---|
| Distance.Dist2NonNegative | DBSCANclusterer.go:119-125 | the summed squared coordinate differences are never negative |
| Distance.Dist2Symmetric | DBSCANclusterer.go:119-125 | the distance does not depend on the order of the two points |
| Distance.Dist2Zero | DBSCANclusterer.go:119-125 | points agreeing on the measured coordinates are at distance 0 |
| Distance.Dist2Dominates | DBSCANclusterer.go:146-149 | the squared gap on one measured dimension is at most the full squared distance, which is what makes the scan's stop condition safe |
| Ordering.SortByDimension | DBSCANclusterer.go:60-63 | the caller's points are permuted in place so that the ordering coordinate never decreases (the property clusterablePoint_test.go checks) |
| Ordering.InsertInto | DBSCANclusterer.go:60-63 | moving one point left past the larger ones extends the sorted prefix by one and permutes the points |
| Neighbourhood.IndicesWhere | DBSCANclusterer.go:133-157 | the indices of a range that satisfy a condition, strictly increasing, inside the range, and holding exactly the ones that satisfy it |
| Neighbourhood.Neighbours | DBSCANclusterer.go:133-157 | each completed set is strictly increasing and holds exactly the point itself and the points linked to it by either point's scan |
| Neighbourhood.IncreasingFull | DBSCANclusterer.go:164-166 | a set of distinct indices below `n` holds `n` entries exactly when it holds every index, which is why the size test detects one all-covering set |
| Neighbourhood.MapShape | DBSCANclusterer.go:144-154 | every set holds its own point, only indices of points and no repeats, and `j` is in the set of `k` exactly when `k` is in the set of `j` |
| Neighbourhood.FirstSetFull | DBSCANclusterer.go:164-166 | point 0's set has one entry per point exactly when its scan linked every later point, and it is then `0 .. n-1` |
| Neighbourhood.ScanReachesClose | DBSCANclusterer.go:146 | on sorted points with `eps2 == eps*eps >= 0`, an earlier point's scan always reaches a later point within the radius |
| Neighbourhood.NeighbourIffClose | DBSCANclusterer.go:146-149 | under the same conditions, two distinct points are neighbours exactly when their squared distance is at most `eps2` |
| Neighbourhood.WindowIsSound | DBSCANclusterer.go:133-157 | the same for every pair of distinct points of the completed map |
| Neighbourhood.MapBeforeScans | DBSCANclusterer.go:130 | with every set empty, the map is what zero scans have built |
| Neighbourhood.ScanBegins | DBSCANclusterer.go:141-144 | a scan starts by adding its own index to its own set |
| Neighbourhood.ScanSteps | DBSCANclusterer.go:146-155 | examining a point inside the window adds the edge both ways exactly when the distance is within `eps2` |
| Neighbourhood.ScanEnds | DBSCANclusterer.go:146 | at the end of the points or the first point past `head + eps` the scan is complete |
| Neighbourhood.AllScansBuildMap | DBSCANclusterer.go:168-171 | once every scan has run, the sets are the completed map |
| Neighbourhood.FirstSetAfterFirstScan | DBSCANclusterer.go:162-166 | after the scan from point 0, point 0's set is already complete |
| Neighbourhood.OtherSetsAfterFullFirstScan | DBSCANclusterer.go:162-166 | when the scan from point 0 linked every later point, that scan alone leaves every other set holding just `0` |
| Expansion.ExpandClusters | DBSCANclusterer.go:84-115 | every emitted cluster has at least `MinPts` distinct points, is closed under the map and was grown from its first index, which is its smallest; no index is in two clusters; clusters come in increasing order of first index; every point not emitted is noise |
| Expansion.ExpandedSkip | DBSCANclusterer.go:85-87 | passing over a point an earlier search visited keeps the expander's state |
| Expansion.ExpandedKeep | DBSCANclusterer.go:110-112 | emitting a component of at least `MinPts` points keeps the clusters good, disjoint, visited and in seed order |
| Expansion.ExpandedDrop | DBSCANclusterer.go:110-114 | dropping a smaller component leaves every point of it noise |
| Expansion.ExpandedAll | DBSCANclusterer.go:84-116 | once every point is visited, the clusters are a clustering |
| Expansion.GrowCluster | DBSCANclusterer.go:89-108 | the search from the seed marks exactly the unvisited points it collects; the collection starts at the seed, has no repeats, is closed under the map, and lies at or above the seed |
| Expansion.DfsTop | DBSCANclusterer.go:94-97 | the popped index is a point of the map |
| Expansion.DfsSkip | DBSCANclusterer.go:98-100 | popping an already visited index keeps the search state |
| Expansion.DfsVisit | DBSCANclusterer.go:102-107 | marking, appending and pushing the whole set of a newly popped index keeps the search state |
| Expansion.DfsFinish | DBSCANclusterer.go:92 | when the stack is empty the collected cluster is closed under the map |
| Expansion.GrownInside | DBSCANclusterer.go:102-106 | a closed set holding the first member of a grown cluster holds all of it |
| Expansion.BackToSeed | DBSCANclusterer.go:102-106 | under a symmetric map, a closed set holding any member of a grown cluster holds its first member |
| Expansion.ClusterIsComponent | DBSCANclusterer.go:89-108 | an emitted cluster is a whole component: a closed set meeting it contains it |
| Expansion.ClusterNotNoise | DBSCANclusterer.go:110-112 | no member of an emitted cluster lies in a closed collection smaller than `MinPts` |
| Expansion.ClusteredIffNotNoise | DBSCANclusterer.go:84-115 | a point is in some emitted cluster exactly when it is not noise |
| Expansion.ClosedUnderSubMap | DBSCANclusterer.go:84-115 | a collection closed under a map is closed under any map with fewer edges |
| Expansion.ComponentsOnlyMerge | DBSCANclusterer.go:84-115 | for the same `MinPts`, every cluster of a clustering of a map lies inside one cluster of a clustering of a map with more edges |
| DimensionChoice.Variance | DBSCANclusterer.go:208-217 | fewer than two points have variance 0; otherwise the value is the one-pass accumulation's |
| DimensionChoice.ChosenDimensionUnique | DBSCANclusterer.go:195-205 | the chosen dimension is determined by the variances and is one of them whenever there is one |
| DimensionChoice.FewPointsPickLast | DBSCANclusterer.go:215-217 | with fewer than two points every variance is 0 and the last dimension is chosen |
| DimensionChoice.StrictMaximumChosen | DBSCANclusterer.go:195-205 | a non-negative variance strictly above all others is the one chosen |
| DBSCAN.ClustersAreRadiusClosed | DBSCANclusterer.go:65-115 | on sorted points with `eps2 == eps*eps >= 0`, every point within the radius of a cluster member is in that cluster |
| DBSCAN.EdgesGrow | DBSCANclusterer.go:146-155 | on the same sorted points, a larger exact radius gives a map holding every edge of the smaller one |
| DBSCAN.ClustersOnlyMerge | DBSCANclusterer.go:78-115 | raising `eps` never splits a cluster of the expander: each cluster of the completed map at the smaller radius lies inside one at the larger, for the same `MinPts`. With `EarlyExitPersists` this covers every path of `Cluster`, since an early exit at the larger radius puts every point in one cluster |
| DBSCAN.EarlyExitPersists | DBSCANclusterer.go:65-77 | raising `eps` keeps the early exit: when point 0's set holds every point at the smaller radius, it does at the larger, so the single all-points cluster is never split |
| DBSCAN.DBSCANClusterer.constructor | DBSCANclusterer.go:18-26 | sets `eps`, `eps2 == eps*eps`, `MinPts` and auto-selection on; every other field is zero |
| DBSCAN.DBSCANClusterer.SetEps | DBSCANclusterer.go:31-34 | sets `eps` and `eps2 == eps*eps`, so `GetEps()` returns the new radius; no other field changes |
| DBSCAN.DBSCANClusterer.GetEps | DBSCANclusterer.go:28-30 | returns the radius `eps`, the one the constructor or the last `SetEps` stored |
| DBSCAN.DBSCANClusterer.CalcDistance | DBSCANclusterer.go:119-125 | the accumulator loop computes `Dist2` over the first `numDimensions` coordinates, which is never negative |
| DBSCAN.DBSCANClusterer.ScanFrom | DBSCANclusterer.go:133-157 | one scan turns the map of the scans below `start` into the map of the scans up to `start` |
| DBSCAN.DBSCANClusterer.BuildNeighborhoodMap | DBSCANclusterer.go:127-174 | point 0's set is complete; when it holds every point it is `0 .. n-1` and the build stops after that one scan, so every other set holds just `0`; otherwise the result is the completed map |
| DBSCAN.DBSCANClusterer.PredictDimensionByMaxVariance | DBSCANclusterer.go:179-206 | returns the last dimension of maximal variance, or 0 when none is non-negative |
| DBSCAN.DBSCANClusterer.OrderPoints | DBSCANclusterer.go:54-63 | records the dimensions of the first point, chooses the ordering dimension when auto-selection is on (keeps it otherwise), and sorts the points in place on it |
| DBSCAN.DBSCANClusterer.Cluster | DBSCANclusterer.go:41-117 | no points give no clusters and change nothing; otherwise it records the dimensions and the chosen dimension, sorts the points in place, and returns either all points as one cluster (early exit) or the points of a clustering of the completed map |

## Left out

- Floating point: coordinates, `eps`, `eps2` and distances are exact reals, so rounding in `CalcDistance` and in `eps * eps` is not modelled.
- Goroutines and `sync.WaitGroup` in `BuildNeighborhoodMap` and `PredictDimensionByMaxVariance`: both run as sequential loops, so the model describes the race-free outcome of the concurrent build. In the Go code the order inside each set depends on scheduling. Worse, a set is created lazily without synchronisation (DBSCANclusterer.go:141-142 and 151-152): two goroutines can both find it missing and each install a new queue, and an edge added to the queue that is overwritten is lost. The sets, their symmetry and the clusters of a concurrent run can therefore differ from the model's. That race is not modelled.
- `ConcurrentQueue_InsertOnly` is not part of this model. Each set is a `seq<nat>` entry of an array: `Add` appends, `Size` is the length and `Slice` is the sequence. The lazy creation of a set on first use is replaced by creating every set empty up front.
- Variance: the one-pass mean and deviation accumulation of `Variance` (DBSCANclusterer.go:218-224) is a caller-supplied function `welford`. Only the "fewer than two points gives 0" case is modelled.
- `ClusterablePoint`, `NamedPoint` and `ClusterablePointSlice.Sort` are not part of this model. A point is its coordinate sequence, and the sort is an insertion sort that promises only "sorted and a permutation". Stability is not claimed.
- Cluster: requires a non-zero number of coordinates in the first point, no point shorter than the first, and a sort dimension in range when auto-selection is off. The model excludes shorter points altogether. The code reads out of range whenever it reads a coordinate such a point lacks. That happens in `Variance` (DBSCANclusterer.go:219, with auto-selection on and at least two points). It happens in the sort and in the window reads at DBSCANclusterer.go:139 and 146 when the point lacks the ordering coordinate. It happens in `CalcDistance` (DBSCANclusterer.go:122) whenever the point is one of the two measured, as the head of its own scan or as a point another scan reaches. Only a shorter point that has the ordering coordinate and is never measured goes through the code, and the model does not cover that input. Longer points are accepted, as in the code, which measures only the first point's dimensions.
- Cluster: the expander works on indices, and `Cluster` maps each index group to its points afterwards. The Go code appends points during the search. Both give the same points in the same order.
- ExpandClusters: "every visited entry is true at the end" is asserted at the end of the loop. It is not a postcondition, because the visited array is local.
- BuildNeighborhoodMap: requires at least one point, since the scan from point 0 reads it. `Cluster` returns before calling it on empty input.
- The concrete scenarios of DBSCANclusterer_test.go are not restated as lemmas. The concurrency stress test concurrentQueue_test.go is not modelled either.
