/** The cluster expander: connected components of the neighbourhood map,
    found by depth-first search from the lowest unvisited index, with
    components smaller than `minPts` dropped as noise. */
module Expansion {

  /** No index occurs twice. */
  predicate NoDup(s: seq<nat>)
  {
    forall p, q :: 0 <= p < q < |s| ==> s[p] != s[q]
  }

  /** Every set of the map names only points of the map. */
  ghost predicate ValidMap(nbrs: seq<seq<nat>>)
  {
    forall k, j :: 0 <= k < |nbrs| && j in nbrs[k] ==> j < |nbrs|
  }

  /** `j` is in the set of `k` exactly when `k` is in the set of `j`. */
  ghost predicate SymmetricMap(nbrs: seq<seq<nat>>)
  {
    forall k, j :: 0 <= k < |nbrs| && 0 <= j < |nbrs| && j in nbrs[k] ==> k in nbrs[j]
  }

  /** Every neighbour of a member of `c` is a member of `c`. */
  ghost predicate Closed(nbrs: seq<seq<nat>>, c: seq<nat>)
  {
    forall x, j :: x in c && x < |nbrs| && j in nbrs[x] ==> j in c
  }

  /** The same, for a set of indices. */
  ghost predicate ClosedSet(nbrs: seq<seq<nat>>, s: set<nat>)
  {
    forall x, j :: x in s && x < |nbrs| && j in nbrs[x] ==> j in s
  }

  /** Every member of `c` after the first is a neighbour of an earlier member:
      `c` was grown from `c[0]` along the map. */
  ghost predicate GrownFrom(nbrs: seq<seq<nat>>, c: seq<nat>)
  {
    forall k :: 0 < k < |c| ==> ReachedFrom(nbrs, c, k, c[k])
  }

  /** `x` is in the set of one of the first `k` members of `c`. */
  ghost predicate ReachedFrom(nbrs: seq<seq<nat>>, c: seq<nat>, k: int, x: nat)
  {
    exists m :: 0 <= m < k && m < |c| && c[m] < |nbrs| && x in nbrs[c[m]]
  }

  /** `x` lies in a closed collection of fewer than `minPts` distinct indices,
      so its component is too small to be kept: it is noise. */
  ghost predicate Noise(nbrs: seq<seq<nat>>, minPts: int, x: nat)
  {
    exists c: seq<nat> :: x in c && NoDup(c) && Closed(nbrs, c) && |c| < minPts
  }

  /** An emitted cluster: non-empty, at least `minPts` distinct indices of
      the map, closed under the map, grown from its first index, which is its
      smallest. */
  ghost predicate GoodCluster(nbrs: seq<seq<nat>>, minPts: int, c: seq<nat>)
  {
    0 < |c| && minPts <= |c| && NoDup(c) && Closed(nbrs, c) && GrownFrom(nbrs, c) &&
    forall x :: x in c ==> c[0] <= x < |nbrs|
  }

  /** The clusters one after the other. */
  function Flatten(cs: seq<seq<nat>>): seq<nat>
  {
    if cs == [] then [] else Flatten(cs[..|cs| - 1]) + cs[|cs| - 1]
  }

  /** What the expander promises: every emitted cluster is good; no index is
      in two clusters or twice in one; every point is in a cluster or is
      noise; clusters come in increasing order of their first index. */
  ghost predicate IsClustering(nbrs: seq<seq<nat>>, minPts: int, clusters: seq<seq<nat>>)
  {
    (forall a :: 0 <= a < |clusters| ==> GoodCluster(nbrs, minPts, clusters[a])) &&
    NoDup(Flatten(clusters)) &&
    (forall x :: 0 <= x < |nbrs| ==> x in Flatten(clusters) || Noise(nbrs, minPts, x)) &&
    forall a, b :: 0 <= a < b < |clusters| ==> clusters[a][0] < clusters[b][0]
  }

  /** Visits every point in index order; from each unvisited one, pops a LIFO
      stack (duplicates on it are skipped as already visited), marks and
      appends each newly reached index and pushes its whole set; keeps the
      component when it has at least `minPts` points. */
  method ExpandClusters(nbrs: seq<seq<nat>>, minPts: int) returns (clusters: seq<seq<nat>>)
    requires ValidMap(nbrs) && SymmetricMap(nbrs)
    ensures IsClustering(nbrs, minPts, clusters)
  {
    var n := |nbrs|;
    var visitedMap := new bool[n](_ => false);
    clusters := [];
    ghost var done: set<nat> := {};
    var pointIndex := 0;
    while pointIndex < n
      invariant 0 <= pointIndex <= n
      invariant forall x :: 0 <= x < n ==> (visitedMap[x] <==> x in done)
      invariant Expanded(nbrs, minPts, done, pointIndex, clusters)
    {
      if visitedMap[pointIndex] {
        ExpandedSkip(nbrs, minPts, done, pointIndex, clusters);
        pointIndex := pointIndex + 1;
        continue;
      }
      var cluster := GrowCluster(nbrs, visitedMap, pointIndex, done);
      if |cluster| >= minPts {
        ExpandedKeep(nbrs, minPts, done, pointIndex, clusters, cluster);
        clusters := clusters + [cluster];
      } else {
        ExpandedDrop(nbrs, minPts, done, pointIndex, clusters, cluster);
      }
      done := done + Members(cluster);
      pointIndex := pointIndex + 1;
    }
    // Every entry of the visited map is now set.
    assert forall x :: 0 <= x < n ==> visitedMap[x];
    ExpandedAll(nbrs, minPts, done, clusters);
  }

  /** The state of the expander once every point below `upto` is visited:
      `done` is the closed set of visited points; the clusters so far are
      good, seeded below `upto` in increasing order, disjoint, and visited;
      every visited point is in a cluster or is noise. */
  ghost predicate Expanded(nbrs: seq<seq<nat>>, minPts: int, done: set<nat>, upto: nat, clusters: seq<seq<nat>>)
  {
    Context(nbrs, done) && (forall x :: 0 <= x < upto ==> x in done) &&
    Kept(nbrs, minPts, upto, clusters) && Accounted(nbrs, minPts, done, clusters)
  }

  /** The clusters so far are good and seeded below `upto`, in increasing
      order of seed. */
  ghost predicate Kept(nbrs: seq<seq<nat>>, minPts: int, upto: nat, clusters: seq<seq<nat>>)
  {
    (forall a :: 0 <= a < |clusters| ==> GoodCluster(nbrs, minPts, clusters[a]) && clusters[a][0] < upto) &&
    (forall a, b :: 0 <= a < b < |clusters| ==> clusters[a][0] < clusters[b][0])
  }

  /** The clusters so far are disjoint and visited, and every visited point
      is in one of them or is noise. */
  ghost predicate Accounted(nbrs: seq<seq<nat>>, minPts: int, done: set<nat>, clusters: seq<seq<nat>>)
  {
    NoDup(Flatten(clusters)) &&
    (forall x :: x in Flatten(clusters) ==> x in done) &&
    (forall x :: x in done ==> x in Flatten(clusters) || Noise(nbrs, minPts, x))
  }

  /** Passing over a point that an earlier search visited. */
  lemma ExpandedSkip(nbrs: seq<seq<nat>>, minPts: int, done: set<nat>, upto: nat, clusters: seq<seq<nat>>)
    requires Expanded(nbrs, minPts, done, upto, clusters) && upto in done
    ensures Expanded(nbrs, minPts, done, upto + 1, clusters)
  {
  }

  /** Once every point is visited, the clusters form a clustering. */
  lemma ExpandedAll(nbrs: seq<seq<nat>>, minPts: int, done: set<nat>, clusters: seq<seq<nat>>)
    requires Expanded(nbrs, minPts, done, |nbrs|, clusters)
    ensures IsClustering(nbrs, minPts, clusters)
  {
  }

  /** What the search from an unvisited `seed` hands back. */
  ghost predicate Grown(nbrs: seq<seq<nat>>, done: set<nat>, seed: nat, cluster: seq<nat>)
  {
    0 < |cluster| && cluster[0] == seed &&
    NoDup(cluster) && Closed(nbrs, cluster) && GrownFrom(nbrs, cluster) &&
    forall x :: x in cluster ==> seed <= x < |nbrs| && x !in done
  }

  /** Adding a closed cluster to the closed visited set keeps it closed. */
  lemma VisitedGrows(nbrs: seq<seq<nat>>, done: set<nat>, seed: nat, cluster: seq<nat>)
    requires Context(nbrs, done) && Grown(nbrs, done, seed, cluster)
    ensures Context(nbrs, done + Members(cluster))
  {
  }

  /** Keeping a component of at least `minPts` points. */
  lemma ExpandedKeep(nbrs: seq<seq<nat>>, minPts: int, done: set<nat>, seed: nat,
                     clusters: seq<seq<nat>>, cluster: seq<nat>)
    requires seed < |nbrs| && Expanded(nbrs, minPts, done, seed, clusters) && seed !in done
    requires Grown(nbrs, done, seed, cluster) && minPts <= |cluster|
    ensures Expanded(nbrs, minPts, done + Members(cluster), seed + 1, clusters + [cluster])
  {
    VisitedGrows(nbrs, done, seed, cluster);
    assert cluster[0] in cluster;
    KeepKept(nbrs, minPts, done, seed, clusters, cluster);
    KeepAccounted(nbrs, minPts, done, seed, clusters, cluster);
  }

  lemma KeepKept(nbrs: seq<seq<nat>>, minPts: int, done: set<nat>, seed: nat,
                 clusters: seq<seq<nat>>, cluster: seq<nat>)
    requires Kept(nbrs, minPts, seed, clusters)
    requires Grown(nbrs, done, seed, cluster) && minPts <= |cluster|
    ensures Kept(nbrs, minPts, seed + 1, clusters + [cluster])
  {
    var cs := clusters + [cluster];
    assert GoodCluster(nbrs, minPts, cluster);
    forall a | 0 <= a < |cs|
      ensures GoodCluster(nbrs, minPts, cs[a]) && cs[a][0] < seed + 1
    {
      if a < |clusters| {
        assert cs[a] == clusters[a];
      }
    }
    forall a, b | 0 <= a < b < |cs|
      ensures cs[a][0] < cs[b][0]
    {
      assert cs[a] == clusters[a];
      if b < |clusters| {
        assert cs[b] == clusters[b];
      }
    }
  }

  lemma KeepAccounted(nbrs: seq<seq<nat>>, minPts: int, done: set<nat>, seed: nat,
                      clusters: seq<seq<nat>>, cluster: seq<nat>)
    requires Accounted(nbrs, minPts, done, clusters)
    requires Grown(nbrs, done, seed, cluster)
    ensures Accounted(nbrs, minPts, done + Members(cluster), clusters + [cluster])
  {
    FlattenAppend(clusters, cluster);
    NoDupConcat(Flatten(clusters), cluster);
  }

  /** Dropping a component smaller than `minPts`: its points are noise. */
  lemma ExpandedDrop(nbrs: seq<seq<nat>>, minPts: int, done: set<nat>, seed: nat,
                     clusters: seq<seq<nat>>, cluster: seq<nat>)
    requires seed < |nbrs| && Expanded(nbrs, minPts, done, seed, clusters) && seed !in done
    requires Grown(nbrs, done, seed, cluster) && |cluster| < minPts
    ensures Expanded(nbrs, minPts, done + Members(cluster), seed + 1, clusters)
  {
    VisitedGrows(nbrs, done, seed, cluster);
    forall x | x in cluster
      ensures Noise(nbrs, minPts, x)
    {
      assert x in cluster && NoDup(cluster) && Closed(nbrs, cluster) && |cluster| < minPts;
    }
  }

  /** The depth-first search from `seed`: pops the top of a LIFO stack,
      skips it when already visited (the stack may hold repeats), otherwise
      marks it visited, appends it to the cluster and pushes every index of
      its set. Starting outside a closed visited set, it collects exactly
      the unvisited points reachable from `seed`. */
  method GrowCluster(nbrs: seq<seq<nat>>, visitedMap: array<bool>, seed: nat, ghost done: set<nat>)
    returns (cluster: seq<nat>)
    requires Context(nbrs, done) && visitedMap.Length == |nbrs|
    requires seed < |nbrs| && seed !in done
    requires forall x :: 0 <= x < |nbrs| ==> (visitedMap[x] <==> x in done)
    requires forall x :: 0 <= x < seed ==> x in done
    modifies visitedMap
    ensures forall x :: 0 <= x < |nbrs| ==> (visitedMap[x] <==> x in done || x in cluster)
    ensures Grown(nbrs, done, seed, cluster)
  {
    var n := |nbrs|;
    cluster := [];
    var stack: seq<nat> := [seed];
    while stack != []
      invariant Dfs(nbrs, visitedMap[..], done, seed, cluster, stack)
      decreases Unvisited(visitedMap[..]), |stack|
    {
      var top := stack[|stack| - 1];
      ghost var visited := visitedMap[..];
      DfsTop(nbrs, visited, done, seed, cluster, stack);
      if visitedMap[top] {
        DfsSkip(nbrs, visited, done, seed, cluster, stack);
        stack := stack[..|stack| - 1];
        continue;
      }
      DfsVisit(nbrs, visited, done, seed, cluster, stack);
      stack := stack[..|stack| - 1];
      cluster := cluster + [top];
      visitedMap[top] := true;
      assert visitedMap[..] == visited[top := true];
      UnvisitedShrinks(visited, top);
      stack := stack + nbrs[top];
    }
    DfsFinish(nbrs, visitedMap[..], done, seed, cluster);
  }

  /** The map is well formed and symmetric, and `done` is a closed set of its points. */
  ghost predicate Context(nbrs: seq<seq<nat>>, done: set<nat>)
  {
    ValidMap(nbrs) && SymmetricMap(nbrs) && ClosedSet(nbrs, done) &&
    forall x :: x in done ==> x < |nbrs|
  }

  /** The state of the search from `seed`: the visited marks are the points
      of `done` and of the growing cluster; the cluster and the stack lie
      outside `done`; every neighbour of a member is a member or still on the
      stack; every stacked index other than the seed was pushed by a member. */
  ghost predicate Dfs(nbrs: seq<seq<nat>>, visited: seq<bool>, done: set<nat>, seed: nat,
                      cluster: seq<nat>, stack: seq<nat>)
  {
    Context(nbrs, done) && (forall x :: 0 <= x < seed ==> x in done) &&
    Marks(nbrs, visited, done, cluster) &&
    Places(nbrs, done, seed, cluster, stack) && Frontier(nbrs, cluster, stack) &&
    Parents(nbrs, seed, cluster, stack)
  }

  /** A point is marked exactly when it is done or in the cluster. */
  ghost predicate Marks(nbrs: seq<seq<nat>>, visited: seq<bool>, done: set<nat>, cluster: seq<nat>)
  {
    |visited| == |nbrs| &&
    forall x :: 0 <= x < |nbrs| ==> (visited[x] <==> x in done || x in cluster)
  }

  /** The cluster starts at the seed and has no repeats; it and the stack are
      points of the map outside `done`. */
  ghost predicate Places(nbrs: seq<seq<nat>>, done: set<nat>, seed: nat, cluster: seq<nat>, stack: seq<nat>)
  {
    NoDup(cluster) &&
    (forall x :: x in cluster ==> seed <= x < |nbrs| && x !in done) &&
    (forall s :: s in stack ==> seed <= s < |nbrs| && s !in done) &&
    (cluster == [] ==> stack == [seed]) &&
    (cluster != [] ==> cluster[0] == seed)
  }

  /** Every neighbour of a member is a member or on the stack. */
  ghost predicate Frontier(nbrs: seq<seq<nat>>, cluster: seq<nat>, stack: seq<nat>)
  {
    forall x, j :: x in cluster && x < |nbrs| && j in nbrs[x] ==> j in cluster || j in stack
  }

  /** The cluster was grown from the seed, and every stacked index other
      than the seed was pushed by a member. */
  ghost predicate Parents(nbrs: seq<seq<nat>>, seed: nat, cluster: seq<nat>, stack: seq<nat>)
  {
    GrownFrom(nbrs, cluster) &&
    forall s :: s in stack && s != seed ==> ReachedFrom(nbrs, cluster, |cluster|, s)
  }

  /** The top of a non-empty stack is a point of the map. */
  lemma DfsTop(nbrs: seq<seq<nat>>, visited: seq<bool>, done: set<nat>, seed: nat,
               cluster: seq<nat>, stack: seq<nat>)
    requires Dfs(nbrs, visited, done, seed, cluster, stack) && stack != []
    ensures stack[|stack| - 1] < |nbrs|
  {
    assert stack[|stack| - 1] in stack;
  }

  /** Popping an index that is already visited changes nothing else. */
  lemma DfsSkip(nbrs: seq<seq<nat>>, visited: seq<bool>, done: set<nat>, seed: nat,
                cluster: seq<nat>, stack: seq<nat>)
    requires Dfs(nbrs, visited, done, seed, cluster, stack) && stack != []
    requires stack[|stack| - 1] < |nbrs| && visited[stack[|stack| - 1]]
    ensures Dfs(nbrs, visited, done, seed, cluster, stack[..|stack| - 1])
  {
    SkipPlaces(nbrs, visited, done, seed, cluster, stack);
    SkipFrontier(nbrs, visited, done, seed, cluster, stack);
    SkipParents(nbrs, visited, done, seed, cluster, stack);
  }

  lemma SkipPlaces(nbrs: seq<seq<nat>>, visited: seq<bool>, done: set<nat>, seed: nat,
                   cluster: seq<nat>, stack: seq<nat>)
    requires Marks(nbrs, visited, done, cluster) && Places(nbrs, done, seed, cluster, stack) && stack != []
    requires stack[|stack| - 1] < |nbrs| && visited[stack[|stack| - 1]]
    ensures Places(nbrs, done, seed, cluster, stack[..|stack| - 1])
  {
    var top, rest := stack[|stack| - 1], stack[..|stack| - 1];
    assert stack == rest + [top];
    assert top in stack;
    assert top in cluster;
    assert cluster != [];
    forall s | s in rest
      ensures seed <= s < |nbrs| && s !in done
    {
      assert s in stack;
    }
  }

  lemma SkipFrontier(nbrs: seq<seq<nat>>, visited: seq<bool>, done: set<nat>, seed: nat,
                     cluster: seq<nat>, stack: seq<nat>)
    requires Marks(nbrs, visited, done, cluster) && Places(nbrs, done, seed, cluster, stack)
    requires Frontier(nbrs, cluster, stack) && stack != []
    requires stack[|stack| - 1] < |nbrs| && visited[stack[|stack| - 1]]
    ensures Frontier(nbrs, cluster, stack[..|stack| - 1])
  {
    var top, rest := stack[|stack| - 1], stack[..|stack| - 1];
    assert stack == rest + [top];
    assert top in stack;
    assert top in cluster;
    forall x, j | x in cluster && x < |nbrs| && j in nbrs[x]
      ensures j in cluster || j in rest
    {
      assert j in cluster || j in stack;
    }
  }

  lemma SkipParents(nbrs: seq<seq<nat>>, visited: seq<bool>, done: set<nat>, seed: nat,
                    cluster: seq<nat>, stack: seq<nat>)
    requires Parents(nbrs, seed, cluster, stack) && stack != []
    ensures Parents(nbrs, seed, cluster, stack[..|stack| - 1])
  {
    var top, rest := stack[|stack| - 1], stack[..|stack| - 1];
    assert stack == rest + [top];
  }

  /** Popping an unvisited index marks it, appends it to the cluster and
      pushes its whole set. */
  lemma DfsVisit(nbrs: seq<seq<nat>>, visited: seq<bool>, done: set<nat>, seed: nat,
                 cluster: seq<nat>, stack: seq<nat>)
    requires Dfs(nbrs, visited, done, seed, cluster, stack) && stack != []
    requires stack[|stack| - 1] < |nbrs| && !visited[stack[|stack| - 1]]
    ensures var top := stack[|stack| - 1];
      Dfs(nbrs, visited[top := true], done, seed, cluster + [top], stack[..|stack| - 1] + nbrs[top])
  {
    VisitMarks(nbrs, visited, done, seed, cluster, stack);
    VisitPlaces(nbrs, visited, done, seed, cluster, stack);
    VisitFrontier(nbrs, visited, done, seed, cluster, stack);
    VisitParents(nbrs, visited, done, seed, cluster, stack);
  }

  lemma VisitMarks(nbrs: seq<seq<nat>>, visited: seq<bool>, done: set<nat>, seed: nat,
                   cluster: seq<nat>, stack: seq<nat>)
    requires Dfs(nbrs, visited, done, seed, cluster, stack) && stack != []
    requires stack[|stack| - 1] < |nbrs| && !visited[stack[|stack| - 1]]
    ensures var top := stack[|stack| - 1];
      Marks(nbrs, visited[top := true], done, cluster + [top])
  {
  }

  lemma VisitPlaces(nbrs: seq<seq<nat>>, visited: seq<bool>, done: set<nat>, seed: nat,
                    cluster: seq<nat>, stack: seq<nat>)
    requires Context(nbrs, done) && (forall x :: 0 <= x < seed ==> x in done)
    requires Marks(nbrs, visited, done, cluster) && Places(nbrs, done, seed, cluster, stack) && stack != []
    requires stack[|stack| - 1] < |nbrs| && !visited[stack[|stack| - 1]]
    ensures var top := stack[|stack| - 1];
      Places(nbrs, done, seed, cluster + [top], stack[..|stack| - 1] + nbrs[top])
  {
    var top, rest := stack[|stack| - 1], stack[..|stack| - 1];
    assert stack == rest + [top];
    assert top in stack;
    AppendFresh(cluster, top);
    forall s | s in rest
      ensures seed <= s < |nbrs| && s !in done
    {
      assert s in stack;
    }
    PushedOutside(nbrs, done, seed, rest, top);
    if cluster == [] {
      assert top == seed;
    } else {
      assert (cluster + [top])[0] == cluster[0];
    }
  }

  /** Appending an index not yet present keeps a sequence free of repeats. */
  lemma AppendFresh(c: seq<nat>, x: nat)
    requires NoDup(c) && x !in c
    ensures NoDup(c + [x])
  {
    forall p, q | 0 <= p < q < |c| + 1
      ensures (c + [x])[p] != (c + [x])[q]
    {
      if q == |c| {
        assert c[p] in c;
      }
    }
  }

  /** Pushing the set of a point outside the closed set `done` pushes only
      points outside it; they are at or above the seed because every point
      below the seed is done. */
  lemma PushedOutside(nbrs: seq<seq<nat>>, done: set<nat>, seed: nat, rest: seq<nat>, top: nat)
    requires Context(nbrs, done) && forall x :: 0 <= x < seed ==> x in done
    requires top < |nbrs| && top !in done
    requires forall s :: s in rest ==> seed <= s < |nbrs| && s !in done
    ensures forall s :: s in rest + nbrs[top] ==> seed <= s < |nbrs| && s !in done
  {
    forall s | s in nbrs[top]
      ensures seed <= s < |nbrs| && s !in done
    {
      assert top in nbrs[s];
    }
  }

  lemma VisitFrontier(nbrs: seq<seq<nat>>, visited: seq<bool>, done: set<nat>, seed: nat,
                      cluster: seq<nat>, stack: seq<nat>)
    requires Dfs(nbrs, visited, done, seed, cluster, stack) && stack != []
    requires stack[|stack| - 1] < |nbrs| && !visited[stack[|stack| - 1]]
    ensures var top := stack[|stack| - 1];
      Frontier(nbrs, cluster + [top], stack[..|stack| - 1] + nbrs[top])
  {
    var top, rest := stack[|stack| - 1], stack[..|stack| - 1];
    assert stack == rest + [top];
    var c' := cluster + [top];
    var stack' := rest + nbrs[top];
    forall x, j | x in c' && x < |nbrs| && j in nbrs[x]
      ensures j in c' || j in stack'
    {
      if x != top {
        assert x in cluster;
        assert j in cluster || j in stack;
      }
    }
  }

  lemma VisitParents(nbrs: seq<seq<nat>>, visited: seq<bool>, done: set<nat>, seed: nat,
                     cluster: seq<nat>, stack: seq<nat>)
    requires Dfs(nbrs, visited, done, seed, cluster, stack) && stack != []
    requires stack[|stack| - 1] < |nbrs| && !visited[stack[|stack| - 1]]
    ensures var top := stack[|stack| - 1];
      Parents(nbrs, seed, cluster + [top], stack[..|stack| - 1] + nbrs[top])
  {
    var top, rest := stack[|stack| - 1], stack[..|stack| - 1];
    assert stack == rest + [top];
    var c' := cluster + [top];
    var stack' := rest + nbrs[top];
    assert top in stack;
    if cluster != [] {
      assert cluster[0] in cluster;
      assert top != seed;
    }
    GrowsAlong(nbrs, cluster, top, seed);
    forall s | s in stack' && s != seed
      ensures ReachedFrom(nbrs, c', |c'|, s)
    {
      if s in nbrs[top] {
        assert c'[|cluster|] == top;
      } else {
        assert s in stack;
        ReachedFromGrows(nbrs, cluster, |cluster|, c', |c'|, s);
      }
    }
  }

  /** The indices not yet visited. */
  ghost function Unvisited(visited: seq<bool>): set<nat>
  {
    set x: nat | x < |visited| && !visited[x]
  }

  /** Marking an unvisited index removes it from the unvisited ones. */
  lemma UnvisitedShrinks(visited: seq<bool>, top: nat)
    requires top < |visited| && !visited[top]
    ensures Unvisited(visited[top := true]) < Unvisited(visited)
  {
    assert top in Unvisited(visited);
  }

  /** When the stack is empty the cluster is closed under the map. */
  lemma DfsFinish(nbrs: seq<seq<nat>>, visited: seq<bool>, done: set<nat>, seed: nat, cluster: seq<nat>)
    requires Dfs(nbrs, visited, done, seed, cluster, [])
    ensures 0 < |cluster| && Closed(nbrs, cluster)
  {
  }

  /** Appending a newly reached index keeps a cluster grown from its seed. */
  lemma GrowsAlong(nbrs: seq<seq<nat>>, c: seq<nat>, top: nat, seed: nat)
    requires GrownFrom(nbrs, c)
    requires c == [] ==> top == seed
    requires c != [] ==> c[0] == seed && top != seed && ReachedFrom(nbrs, c, |c|, top)
    ensures GrownFrom(nbrs, c + [top])
  {
    var c' := c + [top];
    forall k | 0 < k < |c'|
      ensures ReachedFrom(nbrs, c', k, c'[k])
    {
      var m :| 0 <= m < k && m < |c| && c[m] < |nbrs| && c'[k] in nbrs[c[m]];
      assert c'[m] == c[m];
    }
  }

  /** A longer prefix, or a longer sequence, still has the parent. */
  lemma ReachedFromGrows(nbrs: seq<seq<nat>>, c: seq<nat>, k: int, c': seq<nat>, k': int, x: nat)
    requires ReachedFrom(nbrs, c, k, x)
    requires k <= k' && c <= c'
    ensures ReachedFrom(nbrs, c', k', x)
  {
    var m :| 0 <= m < k && m < |c| && c[m] < |nbrs| && x in nbrs[c[m]];
    assert c'[m] == c[m];
  }

  /** Flattening one more cluster appends it. */
  lemma FlattenAppend(cs: seq<seq<nat>>, c: seq<nat>)
    ensures Flatten(cs + [c]) == Flatten(cs) + c
  {
    assert (cs + [c])[..|cs|] == cs;
  }

  /** Two sequences without repeats and without common members concatenate
      to one without repeats. */
  lemma NoDupConcat(a: seq<nat>, b: seq<nat>)
    requires NoDup(a) && NoDup(b)
    requires forall x :: x in a ==> x !in b
    ensures NoDup(a + b)
  {
    forall p, q | 0 <= p < q < |a + b|
      ensures (a + b)[p] != (a + b)[q]
    {
      if p < |a| && |a| <= q {
        assert a[p] in a;
        assert b[q - |a|] in b;
      }
    }
  }

  /** A closed set holding the first member of a grown sequence holds its
      first `k` members. */
  lemma {:induction false} GrownInside(nbrs: seq<seq<nat>>, c: seq<nat>, S: set<nat>, k: nat)
    requires GrownFrom(nbrs, c) && 0 < |c| && c[0] in S && ClosedSet(nbrs, S) && k <= |c|
    ensures forall i :: 0 <= i < k ==> c[i] in S
  {
    if k > 1 {
      GrownInside(nbrs, c, S, k - 1);
      assert ReachedFrom(nbrs, c, k - 1, c[k - 1]);
      var m :| 0 <= m < k - 1 && m < |c| && c[m] < |nbrs| && c[k - 1] in nbrs[c[m]];
      assert c[m] in S;
    }
  }

  /** Under a symmetric map, a closed set holding any member of a grown
      sequence holds its first member. */
  lemma {:induction false} BackToSeed(nbrs: seq<seq<nat>>, c: seq<nat>, S: set<nat>, k: nat)
    requires SymmetricMap(nbrs) && GrownFrom(nbrs, c) && ClosedSet(nbrs, S)
    requires forall x :: x in c ==> x < |nbrs|
    requires k < |c| && c[k] in S
    ensures c[0] in S
    decreases k
  {
    if k > 0 {
      assert ReachedFrom(nbrs, c, k, c[k]);
      var m :| 0 <= m < k && m < |c| && c[m] < |nbrs| && c[k] in nbrs[c[m]];
      assert c[k] in c;
      assert c[m] in nbrs[c[k]];
      BackToSeed(nbrs, c, S, m);
    }
  }

  /** An emitted cluster is a whole connected component: a closed set that
      meets it contains all of it. */
  lemma ClusterIsComponent(nbrs: seq<seq<nat>>, minPts: int, c: seq<nat>, S: set<nat>, x: nat)
    requires SymmetricMap(nbrs) && GoodCluster(nbrs, minPts, c) && ClosedSet(nbrs, S)
    requires x in c && x in S
    ensures forall y :: y in c ==> y in S
  {
    var k :| 0 <= k < |c| && c[k] == x;
    BackToSeed(nbrs, c, S, k);
    GrownInside(nbrs, c, S, |c|);
  }

  /** The indices occurring in `s`. */
  function Members(s: seq<nat>): (r: set<nat>)
    ensures forall x :: x in r <==> x in s
  {
    if s == [] then {} else Members(s[..|s| - 1]) + {s[|s| - 1]}
  }

  /** The distinct members of a sequence are no more than its length, and as
      many when it has no repeats. */
  lemma {:induction false} MembersCount(s: seq<nat>)
    ensures |Members(s)| <= |s|
    ensures NoDup(s) ==> |Members(s)| == |s|
  {
    if s != [] {
      var t, last := s[..|s| - 1], s[|s| - 1];
      MembersCount(t);
      var A := Members(t);
      if last in A {
        assert Members(s) == A;
      } else {
        assert |A + {last}| == |A| + 1;
      }
      if NoDup(s) {
        assert NoDup(t);
        forall i | 0 <= i < |t|
          ensures t[i] != last
        {
          assert t[i] == s[i];
        }
      }
    }
  }

  /** A subset has at most as many members. */
  lemma {:induction false} SubsetCount(A: set<nat>, B: set<nat>)
    requires A <= B
    ensures |A| <= |B|
    decreases A
  {
    if A != {} {
      var a :| a in A;
      SubsetCount(A - {a}, B - {a});
    }
  }

  /** No member of an emitted cluster is noise. */
  lemma ClusterNotNoise(nbrs: seq<seq<nat>>, minPts: int, c: seq<nat>, x: nat)
    requires SymmetricMap(nbrs) && GoodCluster(nbrs, minPts, c) && x in c
    ensures !Noise(nbrs, minPts, x)
  {
    if Noise(nbrs, minPts, x) {
      var c' :| x in c' && NoDup(c') && Closed(nbrs, c') && |c'| < minPts;
      var S, C := Members(c'), Members(c);
      ClusterIsComponent(nbrs, minPts, c, S, x);
      assert C <= S;
      SubsetCount(C, S);
      MembersCount(c);
      MembersCount(c');
    }
  }

  /** A member of the flattened clusters is a member of one of them. */
  lemma {:induction false} FlattenMember(cs: seq<seq<nat>>, x: nat)
    requires x in Flatten(cs)
    ensures exists a :: 0 <= a < |cs| && x in cs[a]
  {
    var init := cs[..|cs| - 1];
    if x in Flatten(init) {
      FlattenMember(init, x);
      var a :| 0 <= a < |init| && x in init[a];
      assert cs[a] == init[a];
    } else {
      assert x in cs[|cs| - 1];
    }
  }

  /** In a clustering, a point lies in an emitted cluster exactly when it is
      not noise. */
  lemma ClusteredIffNotNoise(nbrs: seq<seq<nat>>, minPts: int, clusters: seq<seq<nat>>, x: nat)
    requires SymmetricMap(nbrs) && IsClustering(nbrs, minPts, clusters) && x < |nbrs|
    ensures x in Flatten(clusters) <==> !Noise(nbrs, minPts, x)
  {
    if x in Flatten(clusters) {
      FlattenMember(clusters, x);
      var a :| 0 <= a < |clusters| && x in clusters[a];
      ClusterNotNoise(nbrs, minPts, clusters[a], x);
    }
  }

  /** Every edge of `nbrs` is an edge of `more`. */
  ghost predicate SubMap(nbrs: seq<seq<nat>>, more: seq<seq<nat>>)
  {
    |nbrs| == |more| && forall k, j :: 0 <= k < |nbrs| && j in nbrs[k] ==> j in more[k]
  }

  /** A collection closed under a map is closed under any map with fewer
      edges. */
  lemma ClosedUnderSubMap(nbrs: seq<seq<nat>>, more: seq<seq<nat>>, d: seq<nat>)
    requires SubMap(nbrs, more) && Closed(more, d)
    ensures Closed(nbrs, d) && ClosedSet(nbrs, Members(d))
  {
    forall x, j | x in d && x < |nbrs| && j in nbrs[x]
      ensures j in d
    {
      assert j in more[x];
    }
  }

  /** Adding edges to the map only merges clusters: every cluster of a
      clustering of `nbrs` lies inside one cluster of a clustering of a map
      with more edges, for the same `minPts`. */
  lemma ComponentsOnlyMerge(nbrs: seq<seq<nat>>, more: seq<seq<nat>>, minPts: int,
                            clusters: seq<seq<nat>>, merged: seq<seq<nat>>, a: int)
    requires SymmetricMap(nbrs) && SymmetricMap(more) && SubMap(nbrs, more)
    requires IsClustering(nbrs, minPts, clusters) && IsClustering(more, minPts, merged)
    requires 0 <= a < |clusters|
    ensures exists b :: 0 <= b < |merged| && forall y :: y in clusters[a] ==> y in merged[b]
  {
    var c := clusters[a];
    assert GoodCluster(nbrs, minPts, c);
    var x := c[0];
    assert x in c;
    ClusterNotNoise(nbrs, minPts, c, x);
    if Noise(more, minPts, x) {
      var d: seq<nat> :| x in d && NoDup(d) && Closed(more, d) && |d| < minPts;
      ClosedUnderSubMap(nbrs, more, d);
      assert false;
    }
    ClusteredIffNotNoise(more, minPts, merged, x);
    FlattenMember(merged, x);
    var b :| 0 <= b < |merged| && x in merged[b];
    assert GoodCluster(more, minPts, merged[b]);
    ClosedUnderSubMap(nbrs, more, merged[b]);
    ClusterIsComponent(nbrs, minPts, c, Members(merged[b]), x);
  }
}
