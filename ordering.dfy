/** The ordering step: points sorted ascending on the coordinate at one
    dimension, so that a forward scan can stop early. */
module Ordering {

  /** Every point has a coordinate at dimension `d`. */
  predicate HasDimension(points: seq<seq<real>>, d: int)
  {
    0 <= d && forall k :: 0 <= k < |points| ==> d < |points[k]|
  }

  /** The coordinate at dimension `d` never decreases along `points`. */
  predicate SortedOn(points: seq<seq<real>>, d: int)
    requires HasDimension(points, d)
  {
    forall i, j :: 0 <= i < j < |points| ==> points[i][d] <= points[j][d]
  }

  /** The first `n` points are in order on dimension `d`. */
  predicate SortedPrefix(points: seq<seq<real>>, d: int, n: int)
    requires HasDimension(points, d)
  {
    forall i, j :: 0 <= i < j < n && j < |points| ==> points[i][d] <= points[j][d]
  }

  /** Sorts the points in place, ascending on the coordinate at dimension
      `d`, by insertion: each point in turn is moved left into the sorted
      prefix. */
  method SortByDimension(a: array<seq<real>>, d: int)
    requires HasDimension(a[..], d)
    modifies a
    ensures HasDimension(a[..], d) && SortedOn(a[..], d)
    ensures multiset(a[..]) == multiset(old(a[..]))
  {
    for i := 0 to a.Length
      invariant HasDimension(a[..], d) && SortedPrefix(a[..], d, i)
      invariant multiset(a[..]) == multiset(old(a[..]))
    {
      InsertInto(a, d, i);
    }
  }

  /** Moves point `i` left past every point of the sorted prefix whose
      coordinate is strictly larger, extending the sorted prefix by one. */
  method InsertInto(a: array<seq<real>>, d: int, i: int)
    requires HasDimension(a[..], d) && 0 <= i < a.Length && SortedPrefix(a[..], d, i)
    modifies a
    ensures HasDimension(a[..], d) && SortedPrefix(a[..], d, i + 1)
    ensures multiset(a[..]) == multiset(old(a[..]))
  {
    var j := i;
    while 0 < j && a[j - 1][d] > a[j][d]
      invariant 0 <= j <= i
      invariant HasDimension(a[..], d) && Inserting(a[..], d, i, j)
      invariant multiset(a[..]) == multiset(old(a[..]))
    {
      ghost var s := a[..];
      SwapKeepsInserting(s, d, i, j);
      a[j - 1], a[j] := a[j], a[j - 1];
      assert a[..] == s[j - 1 := s[j]][j := s[j - 1]];
      j := j - 1;
    }
    InsertingDone(a[..], d, i, j);
  }

  /** While point `i` travels left and sits at `j`: the first `i + 1` points
      other than the one at `j` are in order, and it is no larger than any
      point it has passed. */
  predicate Inserting(s: seq<seq<real>>, d: int, i: int, j: int)
    requires HasDimension(s, d) && 0 <= j <= i < |s|
  {
    (forall p, q :: 0 <= p < q <= i && p != j && q != j ==> s[p][d] <= s[q][d]) &&
    (forall q :: j < q <= i ==> s[j][d] <= s[q][d])
  }

  /** Swapping the travelling point with a larger left neighbour keeps the
      state and the multiset of points. */
  lemma SwapKeepsInserting(s: seq<seq<real>>, d: int, i: int, j: int)
    requires HasDimension(s, d) && 0 < j <= i < |s| && Inserting(s, d, i, j)
    requires s[j - 1][d] > s[j][d]
    ensures var t := s[j - 1 := s[j]][j := s[j - 1]];
      HasDimension(t, d) && Inserting(t, d, i, j - 1) && multiset(t) == multiset(s)
  {
    var t := s[j - 1 := s[j]][j := s[j - 1]];
    assert HasDimension(t, d);
    forall q | j - 1 < q <= i
      ensures t[j - 1][d] <= t[q][d]
    {
      if q > j {
        assert s[j - 1][d] <= s[q][d];
      }
    }
  }

  /** When the travelling point meets no larger left neighbour, the first
      `i + 1` points are in order. */
  lemma InsertingDone(s: seq<seq<real>>, d: int, i: int, j: int)
    requires HasDimension(s, d) && 0 <= j <= i < |s| && Inserting(s, d, i, j)
    requires j == 0 || s[j - 1][d] <= s[j][d]
    ensures SortedPrefix(s, d, i + 1)
  {
    forall p, q | 0 <= p < q < i + 1
      ensures s[p][d] <= s[q][d]
    {
      if p == j {
      } else if q == j {
        assert s[p][d] <= s[j - 1][d];
      }
    }
  }
}
