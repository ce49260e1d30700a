/** Squared Euclidean distance between two points, over exact reals. */
module Distance {

  /** The square of a real number. */
  function Sq(x: real): real { x * x }

  /** The sum of squared coordinate differences over the first `dims`
      coordinates of `a` and `b`, accumulated from coordinate 0 upwards. */
  function Dist2(a: seq<real>, b: seq<real>, dims: nat): real
    requires dims <= |a| && dims <= |b|
  {
    if dims == 0 then 0.0 else Dist2(a, b, dims - 1) + Sq(a[dims - 1] - b[dims - 1])
  }

  /** A squared distance is never negative. */
  lemma {:induction false} Dist2NonNegative(a: seq<real>, b: seq<real>, dims: nat)
    requires dims <= |a| && dims <= |b|
    ensures Dist2(a, b, dims) >= 0.0
  {
    if dims > 0 {
      Dist2NonNegative(a, b, dims - 1);
      assert Sq(a[dims - 1] - b[dims - 1]) >= 0.0;
    }
  }

  /** The distance does not depend on the order of its two points. */
  lemma {:induction false} Dist2Symmetric(a: seq<real>, b: seq<real>, dims: nat)
    requires dims <= |a| && dims <= |b|
    ensures Dist2(a, b, dims) == Dist2(b, a, dims)
  {
    if dims > 0 {
      Dist2Symmetric(a, b, dims - 1);
      var d := a[dims - 1] - b[dims - 1];
      assert b[dims - 1] - a[dims - 1] == -d;
      assert Sq(-d) == Sq(d);
    }
  }

  /** Two points that agree on the measured coordinates are at distance 0. */
  lemma {:induction false} Dist2Zero(a: seq<real>, b: seq<real>, dims: nat)
    requires dims <= |a| && dims <= |b|
    requires forall i :: 0 <= i < dims ==> a[i] == b[i]
    ensures Dist2(a, b, dims) == 0.0
  {
    if dims > 0 {
      Dist2Zero(a, b, dims - 1);
    }
  }

  /** The squared gap on any one measured coordinate is at most the whole
      squared distance. */
  lemma {:induction false} Dist2Dominates(a: seq<real>, b: seq<real>, dims: nat, d: nat)
    requires dims <= |a| && dims <= |b| && d < dims
    ensures Sq(a[d] - b[d]) <= Dist2(a, b, dims)
  {
    if d == dims - 1 {
      Dist2NonNegative(a, b, dims - 1);
    } else {
      Dist2Dominates(a, b, dims - 1, d);
      assert Sq(a[dims - 1] - b[dims - 1]) >= 0.0;
    }
  }

  /** For a radius `eps >= 0`, a gap whose square is within `eps * eps` is
      within `eps`. */
  lemma SqWithin(x: real, eps: real)
    requires eps >= 0.0 && Sq(x) <= eps * eps
    ensures -eps <= x <= eps
  {
    if x > eps {
      SqGrows(x, eps);
      assert false;
    } else if x < -eps {
      SqGrows(-x, eps);
      assert false;
    }
  }

  /** Squaring is strictly increasing beyond a non-negative bound. */
  lemma SqGrows(x: real, e: real)
    requires 0.0 <= e < x
    ensures Sq(x) > e * e
  {
    var xx, ex, ee := x * x, e * x, e * e;
    assert xx > ex;
    assert ex >= ee;
  }
}
