/** Choosing the ordering dimension: the dimension whose coordinates vary
    most, found by an argmax over per-dimension variances. */
module DimensionChoice {

  /** The variance of the coordinates at `dimension`. Fewer than two points
      have variance 0; otherwise the value is whatever the one-pass
      floating-point accumulation `welford` yields, which this model does not
      compute. */
  function Variance(data: seq<seq<real>>, dimension: nat, welford: (seq<seq<real>>, nat) -> real): (v: real)
    ensures |data| < 2 ==> v == 0.0
    ensures 2 <= |data| ==> v == welford(data, dimension)
  {
    if |data| < 2 then 0.0 else welford(data, dimension)
  }

  /** The variances of dimensions `0 .. dims - 1`, in order. */
  function Variances(data: seq<seq<real>>, dims: nat, welford: (seq<seq<real>>, nat) -> real): (vs: seq<real>)
    ensures |vs| == dims
    ensures forall d :: 0 <= d < dims ==> vs[d] == Variance(data, d, welford)
  {
    seq(dims, d requires 0 <= d < dims => Variance(data, d, welford))
  }

  /** `k` is the dimension the selection settles on for the values `vs`,
      starting from a running maximum of 0 at index 0 and moving to every
      value at least as large: when every value is negative (in particular
      when there are none) it stays at 0; otherwise `k` holds a maximum and
      every later value is strictly smaller, so ties go to the LAST maximal
      index. */
  predicate IsChosenDimension(vs: seq<real>, k: int)
  {
    if forall i :: 0 <= i < |vs| ==> vs[i] < 0.0 then k == 0
    else
      0 <= k < |vs| &&
      (forall i :: 0 <= i < |vs| ==> vs[i] <= vs[k]) &&
      (forall i :: k < i < |vs| ==> vs[i] < vs[k])
  }

  /** The chosen dimension is determined by the values, and it names one of
      them whenever there is one. */
  lemma ChosenDimensionUnique(vs: seq<real>, k1: int, k2: int)
    requires IsChosenDimension(vs, k1) && IsChosenDimension(vs, k2)
    ensures k1 == k2
    ensures 0 < |vs| ==> 0 <= k1 < |vs|
  {
  }

  /** With fewer than two points every variance is 0, so the selection moves
      on to every dimension in turn and ends on the last one. */
  lemma FewPointsPickLast(data: seq<seq<real>>, dims: nat, welford: (seq<seq<real>>, nat) -> real, k: int)
    requires |data| < 2 && 0 < dims
    requires IsChosenDimension(Variances(data, dims, welford), k)
    ensures k == dims - 1
  {
    assert Variances(data, dims, welford)[dims - 1] == 0.0;
  }

  /** A dimension whose value is non-negative and strictly above every other
      is the one chosen. */
  lemma StrictMaximumChosen(vs: seq<real>, k: nat, chosen: int)
    requires k < |vs| && 0.0 <= vs[k]
    requires forall i :: 0 <= i < |vs| && i != k ==> vs[i] < vs[k]
    requires IsChosenDimension(vs, chosen)
    ensures chosen == k
  {
  }
}
