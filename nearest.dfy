/**
 * `np.argmin(np.abs(xs - x))`: the index of the element of `xs` nearest to `x`,
 * where the first of several equally near elements wins.
 */
module Nearest {

  function Abs(r: real): (a: real)
    ensures a >= 0.0 && (a == r || a == -r)
  {
    if r < 0.0 then -r else r
  }

  /** Distance between a table value and the requested value. */
  function Dist(v: real, x: real): real {
    Abs(v - x)
  }

  /** The first index `k` of `xs` at minimal distance from `x`. */
  predicate IsFirstNearest(xs: seq<real>, x: real, k: int) {
    0 <= k < |xs|
    && (forall j :: 0 <= j < |xs| ==> Dist(xs[k], x) <= Dist(xs[j], x))
    && (forall j :: 0 <= j < k ==> Dist(xs[j], x) > Dist(xs[k], x))
  }

  /**
   * argmin scanning from the left: the last element only replaces the best
   * index of the prefix when it is strictly nearer.
   */
  function NearestIndex(xs: seq<real>, x: real): (k: nat)
    requires |xs| > 0
    ensures IsFirstNearest(xs, x, k)
  {
    if |xs| == 1 then 0
    else
      var k' := NearestIndex(xs[..|xs| - 1], x);
      if Dist(xs[|xs| - 1], x) < Dist(xs[k'], x) then |xs| - 1 else k'
  }

  /** The first-minimum conditions pin down one index: any index meeting them is argmin's. */
  lemma FirstNearestUnique(xs: seq<real>, x: real, k: int)
    requires IsFirstNearest(xs, x, k)
    ensures k == NearestIndex(xs, x)
  {
  }
}
