/** Coefficient normalisation in `VideoPerturbationAnalyzer._train_model`:
    `(coeff - min(coeff)) / (max(coeff) - min(coeff))`, over the reals. */
module Surrogate {

  /** `np.min`: the smallest coefficient. */
  function MinOf(s: seq<real>): (m: real)
    requires |s| > 0
    ensures exists i :: 0 <= i < |s| && s[i] == m
    ensures forall i :: 0 <= i < |s| ==> m <= s[i]
  {
    if |s| == 1 then s[0]
    else
      var rest := MinOf(s[1..]);
      if s[0] <= rest then s[0] else rest
  }

  /** `np.max`: the largest coefficient. */
  function MaxOf(s: seq<real>): (m: real)
    requires |s| > 0
    ensures exists i :: 0 <= i < |s| && s[i] == m
    ensures forall i :: 0 <= i < |s| ==> s[i] <= m
  {
    if |s| == 1 then s[0]
    else
      var rest := MaxOf(s[1..]);
      if s[0] >= rest then s[0] else rest
  }

  /** Min-max scaling of the fitted coefficients, one value per region, each
      in `[0, 1]`. The division is unguarded in the source, so the
      coefficients must not all be equal. */
  function Normalise(coeff: seq<real>): (values: seq<real>)
    requires |coeff| > 0 && MinOf(coeff) < MaxOf(coeff)
    ensures |values| == |coeff|
    ensures forall i :: 0 <= i < |coeff| ==> 0.0 <= values[i] <= 1.0
  {
    var lo, hi := MinOf(coeff), MaxOf(coeff);
    seq(|coeff|, i requires 0 <= i < |coeff| => Scale(coeff[i], lo, hi))
  }

  /** One coefficient scaled into `[0, 1]` relative to `lo .. hi`. */
  function Scale(x: real, lo: real, hi: real): (v: real)
    requires lo <= x <= hi && lo < hi
    ensures 0.0 <= v <= 1.0
    ensures v == 0.0 <==> x == lo
    ensures v == 1.0 <==> x == hi
  {
    Ratio(x - lo, hi - lo);
    (x - lo) / (hi - lo)
  }

  /** A share of a positive whole lies in `[0, 1]`; it is 0 only for nothing
      and 1 only for the whole. */
  lemma Ratio(n: real, d: real)
    requires 0.0 <= n <= d && 0.0 < d
    ensures 0.0 <= n / d <= 1.0
    ensures n / d == 0.0 <==> n == 0.0
    ensures n / d == 1.0 <==> n == d
  {
    assert (n / d) * d == n;
  }

  /** Dividing by a positive number keeps the order. */
  lemma RatioLess(n: real, m: real, d: real)
    requires 0.0 < d
    ensures n < m <==> n / d < m / d
  {
    assert (m / d - n / d) * d == m - n;
  }

  /** Scaling is strictly increasing: it keeps the order between coefficients. */
  lemma ScaleMonotone(x: real, y: real, lo: real, hi: real)
    requires lo <= x <= hi && lo <= y <= hi && lo < hi
    ensures x < y <==> Scale(x, lo, hi) < Scale(y, lo, hi)
  {
    RatioLess(x - lo, y - lo, hi - lo);
  }

  /** The smallest coefficient maps to 0 and the largest to 1. */
  lemma NormaliseEndpoints(coeff: seq<real>, i: nat)
    requires |coeff| > 0 && MinOf(coeff) < MaxOf(coeff)
    requires i < |coeff|
    ensures Normalise(coeff)[i] == 0.0 <==> coeff[i] == MinOf(coeff)
    ensures Normalise(coeff)[i] == 1.0 <==> coeff[i] == MaxOf(coeff)
  {
  }

  /** Some normalised value is 0 and some is 1; with every value in
      `[0, 1]`, these are the vector's minimum and maximum. */
  lemma NormalisedRange(coeff: seq<real>)
    requires |coeff| > 0 && MinOf(coeff) < MaxOf(coeff)
    ensures exists i :: 0 <= i < |coeff| && Normalise(coeff)[i] == 0.0
    ensures exists i :: 0 <= i < |coeff| && Normalise(coeff)[i] == 1.0
  {
    var lo :| 0 <= lo < |coeff| && coeff[lo] == MinOf(coeff);
    var hi :| 0 <= hi < |coeff| && coeff[hi] == MaxOf(coeff);
    NormaliseEndpoints(coeff, lo);
    NormaliseEndpoints(coeff, hi);
  }

  /** Normalisation keeps the order between any two coefficients, in both
      directions, and keeps ties. */
  lemma NormalisePreservesOrder(coeff: seq<real>, i: nat, j: nat)
    requires |coeff| > 0 && MinOf(coeff) < MaxOf(coeff)
    requires i < |coeff| && j < |coeff|
    ensures coeff[i] < coeff[j] <==> Normalise(coeff)[i] < Normalise(coeff)[j]
    ensures coeff[i] == coeff[j] <==> Normalise(coeff)[i] == Normalise(coeff)[j]
  {
    var lo, hi := MinOf(coeff), MaxOf(coeff);
    ScaleMonotone(coeff[i], coeff[j], lo, hi);
    ScaleMonotone(coeff[j], coeff[i], lo, hi);
  }
}
