/** Per-window statistics: for every window of k consecutive values, the mean and
    the population standard deviation, computed from the window sum and sum of
    squares exactly as every profile function of the library does it. */
module Stats {

  /** xs[i] + ... + xs[i + l - 1] */
  function Sum(xs: seq<real>, i: int, l: nat): real
    requires 0 <= i && i + l <= |xs|
    decreases l
  {
    if l == 0 then 0.0 else Sum(xs, i, l - 1) + xs[i + l - 1]
  }

  /** xs[i]^2 + ... + xs[i + l - 1]^2 */
  function SumSq(xs: seq<real>, i: int, l: nat): real
    requires 0 <= i && i + l <= |xs|
    decreases l
  {
    if l == 0 then 0.0 else SumSq(xs, i, l - 1) + xs[i + l - 1] * xs[i + l - 1]
  }

  /** Sum of squared deviations from m over the window: (xs[i] - m)^2 + ... */
  function SqDev(xs: seq<real>, i: int, l: nat, m: real): real
    requires 0 <= i && i + l <= |xs|
    decreases l
  {
    if l == 0 then 0.0 else SqDev(xs, i, l - 1, m) + (xs[i + l - 1] - m) * (xs[i + l - 1] - m)
  }

  /** Window mean: the window sum divided by k. */
  function Mean(xs: seq<real>, i: int, k: nat): real
    requires k > 0 && 0 <= i && i + k <= |xs|
  {
    Sum(xs, i, k) / (k as real)
  }

  /** The second central moment from the sum and the sum of squares: sumsq / k - sum^2 / k^2. */
  function Moment2(sum: real, sumsq: real, k: nat): real
    requires k > 0
  {
    sumsq / (k as real) - sum * sum / ((k as real) * (k as real))
  }

  /** Window variance as the source computes it, from the window sum and sum of squares. */
  function Variance(xs: seq<real>, i: int, k: nat): real
    requires k > 0 && 0 <= i && i + k <= |xs|
  {
    Moment2(Sum(xs, i, k), SumSq(xs, i, k), k)
  }

  lemma SqDevExpand(xs: seq<real>, i: int, l: nat, m: real)
    requires 0 <= i && i + l <= |xs|
    ensures SqDev(xs, i, l, m) == SumSq(xs, i, l) - 2.0 * m * Sum(xs, i, l) + (l as real) * m * m
  {
    SqDevIsExpanded(xs, i, l, m);
  }

  /** The expansion of the squared deviations: sumsq - 2 m sum + l m^2. */
  function Expanded(xs: seq<real>, i: int, l: nat, m: real): real
    requires 0 <= i && i + l <= |xs|
  {
    SumSq(xs, i, l) - 2.0 * m * Sum(xs, i, l) + (l as real) * m * m
  }

  lemma {:induction false} SqDevIsExpanded(xs: seq<real>, i: int, l: nat, m: real)
    requires 0 <= i && i + l <= |xs|
    ensures SqDev(xs, i, l, m) == Expanded(xs, i, l, m)
    decreases l
  {
    if l > 0 {
      SqDevIsExpanded(xs, i, l - 1, m);
      ExpandedStep(xs, i, l, m);
    }
  }

  /** Each term adds (x - m)^2 to the expansion. */
  lemma ExpandedStep(xs: seq<real>, i: int, l: nat, m: real)
    requires 0 <= i && i + l <= |xs| && l > 0
    ensures Expanded(xs, i, l, m) == Expanded(xs, i, l - 1, m) + (xs[i + l - 1] - m) * (xs[i + l - 1] - m)
  {
    ExpandStep(SumSq(xs, i, l - 1), Sum(xs, i, l - 1), (l - 1) as real, xs[i + l - 1], m,
               SumSq(xs, i, l), Sum(xs, i, l), l as real);
  }

  /** (x - m)^2 = x^2 - 2 m x + m^2, on named sums. */
  lemma ExpandStep(q: real, s: real, n: real, x: real, m: real, q': real, s': real, n': real)
    requires q' == q + x * x && s' == s + x && n' == n + 1.0
    ensures q' - 2.0 * m * s' + n' * m * m == (q - 2.0 * m * s + n * m * m) + (x - m) * (x - m)
  {
    assert (x - m) * (x - m) == x * x - 2.0 * m * x + m * m;
    assert (n + 1.0) * m * m == n * m * m + m * m;
    assert 2.0 * m * (s + x) == 2.0 * m * s + 2.0 * m * x;
  }
  lemma {:induction false} SqDevNonNegative(xs: seq<real>, i: int, l: nat, m: real)
    requires 0 <= i && i + l <= |xs|
    ensures SqDev(xs, i, l, m) >= 0.0
    decreases l
  {
    if l > 0 {
      SqDevNonNegative(xs, i, l - 1, m);
      var y := xs[i + l - 1] - m;
      assert y * y >= 0.0;
    }
  }

  lemma DivSub(a: real, b: real, c: real)
    requires c > 0.0
    ensures (a - b) / c == a / c - b / c
  {}

  lemma DivDiv(a: real, c: real, d: real)
    requires c > 0.0 && d > 0.0
    ensures a / c / d == a / (c * d)
  {}

  lemma MeanTimes(m: real, s: real, kr: real)
    requires kr > 0.0 && m == s / kr
    ensures kr * m * m == m * s && m * s == s * s / kr
  {
    assert m * kr == s;
  }

  /** The variance the source computes is the POPULATION variance: the mean of
      the squared deviations from the window mean, dividing by k (not k - 1). */
  lemma VarianceIsPopulationVariance(xs: seq<real>, i: int, k: nat)
    requires k > 0 && 0 <= i && i + k <= |xs|
    ensures Variance(xs, i, k) == SqDev(xs, i, k, Mean(xs, i, k)) / (k as real)
  {
    SqDevExpand(xs, i, k, Mean(xs, i, k));
    MomentOfExpansion(SumSq(xs, i, k), Sum(xs, i, k), k, Mean(xs, i, k), SqDev(xs, i, k, Mean(xs, i, k)));
  }

  /** sumsq / k - sum^2 / k^2 is the expansion at the mean, divided by k. */
  lemma MomentOfExpansion(q: real, s: real, k: nat, m: real, sd: real)
    requires k > 0 && m == s / (k as real) && sd == q - 2.0 * m * s + (k as real) * m * m
    ensures Moment2(s, q, k) == sd / (k as real)
  {
    var kr := k as real;
    MeanTimes(m, s, kr);
    assert sd == q - m * s;
    DivSub(q, m * s, kr);
    DivDiv(s * s, kr, kr);
  }

  /** Hence, in exact arithmetic, the square root the source takes is never of a negative. */
  lemma VarianceNonNegative(xs: seq<real>, i: int, k: nat)
    requires k > 0 && 0 <= i && i + k <= |xs|
    ensures Variance(xs, i, k) >= 0.0
  {
    VarianceIsPopulationVariance(xs, i, k);
    SqDevNonNegative(xs, i, k, Mean(xs, i, k));
  }

  /** The statistics loop shared by PROFILE, DEV_PROFILE, ABPROFILE, RPROFILE and
      MP_ROW: one pass of k additions per window, then the mean and the square
      root (Math.sqrt, a parameter here) of the variance. */
  method WindowStats(xs: seq<real>, k: nat, sqrt: real -> real) returns (means: seq<real>, stds: seq<real>)
    requires 1 <= k <= |xs| + 1
    ensures |means| == |xs| - k + 1 && |stds| == |xs| - k + 1
    ensures forall i :: 0 <= i < |means| ==> means[i] == Mean(xs, i, k)
    ensures forall i :: 0 <= i < |stds| ==> stds[i] == sqrt(Variance(xs, i, k))
  {
    var p := |xs| - k + 1;
    var ms := new real[p];
    var ss := new real[p];
    var kr := k as real;
    for i := 0 to p
      invariant forall i' :: 0 <= i' < i ==> ms[i'] == Mean(xs, i', k)
      invariant forall i' :: 0 <= i' < i ==> ss[i'] == sqrt(Variance(xs, i', k))
    {
      var sum, sumsq := 0.0, 0.0;
      for j := i to i + k
        invariant sum == Sum(xs, i, j - i)
        invariant sumsq == SumSq(xs, i, j - i)
      {
        sum := sum + xs[j];
        sumsq := sumsq + xs[j] * xs[j];
      }
      ms[i] := sum / kr;
      var variance := Moment2(sum, sumsq, k);
      ss[i] := sqrt(variance);
    }
    means, stds := ms[..], ss[..];
  }
}
