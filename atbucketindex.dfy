/** ATBUCKETINDEX: extraction of the subsequence of k consecutive samples that
    starts at a given bucket index. The static helper is also what the profile
    functions hand to a custom distance macro. */
module AtBucketIndex {
  import opened Common

  /** The window of k samples of g starting at index s, as the helper builds it:
      ticks, locations, elevations and values of samples s .. s + k - 1, in
      order; a bucketized source gives a result with the same bucketspan, k
      buckets, and the tick of the window's last sample as lastbucket. */
  function SubsequenceOf(g: Gts<real>, k: nat, s: int): Gts<real>
    requires WellFormed(g) && 1 <= k && 0 <= s && s + k <= |g.ticks|
  {
    Gts(g.ticks[s..s + k], g.locations[s..s + k], g.elevations[s..s + k], g.values[s..s + k], true,
        g.bucketized,
        if g.bucketized then g.ticks[s + k - 1] else 0,
        if g.bucketized then g.bucketspan else 0,
        if g.bucketized then k else 0)
  }

  /** The static subsequence helper: k appends of the samples startIndex + i.
      A start outside the series ends in the index (or null value) exception
      that tickAtIndex / valueAtIndex raise. */
  method Subsequence(g: Gts<real>, k: nat, startIndex: int) returns (res: Result<Gts<real>>)
    requires WellFormed(g) && 1 <= k
    ensures res.Err? <==> startIndex < 0 || startIndex + k > |g.ticks|
    ensures res.Err? ==> res.error == IndexOutOfBounds
    ensures res.Ok? ==> res.value == SubsequenceOf(g, k, startIndex)
  {
    var n := |g.ticks|;
    if startIndex < 0 || startIndex + k > n {
      return Err(IndexOutOfBounds);
    }
    var lastbucket, bucketspan, bucketcount := 0, 0, 0;
    if g.bucketized {
      bucketspan := g.bucketspan;
      lastbucket := g.ticks[startIndex + k - 1];
      bucketcount := k;
    }
    var withLocations := HasLocations(g);
    var withElevations := HasElevations(g);
    var ticks, locations, elevations, values := [], [], [], [];
    for i := 0 to k
      invariant ticks == g.ticks[startIndex..startIndex + i]
      invariant locations == g.locations[startIndex..startIndex + i]
      invariant elevations == g.elevations[startIndex..startIndex + i]
      invariant values == g.values[startIndex..startIndex + i]
    {
      var location := if withLocations then g.locations[startIndex + i] else None;
      var elevation := if withElevations then g.elevations[startIndex + i] else None;
      ticks := ticks + [g.ticks[startIndex + i]];
      locations := locations + [location];
      elevations := elevations + [elevation];
      values := values + [g.values[startIndex + i]];
    }
    res := Ok(Gts(ticks, locations, elevations, values, true, g.bucketized, lastbucket, bucketspan, bucketcount));
  }

  /** The window of a sorted, bucketized and filled series is itself sorted,
      bucketized and filled: its samples sit on its own bucket grid. */
  lemma SubsequenceKeepsLayout(g: Gts<real>, k: nat, s: int)
    requires WellFormed(g) && 1 <= k && 0 <= s && s + k <= |g.ticks|
    requires BucketLayout(g)
    ensures BucketLayout(SubsequenceOf(g, k, s))
    ensures SubsequenceOf(g, k, s).lastbucket == g.lastbucket - (|g.ticks| - s - k) * g.bucketspan
  {
    var w := SubsequenceOf(g, k, s);
    forall m | 0 <= m < k
      ensures w.ticks[m] == w.lastbucket - (k - 1 - m) * w.bucketspan
    {
      assert w.ticks[m] == g.ticks[s + m];
      assert g.ticks[s + k - 1] == g.lastbucket - (|g.ticks| - s - k) * g.bucketspan;
    }
  }

  lemma SliceOfSlice<T>(xs: seq<T>, s: int, k: int, s2: int, k2: int)
    requires 0 <= s && s + k <= |xs| && 0 <= s2 && s2 + k2 <= k && 0 <= k2
    ensures xs[s..s + k][s2..s2 + k2] == xs[s + s2..s + s2 + k2]
  {
    var w, v := xs[s..s + k][s2..s2 + k2], xs[s + s2..s + s2 + k2];
    forall m | 0 <= m < k2
      ensures w[m] == v[m]
    {
      assert w[m] == xs[s..s + k][s2 + m];
    }
  }

  /** Taking a window of a window is taking a window of the source. */
  lemma SubsequenceOfSubsequence(g: Gts<real>, k: nat, s: int, k2: nat, s2: int)
    requires WellFormed(g) && 1 <= k && 0 <= s && s + k <= |g.ticks|
    requires 1 <= k2 && 0 <= s2 && s2 + k2 <= k
    ensures SubsequenceOf(SubsequenceOf(g, k, s), k2, s2) == SubsequenceOf(g, k2, s + s2)
  {
    SliceOfSlice(g.ticks, s, k, s2, k2);
    SliceOfSlice(g.locations, s, k, s2, k2);
    SliceOfSlice(g.elevations, s, k, s2, k2);
    SliceOfSlice(g.values, s, k, s2, k2);
  }

  /** ATBUCKETINDEX's own checks, in order, then the extraction. The series is
      taken as already sorted. */
  method Apply(g: Gts<real>, k: int, bucketIndex: int) returns (res: Result<Gts<real>>)
    requires WellFormed(g)
    ensures k < 2 ==> res == Err(SubsequenceTooShort)
    ensures k >= 2 && SeriesCheck(g).Some? ==> res == Err(SeriesCheck(g).value)
    ensures k >= 2 && SeriesCheck(g).None? && bucketIndex >= |g.ticks| - k + 1 ==> res == Err(BucketIndexTooLarge)
    ensures k >= 2 && SeriesCheck(g).None? && bucketIndex < Min(0, |g.ticks| - k + 1) ==> res == Err(IndexOutOfBounds)
    ensures k >= 2 && SeriesCheck(g).None? && 0 <= bucketIndex < |g.ticks| - k + 1 ==>
              res == Ok(SubsequenceOf(g, k, bucketIndex))
  {
    if k < 2 {
      return Err(SubsequenceTooShort);
    }
    var e := SeriesCheck(g);
    if e.Some? {
      return Err(e.value);
    }
    var p := |g.ticks| - k + 1;
    if bucketIndex >= p {
      return Err(BucketIndexTooLarge);
    }
    res := Subsequence(g, k, bucketIndex);
  }
}
