/** SUBSEQUENCE (the older variant of ATBUCKETINDEX): the same window of k
    samples, always bucketized, with every location and elevation dropped. */
module Subsequence {
  import opened Common
  import AtBucketIndex

  /** The window ATBUCKETINDEX extracts, stripped of locations and elevations. */
  function Stripped(w: Gts<real>): Gts<real> {
    w.(locations := seq(|w.ticks|, _ => None), elevations := seq(|w.ticks|, _ => None))
  }

  /** The function's checks, in order, then k appends of tick and value. */
  method Apply(g: Gts<real>, k: int, bucketIndex: int) returns (res: Result<Gts<real>>)
    requires WellFormed(g)
    ensures k < 2 ==> res == Err(SubsequenceTooShort)
    ensures k >= 2 && SeriesCheck(g).Some? ==> res == Err(SeriesCheck(g).value)
    ensures k >= 2 && SeriesCheck(g).None? && bucketIndex >= |g.ticks| - k + 1 ==> res == Err(BucketIndexTooLarge)
    ensures k >= 2 && SeriesCheck(g).None? && bucketIndex < Min(0, |g.ticks| - k + 1) ==> res == Err(IndexOutOfBounds)
    ensures k >= 2 && SeriesCheck(g).None? && 0 <= bucketIndex < |g.ticks| - k + 1 ==>
              res == Ok(Stripped(AtBucketIndex.SubsequenceOf(g, k, bucketIndex)))
  {
    if k < 2 {
      return Err(SubsequenceTooShort);
    }
    var e := SeriesCheck(g);
    if e.Some? {
      return Err(e.value);
    }
    var p := |g.ticks| - k + 1;
    if bucketIndex >= p {
      return Err(BucketIndexTooLarge);
    }
    if bucketIndex < 0 {
      // tickAtIndex on a negative index
      return Err(IndexOutOfBounds);
    }
    var bucketspan := g.bucketspan;
    var lastbucket := g.ticks[bucketIndex + k - 1];
    var ticks, locations, elevations, values := [], [], [], [];
    for i := 0 to k
      invariant ticks == g.ticks[bucketIndex..bucketIndex + i]
      invariant values == g.values[bucketIndex..bucketIndex + i]
      invariant |locations| == i && forall m :: 0 <= m < i ==> locations[m] == None
      invariant |elevations| == i && forall m :: 0 <= m < i ==> elevations[m] == None
    {
      ticks := ticks + [g.ticks[bucketIndex + i]];
      locations := locations + [None];
      elevations := elevations + [None];
      values := values + [g.values[bucketIndex + i]];
    }
    assert locations == seq(k, _ => None) && elevations == seq(k, _ => None);
    res := Ok(Gts(ticks, locations, elevations, values, true, true, lastbucket, bucketspan, k));
  }

  /** On a valid input SUBSEQUENCE and ATBUCKETINDEX agree on everything but
      locations and elevations, which SUBSEQUENCE always leaves out. This only
      spells out, field by field, the definitions of Stripped and
      AtBucketIndex.SubsequenceOf that Apply's contract is stated with. */
  lemma AgreesWithAtBucketIndex(g: Gts<real>, k: int, s: int)
    requires WellFormed(g) && 2 <= k && 0 <= s && s + k <= |g.ticks| && g.bucketized
    ensures var w := AtBucketIndex.SubsequenceOf(g, k, s);
      Stripped(w).ticks == w.ticks && Stripped(w).values == w.values &&
      Stripped(w).lastbucket == g.ticks[s + k - 1] && Stripped(w).bucketspan == g.bucketspan &&
      Stripped(w).bucketcount == k &&
      !HasLocations(Stripped(w)) && !HasElevations(Stripped(w))
  {
  }
}
