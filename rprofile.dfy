/** RPROFILE: one row of the distance matrix. The window starting at the
    bucket index is compared with every window outside its exclusion zone of
    radius r, and each distance becomes one entry, at the tick of the other
    window, with that window's index as elevation. */
module RProfile {
  import opened Common
  import Stats
  import opened Distance
  import opened Nearest
  import AtBucketIndex
  import Profile

  /** The windows 0 .. m - 1 outside the exclusion zone |b - i| < r, in
      increasing order. */
  function Kept(b: int, r: int, m: nat): (ks: seq<int>)
    ensures forall q :: 0 <= q < |ks| ==> 0 <= ks[q] < m && Abs(b - ks[q]) >= r
    decreases m
  {
    if m == 0 then []
    else Kept(b, r, m - 1) + (if Abs(b - (m - 1)) >= r then [m - 1] else [])
  }

  /** Every window outside the exclusion zone is kept. */
  lemma {:induction false} KeptComplete(b: int, r: int, m: nat, i: int)
    requires 0 <= i < m && Abs(b - i) >= r
    ensures i in Kept(b, r, m)
    decreases m
  {
    if i < m - 1 {
      KeptComplete(b, r, m - 1, i);
    }
  }

  /** Windows are kept in increasing order, each once. */
  lemma {:induction false} KeptIncreasing(b: int, r: int, m: nat)
    ensures forall q1, q2 :: 0 <= q1 < q2 < |Kept(b, r, m)| ==> Kept(b, r, m)[q1] < Kept(b, r, m)[q2]
    decreases m
  {
    if m > 0 {
      KeptIncreasing(b, r, m - 1);
    }
  }

  /** The row RPROFILE builds for window b: one entry per kept window i, at
      the tick of i, with elevation i and the distance from window b to
      window i as value; the bucketization moved back by k - 1 spans. */
  function RowOf(ctx: Ctx, g: Gts<real>, b: int, r: int): Gts<Num>
    requires WellFormed(g) && 1 <= ctx.k <= |g.ticks|
  {
    var ks := Kept(b, r, Profile.Windows(g, ctx.k));
    Gts(seq(|ks|, q requires 0 <= q < |ks| => g.ticks[ks[q]]),
        seq(|ks|, _ => None),
        seq(|ks|, q requires 0 <= q < |ks| => Some(ks[q])),
        seq(|ks|, q requires 0 <= q < |ks| => Dist(ctx, g, g, b, ks[q])),
        |ks| > 0, true, g.lastbucket - g.bucketspan * (ctx.k - 1), g.bucketspan, Profile.Windows(g, ctx.k))
  }

  /** Window i has an entry in the row exactly when it lies outside the
      exclusion zone. */
  lemma RowElevations(ctx: Ctx, g: Gts<real>, b: int, r: int, i: int)
    requires WellFormed(g) && 1 <= ctx.k <= |g.ticks|
    ensures Some(i) in RowOf(ctx, g, b, r).elevations <==> 0 <= i < Profile.Windows(g, ctx.k) && Abs(b - i) >= r
  {
    var p := Profile.Windows(g, ctx.k);
    var out := RowOf(ctx, g, b, r);
    var ks := Kept(b, r, p);
    if 0 <= i < p && Abs(b - i) >= r {
      KeptComplete(b, r, p, i);
      var q :| 0 <= q < |ks| && ks[q] == i;
      assert out.elevations[q] == Some(i);
    }
    if Some(i) in out.elevations {
      var q :| 0 <= q < |out.elevations| && out.elevations[q] == Some(i);
      assert ks[q] == i;
    }
  }

  /** On a bucketized, filled series with a positive span, the entries of the
      row come in increasing tick order. */
  lemma RowTicksIncreasing(ctx: Ctx, g: Gts<real>, b: int, r: int, q1: int, q2: int)
    requires WellFormed(g) && 1 <= ctx.k <= |g.ticks|
    requires BucketLayout(g) && g.bucketspan > 0
    requires 0 <= q1 < q2 < |RowOf(ctx, g, b, r).ticks|
    ensures RowOf(ctx, g, b, r).ticks[q1] < RowOf(ctx, g, b, r).ticks[q2]
  {
    var n, p := |g.ticks|, Profile.Windows(g, ctx.k);
    var out := RowOf(ctx, g, b, r);
    var ks := Kept(b, r, p);
    KeptIncreasing(b, r, p);
    assert ks[q1] < ks[q2];
    assert out.ticks[q1] == g.lastbucket - (n - 1 - ks[q1]) * g.bucketspan;
    assert out.ticks[q2] == g.lastbucket - (n - 1 - ks[q2]) * g.bucketspan;
    MulLess(n - 1 - ks[q2], n - 1 - ks[q1], g.bucketspan);
  }

  lemma MulLess(a: int, b: int, c: int)
    requires a < b && c > 0
    ensures a * c < b * c
  {
  }

  /** Without a macro, the PROFILE entry of window b (radius r, not robust)
      is the minimum of this row: the neighbour it reports is an entry of the
      row with the same value, and no entry of the row is smaller. */
  lemma ProfileIsRowMinimum(ctx: Ctx, g: Gts<real>, b: int, r: int)
    requires WellFormed(g) && ctx.macro.None? && 1 <= ctx.k <= |g.ticks|
    requires 0 <= b < Profile.Windows(g, ctx.k) && 0 <= r
    requires exists q :: 0 <= q < |RowOf(ctx, g, b, r).values| && Improves(RowOf(ctx, g, b, r).values[q])
    ensures var out := RowOf(ctx, g, b, r);
            var s := Profile.Row(ctx, g, b, r, false);
            (exists q :: 0 <= q < |out.values| && out.elevations[q] == Some(s.i1) && out.values[q] == s.v1) &&
            (forall q :: 0 <= q < |out.values| ==> !Lt(out.values[q], s.v1))
  {
    var p := Profile.Windows(g, ctx.k);
    var out := RowOf(ctx, g, b, r);
    var ks := Kept(b, r, p);
    var s := Profile.Row(ctx, g, b, r, false);
    RowNearest(ctx, g, b, r);
    RowIsPairDist(ctx, g, b, r);
    KeptComplete(b, r, p, s.i1);
    var q1 :| 0 <= q1 < |ks| && ks[q1] == s.i1;
    assert out.elevations[q1] == Some(s.i1) && out.values[q1] == s.v1;
  }

  /** The PROFILE entry of window b is the nearest admissible neighbour of b
      when some entry of the row improves on Double.MAX_VALUE. */
  lemma RowNearest(ctx: Ctx, g: Gts<real>, b: int, r: int)
    requires WellFormed(g) && ctx.macro.None? && 1 <= ctx.k <= |g.ticks|
    requires 0 <= b < Profile.Windows(g, ctx.k) && 0 <= r
    requires exists q :: 0 <= q < |RowOf(ctx, g, b, r).values| && Improves(RowOf(ctx, g, b, r).values[q])
    ensures var s := Profile.Row(ctx, g, b, r, false);
            IsNearest(Profile.Admissible(b, r, Profile.Windows(g, ctx.k)), c => Profile.PairDist(ctx, g, b, c), b, s.i1) &&
            s.v1 == Profile.PairDist(ctx, g, b, s.i1) && 0 <= s.i1 < Profile.Windows(g, ctx.k) && Abs(b - s.i1) >= r
  {
    var p := Profile.Windows(g, ctx.k);
    var out := RowOf(ctx, g, b, r);
    var ks := Kept(b, r, p);
    RowIsPairDist(ctx, g, b, r);
    var q0 :| 0 <= q0 < |out.values| && Improves(out.values[q0]);
    assert ks[q0] in Profile.Admissible(b, r, p) && Improves(Profile.PairDist(ctx, g, b, ks[q0]));
    Profile.RowIsNearest(ctx, g, b, r, false);
  }

  /** Each entry of the row is the distance PROFILE uses for that pair, and
      its window is admissible for PROFILE. */
  lemma RowIsPairDist(ctx: Ctx, g: Gts<real>, b: int, r: int)
    requires WellFormed(g) && ctx.macro.None? && 1 <= ctx.k <= |g.ticks|
    ensures var ks := Kept(b, r, Profile.Windows(g, ctx.k));
            forall q :: 0 <= q < |ks| ==>
              ks[q] in Profile.Admissible(b, r, Profile.Windows(g, ctx.k)) &&
              RowOf(ctx, g, b, r).elevations[q] == Some(ks[q]) &&
              RowOf(ctx, g, b, r).values[q] == Profile.PairDist(ctx, g, b, ks[q])
  {
    var ks := Kept(b, r, Profile.Windows(g, ctx.k));
    forall q | 0 <= q < |ks|
      ensures RowOf(ctx, g, b, r).values[q] == Profile.PairDist(ctx, g, b, ks[q])
    {
      DistSymmetric(ctx, g, b, ks[q]);
    }
  }

  /** The distance from window b to window i as the loop computes it. */
  method RowDistance(ctx: Ctx, g: Gts<real>, means: seq<real>, stds: seq<real>, b: int, i: int)
    returns (d: Num)
    requires WellFormed(g) && 1 <= ctx.k && 0 <= b < Profile.Windows(g, ctx.k) && 0 <= i < Profile.Windows(g, ctx.k)
    requires ctx.macro.None? ==> Profile.StatsOf(ctx, g, means, stds)
    ensures d == Dist(ctx, g, g, b, i)
  {
    var k := ctx.k;
    if ctx.macro.None? {
      var dot := 0.0;
      for j := 0 to k
        invariant dot == Dot(g.values, g.values, b, i, j)
      {
        dot := dot + g.values[b + j] * g.values[i + j];
      }
      d := Scale(Unscaled(dot, means[b], means[i], stds[b], stds[i], k), k, ctx.sqrt);
    } else {
      var sa := AtBucketIndex.Subsequence(g, k, b);
      var sb := AtBucketIndex.Subsequence(g, k, i);
      d := Finite(ctx.macro.value(sa.value, sb.value));
    }
  }

  /** The checks of RPROFILE pass, up to the bucket index's upper bound. */
  predicate Admitted(g: Gts<real>, k: int, r: int, b: int) {
    k >= 2 && SeriesCheck(g).None? && k < g.bucketcount && r >= 0 && b < |g.ticks| - k + 1
  }

  /** RPROFILE: its checks in order, the statistics without a macro, then one
      entry per window outside the exclusion zone. A negative bucket index
      passes the checks and ends in an index exception at the first kept
      window. The series is taken as already sorted. */
  method Apply(g: Gts<real>, k: int, b: int, radius: Option<int>, macro: Option<Macro>, sqrt: real -> real)
    returns (res: Result<Gts<Num>>)
    requires WellFormed(g)
    ensures k < 2 ==> res == Err(SubsequenceTooShort)
    ensures k >= 2 && SeriesCheck(g).Some? ==> res == Err(SeriesCheck(g).value)
    ensures k >= 2 && SeriesCheck(g).None? && k >= g.bucketcount ==> res == Err(SubsequenceTooLong)
    ensures (k >= 2 && SeriesCheck(g).None? && k < g.bucketcount && Profile.ExclusionRadius(k, radius) < 0) ==>
              res == Err(NegativeExclusionRadius)
    ensures (k >= 2 && SeriesCheck(g).None? && k < g.bucketcount && Profile.ExclusionRadius(k, radius) >= 0 &&
             b >= |g.ticks| - k + 1) ==> res == Err(BucketIndexTooLarge)
    ensures Admitted(g, k, Profile.ExclusionRadius(k, radius), b) ==>
              var ks := Kept(b, Profile.ExclusionRadius(k, radius), |g.ticks| - k + 1);
              (res.Err? <==> b < 0 && |ks| > 0) && (res.Err? ==> res.error == IndexOutOfBounds) &&
              (res.Ok? ==> res.value == RowOf(Ctx(k, macro, sqrt), g, b, Profile.ExclusionRadius(k, radius)))
  {
    var r := Profile.ExclusionRadius(k, radius);
    if k < 2 {
      return Err(SubsequenceTooShort);
    }
    var e := SeriesCheck(g);
    if e.Some? {
      return Err(e.value);
    }
    if k >= g.bucketcount {
      return Err(SubsequenceTooLong);
    }
    if r < 0 {
      return Err(NegativeExclusionRadius);
    }
    var p := |g.ticks| - k + 1;
    if b >= p {
      return Err(BucketIndexTooLarge);
    }
    var ctx := Ctx(k, macro, sqrt);
    var means, stds := [], [];
    if macro.None? {
      means, stds := Stats.WindowStats(g.values, k, sqrt);
    }
    var ok, ticks, elevations, values := Entries(ctx, g, means, stds, b, r);
    if !ok {
      // valueAtIndex (or the subsequence) at a negative index
      return Err(IndexOutOfBounds);
    }
    var n := |ticks|;
    res := Ok(Gts(ticks, seq(n, _ => None), elevations, values, n > 0, true,
                  g.lastbucket - g.bucketspan * (k - 1), g.bucketspan, p));
    UpToIsRow(ctx, g, b, r, p);
    ghost var out := RowOf(ctx, g, b, r);
    assert ticks == out.ticks && elevations == out.elevations && values == out.values;
  }

  /** The loop over the windows: the tick, the index and the distance of each
      kept window, or failure at the first kept window when b is negative. */
  method Entries(ctx: Ctx, g: Gts<real>, means: seq<real>, stds: seq<real>, b: int, r: int)
    returns (ok: bool, ticks: seq<int>, elevations: seq<Option<int>>, values: seq<Num>)
    requires WellFormed(g) && 1 <= ctx.k && 0 <= Profile.Windows(g, ctx.k) && b < Profile.Windows(g, ctx.k)
    requires ctx.macro.None? ==> Profile.StatsOf(ctx, g, means, stds)
    ensures ok <==> b >= 0 || |Kept(b, r, Profile.Windows(g, ctx.k))| == 0
    ensures ok ==> ticks == TicksUpTo(g, b, r, Profile.Windows(g, ctx.k)) &&
                   elevations == ElevationsUpTo(b, r, Profile.Windows(g, ctx.k)) &&
                   values == ValuesUpTo(ctx, g, b, r, Profile.Windows(g, ctx.k))
  {
    var p := Profile.Windows(g, ctx.k);
    ticks, elevations, values := [], [], [];
    for i := 0 to p
      invariant b < 0 ==> |Kept(b, r, i)| == 0
      invariant ticks == TicksUpTo(g, b, r, i) && elevations == ElevationsUpTo(b, r, i)
      invariant values == ValuesUpTo(ctx, g, b, r, i)
    {
      if Abs(b - i) < r {
        continue;
      }
      if b < 0 {
        KeptComplete(b, r, p, i);
        return false, [], [], [];
      }
      var d := RowDistance(ctx, g, means, stds, b, i);
      ticks := ticks + [g.ticks[i]];
      elevations := elevations + [Some(i)];
      values := values + [d];
    }
    ok := true;
  }

  /** The ticks of the kept windows among 0 .. m - 1, as the loop appends them. */
  function TicksUpTo(g: Gts<real>, b: int, r: int, m: nat): seq<int>
    requires m <= |g.ticks|
  {
    if m == 0 then []
    else TicksUpTo(g, b, r, m - 1) + (if Abs(b - (m - 1)) >= r then [g.ticks[m - 1]] else [])
  }

  /** The elevations (window indices) of the kept windows among 0 .. m - 1. */
  function ElevationsUpTo(b: int, r: int, m: nat): seq<Option<int>> {
    if m == 0 then []
    else ElevationsUpTo(b, r, m - 1) + (if Abs(b - (m - 1)) >= r then [Some(m - 1)] else [])
  }

  /** The distances from window b to the kept windows among 0 .. m - 1. */
  function ValuesUpTo(ctx: Ctx, g: Gts<real>, b: int, r: int, m: nat): seq<Num> {
    if m == 0 then []
    else ValuesUpTo(ctx, g, b, r, m - 1) + (if Abs(b - (m - 1)) >= r then [Dist(ctx, g, g, b, m - 1)] else [])
  }

  /** The entries appended window by window are those of the kept windows,
      in order. */
  lemma {:induction false} UpToIsRow(ctx: Ctx, g: Gts<real>, b: int, r: int, m: nat)
    requires m <= |g.ticks|
    ensures var ks := Kept(b, r, m);
            TicksUpTo(g, b, r, m) == seq(|ks|, q requires 0 <= q < |ks| => g.ticks[ks[q]]) &&
            ElevationsUpTo(b, r, m) == seq(|ks|, q requires 0 <= q < |ks| => Some(ks[q])) &&
            ValuesUpTo(ctx, g, b, r, m) == seq(|ks|, q requires 0 <= q < |ks| => Dist(ctx, g, g, b, ks[q]))
    decreases m
  {
    if m > 0 {
      UpToIsRow(ctx, g, b, r, m - 1);
    }
  }
}
