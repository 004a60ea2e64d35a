/** MP_ROW (the older variant of RPROFILE): one row of the distance matrix
    without a macro, the exclusion zone given as a ratio of the window size
    and inclusive (|b - i| <= k * ratio), and no elevations. */
module MpRow {
  import opened Common
  import Stats
  import opened Distance
  import Profile
  import RProfile

  const DefaultRatio: real := 0.25

  function RatioOf(ratio: Option<real>): real {
    match ratio
    case Some(r) => r
    case None => DefaultRatio
  }

  /** The half-width of the exclusion zone: k * ratio. */
  function Zone(k: int, ratio: real): real {
    (k as real) * ratio
  }

  /** Window i lies outside the inclusive exclusion zone |b - i| <= zone. */
  predicate Far(b: int, i: int, zone: real) {
    !((Abs(b - i) as real) <= zone)
  }

  /** The windows 0 .. m - 1 outside the zone, in increasing order. */
  function Compared(b: int, zone: real, m: nat): (ks: seq<int>)
    ensures forall q :: 0 <= q < |ks| ==> 0 <= ks[q] < m && Far(b, ks[q], zone)
    decreases m
  {
    if m == 0 then []
    else Compared(b, zone, m - 1) + (if Far(b, m - 1, zone) then [m - 1] else [])
  }

  /** The inclusive zone of half-width x is RPROFILE's zone of radius
      floor(x) + 1: an integer lies strictly above a real exactly when it
      reaches the real's floor plus one. */
  lemma {:induction false} ComparedIsKept(b: int, zone: real, m: nat)
    ensures Compared(b, zone, m) == RProfile.Kept(b, zone.Floor + 1, m)
    decreases m
  {
    if m > 0 {
      ComparedIsKept(b, zone, m - 1);
      var a := Abs(b - (m - 1));
      assert (a as real) <= zone <==> a < zone.Floor + 1;
    }
  }

  /** The row MP_ROW builds for window b: one entry per compared window i, at
      the tick of i, without location or elevation, the distance from window b
      to window i as value. */
  function MpRowOf(ctx: Ctx, g: Gts<real>, b: int, ratio: real): Gts<Num>
    requires WellFormed(g) && 1 <= ctx.k && 0 <= Profile.Windows(g, ctx.k)
  {
    var ks := Compared(b, Zone(ctx.k, ratio), Profile.Windows(g, ctx.k));
    Gts(seq(|ks|, q requires 0 <= q < |ks| => g.ticks[ks[q]]),
        seq(|ks|, _ => None),
        seq(|ks|, _ => None),
        seq(|ks|, q requires 0 <= q < |ks| => Dist(ctx, g, g, b, ks[q])),
        |ks| > 0, true, g.lastbucket - g.bucketspan * (ctx.k - 1), g.bucketspan, Profile.Windows(g, ctx.k))
  }

  /** Without a macro, MP_ROW with ratio x is RPROFILE with radius
      floor(k x) + 1, with the elevations dropped. */
  lemma AgreesWithRProfile(ctx: Ctx, g: Gts<real>, b: int, ratio: real)
    requires WellFormed(g) && 1 <= ctx.k <= |g.ticks| && ctx.macro.None?
    ensures var r := RProfile.RowOf(ctx, g, b, Zone(ctx.k, ratio).Floor + 1);
            var m := MpRowOf(ctx, g, b, ratio);
            m == r.(elevations := seq(|r.ticks|, _ => None))
  {
    ComparedIsKept(b, Zone(ctx.k, ratio), Profile.Windows(g, ctx.k));
  }

  /** MP_ROW: its checks in order (the bucket index before the allocation of
      the statistics arrays), the statistics, then one entry per compared
      window. A negative bucket index ends in an index exception at the first
      compared window. The series is taken as already sorted. */
  method Apply(g: Gts<real>, k: int, b: int, ratio: Option<real>, sqrt: real -> real)
    returns (res: Result<Gts<Num>>)
    requires WellFormed(g)
    ensures k < 2 ==> res == Err(SubsequenceTooShort)
    ensures k >= 2 && SeriesCheck(g).Some? ==> res == Err(SeriesCheck(g).value)
    ensures k >= 2 && SeriesCheck(g).None? && b >= |g.ticks| - k + 1 ==> res == Err(BucketIndexTooLarge)
    ensures k >= 2 && SeriesCheck(g).None? && b < |g.ticks| - k + 1 < 0 ==> res == Err(NegativeArraySize)
    ensures k >= 2 && SeriesCheck(g).None? && b < |g.ticks| - k + 1 && 0 <= |g.ticks| - k + 1 ==>
              var ks := Compared(b, Zone(k, RatioOf(ratio)), |g.ticks| - k + 1);
              (res.Err? <==> b < 0 && |ks| > 0) && (res.Err? ==> res.error == IndexOutOfBounds) &&
              (res.Ok? ==> res.value == MpRowOf(Ctx(k, None, sqrt), g, b, RatioOf(ratio)))
  {
    var rt := RatioOf(ratio);
    if k < 2 {
      return Err(SubsequenceTooShort);
    }
    var e := SeriesCheck(g);
    if e.Some? {
      return Err(e.value);
    }
    var p := |g.ticks| - k + 1;
    if b >= p {
      return Err(BucketIndexTooLarge);
    }
    if p < 0 {
      return Err(NegativeArraySize);
    }
    var ctx := Ctx(k, None, sqrt);
    var means, stds := Stats.WindowStats(g.values, k, sqrt);
    var zone := Zone(k, rt);
    var ok, ticks, values := Entries(ctx, g, means, stds, b, zone);
    if !ok {
      // valueAtIndex at a negative index
      return Err(IndexOutOfBounds);
    }
    var n := |ticks|;
    res := Ok(Gts(ticks, seq(n, _ => None), seq(n, _ => None), values, n > 0, true,
                  g.lastbucket - g.bucketspan * (k - 1), g.bucketspan, p));
    ComparedIsKept(b, zone, p);
    RProfile.UpToIsRow(ctx, g, b, zone.Floor + 1, p);
  }

  /** The loop over the windows: the tick and the distance of each compared
      window, or failure at the first compared window when b is negative. The
      entries are those RPROFILE appends with radius floor(zone) + 1. */
  method Entries(ctx: Ctx, g: Gts<real>, means: seq<real>, stds: seq<real>, b: int, zone: real)
    returns (ok: bool, ticks: seq<int>, values: seq<Num>)
    requires WellFormed(g) && 1 <= ctx.k && 0 <= Profile.Windows(g, ctx.k) && b < Profile.Windows(g, ctx.k)
    requires ctx.macro.None? && Profile.StatsOf(ctx, g, means, stds)
    ensures ok <==> b >= 0 || |Compared(b, zone, Profile.Windows(g, ctx.k))| == 0
    ensures ok ==> ticks == RProfile.TicksUpTo(g, b, zone.Floor + 1, Profile.Windows(g, ctx.k)) &&
                   values == RProfile.ValuesUpTo(ctx, g, b, zone.Floor + 1, Profile.Windows(g, ctx.k))
  {
    var p := Profile.Windows(g, ctx.k);
    ticks, values := [], [];
    for i := 0 to p
      invariant b < 0 ==> |Compared(b, zone, i)| == 0
      invariant ticks == RProfile.TicksUpTo(g, b, zone.Floor + 1, i)
      invariant values == RProfile.ValuesUpTo(ctx, g, b, zone.Floor + 1, i)
    {
      assert Far(b, i, zone) <==> Abs(b - i) >= zone.Floor + 1;
      if !Far(b, i, zone) {
        continue;
      }
      if b < 0 {
        assert |Compared(b, zone, i + 1)| > 0;
        CompareMore(b, zone, i + 1, p);
        return false, [], [];
      }
      var d := RProfile.RowDistance(ctx, g, means, stds, b, i);
      ticks := ticks + [g.ticks[i]];
      values := values + [d];
    }
    ok := true;
  }

  /** Widening the range of windows only appends. */
  lemma {:induction false} CompareMore(b: int, zone: real, m1: nat, m2: nat)
    requires m1 <= m2
    ensures |Compared(b, zone, m1)| <= |Compared(b, zone, m2)|
    decreases m2
  {
    if m1 < m2 {
      CompareMore(b, zone, m1, m2 - 1);
    }
  }
}
