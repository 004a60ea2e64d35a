/** ABPROFILE: the AB-join matrix profile. Every window of the first series is
    compared with every window of the second one; each row keeps the first
    column of minimal distance (strict `<`), starting from Double.MAX_VALUE
    and index -1. */
module AbProfile {
  import opened Common
  import Stats
  import opened Distance
  import opened Nearest
  import AtBucketIndex
  import Profile

  /** The built-in maxsize of ABPROFILE. */
  const DefaultMaxSize: int := 10000

  /** A row minimum and its column (-1 while no column improved on MAX_VALUE). */
  datatype Best = Best(v: Num, idx: int)

  /** Row i of the AB-join after the columns 0 .. j - 1 of series b. */
  function ABFold(ctx: Ctx, a: Gts<real>, b: Gts<real>, i: int, j: nat): (s: Best)
    ensures s.idx == -1 || 0 <= s.idx < j
    decreases j
  {
    if j == 0 then Best(Finite(MaxValue), -1)
    else
      var s := ABFold(ctx, a, b, i, j - 1);
      var d := Dist(ctx, a, b, i, j - 1);
      if Lt(d, s.v) then Best(d, j - 1) else s
  }

  /** Row i after every window of b. */
  function ABRow(ctx: Ctx, a: Gts<real>, b: Gts<real>, i: int): Best
    requires Profile.Windows(b, ctx.k) >= 0
  {
    ABFold(ctx, a, b, i, Profile.Windows(b, ctx.k))
  }

  /** s is the FIRST column of minimal distance among the columns 0 .. j - 1:
      its distance improves on MAX_VALUE, no column has a strictly smaller
      one, and every earlier column has a different one; index -1 (with
      MAX_VALUE) exactly when no column improves on MAX_VALUE. */
  ghost predicate FirstMinimum(ctx: Ctx, a: Gts<real>, b: Gts<real>, i: int, j: nat, s: Best) {
    (s.idx == -1 <==> forall c :: 0 <= c < j ==> !Improves(Dist(ctx, a, b, i, c))) &&
    (s.idx == -1 ==> s.v == Finite(MaxValue)) &&
    (s.idx != -1 ==>
       0 <= s.idx < j && s.v == Dist(ctx, a, b, i, s.idx) && Improves(s.v) &&
       (forall c :: 0 <= c < j ==> !Lt(Dist(ctx, a, b, i, c), s.v)) &&
       (forall c :: 0 <= c < s.idx ==> Dist(ctx, a, b, i, c) != s.v))
  }

  /** Strict `<` keeps the first column of minimal distance. */
  lemma {:induction false} ABFoldFirstMinimum(ctx: Ctx, a: Gts<real>, b: Gts<real>, i: int, j: nat)
    ensures FirstMinimum(ctx, a, b, i, j, ABFold(ctx, a, b, i, j))
    decreases j
  {
    if j > 0 {
      ABFoldFirstMinimum(ctx, a, b, i, j - 1);
      var s0 := ABFold(ctx, a, b, i, j - 1);
      if Lt(Dist(ctx, a, b, i, j - 1), s0.v) {
        ABMinimumBeaten(ctx, a, b, i, j - 1, s0);
      } else {
        ABMinimumKept(ctx, a, b, i, j - 1, s0);
      }
    }
  }

  /** Column c strictly below the running minimum becomes the first minimum. */
  lemma ABMinimumBeaten(ctx: Ctx, a: Gts<real>, b: Gts<real>, i: int, c: nat, s0: Best)
    requires FirstMinimum(ctx, a, b, i, c, s0) && Lt(Dist(ctx, a, b, i, c), s0.v)
    ensures FirstMinimum(ctx, a, b, i, c + 1, Best(Dist(ctx, a, b, i, c), c))
  {
    var d := Dist(ctx, a, b, i, c);
    if s0.idx != -1 {
      LtTransitive(d, s0.v, Finite(MaxValue));
    }
    forall c' | 0 <= c' < c
      ensures !Lt(Dist(ctx, a, b, i, c'), d) && Dist(ctx, a, b, i, c') != d
    {
      if Lt(Dist(ctx, a, b, i, c'), d) {
        LtTransitive(Dist(ctx, a, b, i, c'), d, s0.v);
      }
    }
  }

  /** Column c not below the running minimum leaves it in place. */
  lemma ABMinimumKept(ctx: Ctx, a: Gts<real>, b: Gts<real>, i: int, c: nat, s0: Best)
    requires FirstMinimum(ctx, a, b, i, c, s0) && !Lt(Dist(ctx, a, b, i, c), s0.v)
    ensures FirstMinimum(ctx, a, b, i, c + 1, s0)
  {
    if s0.idx == -1 {
      assert !Improves(Dist(ctx, a, b, i, c));
    }
  }

  /** The row minimising loop: each distance in turn, strict `<`. */
  method RowArgMin(ctx: Ctx, a: Gts<real>, b: Gts<real>, means1: seq<real>, stds1: seq<real>,
                   means2: seq<real>, stds2: seq<real>, i: int)
    returns (dmin: Num, argmin: int)
    requires WellFormed(a) && WellFormed(b) && 1 <= ctx.k
    requires 0 <= i < Profile.Windows(a, ctx.k) && Profile.Windows(b, ctx.k) >= 1
    requires ctx.macro.None? ==> Profile.StatsOf(ctx, a, means1, stds1) && Profile.StatsOf(ctx, b, means2, stds2)
    ensures Best(dmin, argmin) == ABRow(ctx, a, b, i)
  {
    var p2 := Profile.Windows(b, ctx.k);
    dmin, argmin := Finite(MaxValue), -1;
    for j := 0 to p2
      invariant Best(dmin, argmin) == ABFold(ctx, a, b, i, j)
    {
      var d := CellDistance(ctx, a, b, means1, stds1, means2, stds2, i, j);
      if Lt(d, dmin) {
        dmin, argmin := d, j;
      }
    }
  }

  /** The distance of window i of a and window j of b: the dot product in
      full and the scaled formula without a macro, the macro's value otherwise. */
  method CellDistance(ctx: Ctx, a: Gts<real>, b: Gts<real>, means1: seq<real>, stds1: seq<real>,
                      means2: seq<real>, stds2: seq<real>, i: int, j: int)
    returns (d: Num)
    requires WellFormed(a) && WellFormed(b) && 1 <= ctx.k
    requires 0 <= i < Profile.Windows(a, ctx.k) && 0 <= j < Profile.Windows(b, ctx.k)
    requires ctx.macro.None? ==> Profile.StatsOf(ctx, a, means1, stds1) && Profile.StatsOf(ctx, b, means2, stds2)
    ensures d == Dist(ctx, a, b, i, j)
  {
    var k := ctx.k;
    if ctx.macro.None? {
      var dot := 0.0;
      for r := 0 to k
        invariant dot == Dot(a.values, b.values, i, j, r)
      {
        dot := dot + a.values[i + r] * b.values[j + r];
      }
      d := Scale(Unscaled(dot, means1[i], means2[j], stds1[i], stds2[j], k), k, ctx.sqrt);
    } else {
      var sa := AtBucketIndex.Subsequence(a, k, i);
      var sb := AtBucketIndex.Subsequence(b, k, j);
      d := Finite(ctx.macro.value(sa.value, sb.value));
    }
  }

  /** The checks of ABPROFILE pass: size, second series, first series,
      maxsize on both, and a window in each series. */
  predicate Admitted(a: Gts<real>, b: Gts<real>, k: int, maxsize: int) {
    k >= 2 && SeriesCheck(b).None? && SeriesCheck(a).None? &&
    |a.ticks| <= maxsize && |b.ticks| <= maxsize &&
    |a.ticks| - k + 1 >= 1 && |b.ticks| - k + 1 >= 1
  }

  /** The entries of rows 0 .. m - 1: as tick, the tick of the first series
      at the row's argmin; as elevation, the argmin; as value, the minimum. */
  ghost predicate ABEntries(ctx: Ctx, a: Gts<real>, b: Gts<real>, m: int,
                            ticks: seq<int>, elevations: seq<Option<int>>, values: seq<Num>)
    requires Profile.Windows(b, ctx.k) >= 0
  {
    0 <= m && |ticks| == m && |elevations| == m && |values| == m &&
    (forall i :: 0 <= i < m ==>
      ABRow(ctx, a, b, i).idx >= 0 && ticks[i] == TickAtIndex(a, ABRow(ctx, a, b, i).idx).value) &&
    (forall i :: 0 <= i < m ==> elevations[i] == Some(ABRow(ctx, a, b, i).idx)) &&
    (forall i :: 0 <= i < m ==> values[i] == ABRow(ctx, a, b, i).v)
  }

  /** out is the AB-join profile: one entry per window of a, the bucketization
      of a moved back by k - 1 spans, no locations. */
  ghost predicate IsABProfile(out: Gts<Num>, ctx: Ctx, a: Gts<real>, b: Gts<real>)
    requires Profile.Windows(b, ctx.k) >= 0
  {
    var p1 := Profile.Windows(a, ctx.k);
    WellFormed(out) && ABEntries(ctx, a, b, p1, out.ticks, out.elevations, out.values) &&
    (forall i :: 0 <= i < p1 ==> out.locations[i].None?) &&
    out.isDouble && out.bucketized && out.lastbucket == a.lastbucket - a.bucketspan * (ctx.k - 1) &&
    out.bucketspan == a.bucketspan && out.bucketcount == p1
  }

  /** The rows, in order; the first row without a neighbour ends in the
      index exception of tickAtIndex. */
  method Rows(ctx: Ctx, a: Gts<real>, b: Gts<real>, means1: seq<real>, stds1: seq<real>,
              means2: seq<real>, stds2: seq<real>)
    returns (ok: bool, ticks: seq<int>, elevations: seq<Option<int>>, values: seq<Num>)
    requires WellFormed(a) && WellFormed(b) && 1 <= ctx.k
    requires Profile.Windows(a, ctx.k) >= 1 && Profile.Windows(b, ctx.k) >= 1
    requires ctx.macro.None? ==> Profile.StatsOf(ctx, a, means1, stds1) && Profile.StatsOf(ctx, b, means2, stds2)
    ensures ok <==> forall i :: 0 <= i < Profile.Windows(a, ctx.k) ==> ABRow(ctx, a, b, i).idx != -1
    ensures ok ==> ABEntries(ctx, a, b, Profile.Windows(a, ctx.k), ticks, elevations, values)
  {
    var p1 := Profile.Windows(a, ctx.k);
    ticks, elevations, values := [], [], [];
    for i := 0 to p1
      invariant ABEntries(ctx, a, b, i, ticks, elevations, values)
    {
      var dmin, argmin := RowArgMin(ctx, a, b, means1, stds1, means2, stds2, i);
      var tick := TickAtIndex(a, argmin);
      if tick.Err? {
        return false, ticks, elevations, values;
      }
      ticks := ticks + [tick.value];
      elevations := elevations + [Some(argmin)];
      values := values + [dmin];
    }
    ok := true;
  }

  /** ABPROFILE: the checks in the source's order (the second series is
      checked before the first), the statistics of both series without a
      macro, then the rows. Both series are taken as already sorted. */
  method Apply(a: Gts<real>, b: Gts<real>, k: int, macro: Option<Macro>,
               config: Option<int>, capability: Option<int>, sqrt: real -> real)
    returns (res: Result<Gts<Num>>)
    requires WellFormed(a) && WellFormed(b)
    ensures k < 2 ==> res == Err(SubsequenceTooShort)
    ensures k >= 2 && SeriesCheck(b).Some? ==> res == Err(SeriesCheck(b).value)
    ensures k >= 2 && SeriesCheck(b).None? && SeriesCheck(a).Some? ==> res == Err(SeriesCheck(a).value)
    ensures (k >= 2 && SeriesCheck(b).None? && SeriesCheck(a).None? &&
             (|a.ticks| > ResolveMaxSize(DefaultMaxSize, config, capability) ||
              |b.ticks| > ResolveMaxSize(DefaultMaxSize, config, capability))) ==> res == Err(MaxSizeExceeded)
    ensures (k >= 2 && SeriesCheck(b).None? && SeriesCheck(a).None? &&
             |a.ticks| <= ResolveMaxSize(DefaultMaxSize, config, capability) &&
             |b.ticks| <= ResolveMaxSize(DefaultMaxSize, config, capability) &&
             (|a.ticks| - k + 1 < 1 || |b.ticks| - k + 1 < 1)) ==> res == Err(SubsequenceTooLong)
    ensures Admitted(a, b, k, ResolveMaxSize(DefaultMaxSize, config, capability)) ==>
              var ctx := Ctx(k, macro, sqrt);
              (res.Err? <==> exists i :: 0 <= i < |a.ticks| - k + 1 && ABRow(ctx, a, b, i).idx == -1) &&
              (res.Err? ==> res.error == IndexOutOfBounds) &&
              (res.Ok? ==> IsABProfile(res.value, ctx, a, b))
  {
    if k < 2 {
      return Err(SubsequenceTooShort);
    }
    var e2 := SeriesCheck(b);
    if e2.Some? {
      return Err(e2.value);
    }
    var e1 := SeriesCheck(a);
    if e1.Some? {
      return Err(e1.value);
    }
    var maxsize := ResolveMaxSize(DefaultMaxSize, config, capability);
    if |a.ticks| > maxsize || |b.ticks| > maxsize {
      return Err(MaxSizeExceeded);
    }
    var p1 := |a.ticks| - k + 1;
    var p2 := |b.ticks| - k + 1;
    if p1 < 1 || p2 < 1 {
      return Err(SubsequenceTooLong);
    }
    var ctx := Ctx(k, macro, sqrt);
    var means1, stds1, means2, stds2 := [], [], [], [];
    if macro.None? {
      means1, stds1 := Stats.WindowStats(a.values, k, sqrt);
      means2, stds2 := Stats.WindowStats(b.values, k, sqrt);
    }
    var bucketspan1 := a.bucketspan;
    var lastbucket1 := a.lastbucket - bucketspan1 * (k - 1);
    var ok, ticks, elevations, values := Rows(ctx, a, b, means1, stds1, means2, stds2);
    if !ok {
      return Err(IndexOutOfBounds);
    }
    res := Ok(Gts(ticks, seq(p1, _ => None), elevations, values, true, true, lastbucket1, bucketspan1, p1));
  }

  /** The tick of entry i is taken from the first series at the row's
      argmin, a window index of the SECOND series: on a bucketized, filled
      first series it is the tick of sample argmin of a, not the row's own
      tick, and two rows with the same argmin get the same tick. */
  lemma ABTickIsAtArgMin(out: Gts<Num>, ctx: Ctx, a: Gts<real>, b: Gts<real>, i: int)
    requires Profile.Windows(b, ctx.k) >= 0 && BucketLayout(a)
    requires IsABProfile(out, ctx, a, b) && 0 <= i < |out.ticks|
    requires ABRow(ctx, a, b, i).idx < |a.ticks|
    ensures out.ticks[i] == a.lastbucket - (|a.ticks| - 1 - ABRow(ctx, a, b, i).idx) * a.bucketspan
  {
    var c := ABRow(ctx, a, b, i).idx;
    assert out.ticks[i] == a.ticks[c];
  }
}
