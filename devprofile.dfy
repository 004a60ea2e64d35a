/** DEV_PROFILE: the self-join matrix profile computed full row by full row.
    Each row scans every column outside the exclusion zone |j - i| < k * ratio,
    takes the minimum of the unscaled term 1 - correlation with a tie rule
    toward the closest column, and scales it once per row. Dot products are
    slid along the diagonal through two swapped row caches; column 0 takes its
    dot product from row 0 by symmetry. */
module DevProfile {
  import opened Common
  import Stats
  import opened Distance
  import opened Nearest
  import Profile

  /** The default exclusion zone ratio. */
  const DefaultRatio: real := 0.25

  function RatioOf(ratio: Option<real>): real {
    match ratio
    case Some(r) => r
    case None => DefaultRatio
  }

  /** The half-width of the exclusion zone: k * ratio. */
  function Zone(k: int, ratio: real): real {
    (k as real) * ratio
  }

  /** Column j is scanned for row i: it is not in the exclusion zone |j - i| < zone. */
  predicate Kept(i: int, j: int, zone: real) {
    !((Abs(j - i) as real) < zone)
  }

  /** The columns below j scanned for row i. */
  function Columns(i: int, j: int, zone: real): set<int> {
    set c | 0 <= c < j && Kept(i, c, zone)
  }

  /** The running minimum of a row and its column (-1 before any update). */
  datatype DevState = DevState(v: Num, idx: int)

  const Start: DevState := DevState(Finite(MaxValue), -1)

  /** Column j at term d: replace the minimum on a strictly smaller term, then
      move the index to j on an equal term when j is strictly closer to i. */
  function DevStep(s: DevState, i: int, j: int, d: Num): DevState {
    var s' := if Lt(d, s.v) then DevState(d, j) else s;
    if Eq(d, s'.v) && Abs(j - i) < Abs(s'.idx - i) then s'.(idx := j) else s'
  }

  /** Row i after the columns 0 .. j - 1, with d the unscaled term of each
      column. */
  function DevFold(d: int -> Num, i: int, zone: real, j: nat): DevState
    decreases j
  {
    if j == 0 then Start
    else
      var s := DevFold(d, i, zone, j - 1);
      if Kept(i, j - 1, zone) then DevStep(s, i, j - 1, d(j - 1)) else s
  }

  /** Row i of the series after the columns 0 .. j - 1. */
  function Scan(ctx: Ctx, g: Gts<real>, i: int, zone: real, j: nat): DevState {
    DevFold(c => Term(ctx, g, g, i, c), i, zone, j)
  }

  /** One more column of the scan. */
  lemma ScanNext(ctx: Ctx, g: Gts<real>, i: int, zone: real, j: nat)
    ensures Scan(ctx, g, i, zone, j + 1) ==
            if Kept(i, j, zone) then DevStep(Scan(ctx, g, i, zone, j), i, j, Term(ctx, g, g, i, j))
            else Scan(ctx, g, i, zone, j)
  {
  }

  /** Row i after all columns. */
  function DevRow(ctx: Ctx, g: Gts<real>, i: int, ratio: real): DevState
    requires Profile.Windows(g, ctx.k) >= 0
  {
    Scan(ctx, g, i, Zone(ctx.k, ratio), Profile.Windows(g, ctx.k))
  }

  /** What a row's running state holds over the scanned columns adm, with d
      the unscaled term of each column: the nearest one and its term when some
      term improves on MAX_VALUE; otherwise MAX_VALUE with index -1 or a column
      whose term is exactly MAX_VALUE. */
  ghost predicate DevInv(d: int -> Num, i: int, adm: set<int>, s: DevState) {
    if exists c :: c in adm && Improves(d(c)) then
      IsNearest(adm, d, i, s.idx) && s.v == d(s.idx)
    else
      s.v == Finite(MaxValue) && (s.idx == -1 || (s.idx in adm && d(s.idx) == Finite(MaxValue)))
  }

  /** One scanned column c, above every column seen so far, keeps the invariant. */
  lemma DevStepKeepsInv(d: int -> Num, i: int, adm: set<int>, c: int, s: DevState)
    requires forall c' :: c' in adm ==> c' < c
    requires DevInv(d, i, adm, s)
    ensures DevInv(d, i, adm + {c}, DevStep(s, i, c, d(c)))
  {
    var s1 := DevStep(s, i, c, d(c));
    var adm1 := adm + {c};
    var had := exists c' :: c' in adm && Improves(d(c'));
    if Lt(d(c), s.v) {
      assert s1 == DevState(d(c), c);
      if had {
        LtTransitive(d(c), s.v, Finite(MaxValue));
      }
      forall c' | c' in adm
        ensures !Lt(d(c'), d(c)) && d(c') != d(c)
      {
        if had {
          if Lt(d(c'), d(c)) {
            LtTransitive(d(c'), d(c), s.v);
          }
        } else {
          if Lt(d(c'), d(c)) {
            LtTransitive(d(c'), d(c), Finite(MaxValue));
          }
        }
      }
      assert IsNearest(adm1, d, i, c);
    } else if Eq(d(c), s.v) && Abs(c - i) < Abs(s.idx - i) {
      assert s1 == DevState(s.v, c);
      if had {
        forall c' | c' in adm1 && d(c') == d(c)
          ensures c' == c || Before(i, c, c')
        {
          if c' != c && c' != s.idx {
            assert Before(i, s.idx, c');
          }
        }
        assert IsNearest(adm1, d, i, c);
      }
    } else {
      assert s1 == s;
      if had {
        assert s.idx in adm;
        assert !Lt(d(c), d(s.idx));
        assert IsNearest(adm1, d, i, s.idx);
      }
    }
  }

  /** After the columns below j the row holds its nearest scanned column (or
      the MAX_VALUE start). */
  lemma {:induction false} DevFoldInv(d: int -> Num, i: int, zone: real, j: nat)
    ensures DevInv(d, i, Columns(i, j, zone), DevFold(d, i, zone, j))
    decreases j
  {
    if j == 0 {
      assert DevInv(d, i, {}, Start);
      DevInvCongruent(d, i, {}, Columns(i, 0, zone), Start, DevFold(d, i, zone, 0));
    } else {
      DevFoldInv(d, i, zone, j - 1);
      if Kept(i, j - 1, zone) {
        DevFoldKept(d, i, zone, j);
      } else {
        DevFoldSkipped(d, i, zone, j);
      }
    }
  }

  /** A scanned column keeps the invariant of the fold. */
  lemma DevFoldKept(d: int -> Num, i: int, zone: real, j: nat)
    requires 1 <= j && Kept(i, j - 1, zone)
    requires DevInv(d, i, Columns(i, j - 1, zone), DevFold(d, i, zone, j - 1))
    ensures DevInv(d, i, Columns(i, j, zone), DevFold(d, i, zone, j))
  {
    var adm := Columns(i, j - 1, zone);
    var s := DevFold(d, i, zone, j - 1);
    ColumnsNext(i, j - 1, zone);
    DevStepKeepsInv(d, i, adm, j - 1, s);
    DevInvCongruent(d, i, adm + {j - 1}, Columns(i, j, zone), DevStep(s, i, j - 1, d(j - 1)), DevFold(d, i, zone, j));
  }

  /** A column in the exclusion zone changes neither the columns nor the state. */
  lemma DevFoldSkipped(d: int -> Num, i: int, zone: real, j: nat)
    requires 1 <= j && !Kept(i, j - 1, zone)
    requires DevInv(d, i, Columns(i, j - 1, zone), DevFold(d, i, zone, j - 1))
    ensures DevInv(d, i, Columns(i, j, zone), DevFold(d, i, zone, j))
  {
    ColumnsNext(i, j - 1, zone);
    DevInvCongruent(d, i, Columns(i, j - 1, zone), Columns(i, j, zone), DevFold(d, i, zone, j - 1), DevFold(d, i, zone, j));
  }

  lemma DevInvCongruent(d: int -> Num, i: int, adm: set<int>, adm': set<int>, s: DevState, s': DevState)
    requires adm == adm' && s == s' && DevInv(d, i, adm, s)
    ensures DevInv(d, i, adm', s')
  {
  }

  /** The scanned columns grow by one column at a time, from below. */
  lemma ColumnsNext(i: int, j: nat, zone: real)
    ensures Columns(i, j + 1, zone) == Columns(i, j, zone) + (if Kept(i, j, zone) then {j} else {})
    ensures forall c :: c in Columns(i, j, zone) ==> c < j
  {
  }

  /** The row's index is its nearest scanned column by the unscaled term, and
      its value that column's term; with no term below MAX_VALUE the value
      stays MAX_VALUE, and the index is -1 or a column at exactly MAX_VALUE. */
  lemma DevRowIsNearest(ctx: Ctx, g: Gts<real>, i: int, ratio: real)
    requires Profile.Windows(g, ctx.k) >= 0
    ensures var s := DevRow(ctx, g, i, ratio);
            var adm := Columns(i, Profile.Windows(g, ctx.k), Zone(ctx.k, ratio));
            (exists c :: c in adm && Improves(Term(ctx, g, g, i, c))) ==>
              IsNearest(adm, c => Term(ctx, g, g, i, c), i, s.idx) && s.v == Term(ctx, g, g, i, s.idx)
    ensures var s := DevRow(ctx, g, i, ratio);
            var adm := Columns(i, Profile.Windows(g, ctx.k), Zone(ctx.k, ratio));
            (forall c :: c in adm ==> !Improves(Term(ctx, g, g, i, c))) ==>
              s.v == Finite(MaxValue) && (s.idx == -1 || (s.idx in adm && Term(ctx, g, g, i, s.idx) == Finite(MaxValue)))
    ensures var s := DevRow(ctx, g, i, ratio);
            -1 <= s.idx < Profile.Windows(g, ctx.k)
  {
    var p, zone := Profile.Windows(g, ctx.k), Zone(ctx.k, ratio);
    DevFoldInv(c => Term(ctx, g, g, i, c), i, zone, p);
    var s := DevRow(ctx, g, i, ratio);
    assert s.idx == -1 || s.idx in Columns(i, p, zone);
  }

  // ---------------------------------------------------------------------------
  // Agreement with PROFILE

  /** With the default ratio, DEV_PROFILE's exclusion zone is PROFILE's default
      one: |j - i| < k / 4 exactly when |j - i| < ceil(k / 4). */
  lemma SameExclusionZone(i: int, p: int, k: nat)
    ensures Columns(i, p, Zone(k, DefaultRatio)) == Profile.Admissible(i, Profile.DefaultExclusionRadius(k), p)
  {
    var r := Profile.DefaultExclusionRadius(k);
    forall c
      ensures c in Columns(i, p, Zone(k, DefaultRatio)) <==> c in Profile.Admissible(i, r, p)
    {
      var a := Abs(c - i);
      assert (a as real) < Zone(k, DefaultRatio) <==> 4 * a < k;
      assert 4 * a < k <==> a < r;
    }
  }

  /** On a series whose terms are finite and non-negative and stay, scaled
      or not, below Double.MAX_VALUE, with the default ratio and radius, no
      macro, a strictly increasing square root and some column outside the
      exclusion zone, DEV_PROFILE and PROFILE report the same neighbour for
      every row, and the same value once DEV_PROFILE has scaled its term. */
  lemma AgreesWithProfile(ctx: Ctx, g: Gts<real>, i: int)
    requires ctx.macro.None? && 1 <= ctx.k
    requires forall x, y :: 0.0 <= x < y ==> ctx.sqrt(x) < ctx.sqrt(y)
    requires 0 <= i < Profile.Windows(g, ctx.k)
    requires forall c :: 0 <= c < Profile.Windows(g, ctx.k) ==>
               Term(ctx, g, g, i, c).Finite? && 0.0 <= Term(ctx, g, g, i, c).r < MaxValue &&
               Improves(Scale(Term(ctx, g, g, i, c), ctx.k, ctx.sqrt))
    requires Columns(i, Profile.Windows(g, ctx.k), Zone(ctx.k, DefaultRatio)) != {}
    ensures var dev := DevRow(ctx, g, i, DefaultRatio);
            var pro := Profile.Row(ctx, g, i, Profile.DefaultExclusionRadius(ctx.k), false);
            dev.idx == pro.i1 && Scale(dev.v, ctx.k, ctx.sqrt) == pro.v1
  {
    var p, r := Profile.Windows(g, ctx.k), Profile.DefaultExclusionRadius(ctx.k);
    var adm := Profile.Admissible(i, r, p);
    DevNearestByDistance(ctx, g, i);
    var dev := DevRow(ctx, g, i, DefaultRatio);
    assert dev.idx in adm && Improves(Profile.PairDist(ctx, g, i, dev.idx));
    Profile.RowIsNearest(ctx, g, i, r, false);
    var pro := Profile.Row(ctx, g, i, r, false);
    assert IsNearest(adm, c => Profile.PairDist(ctx, g, i, c), i, pro.i1);
    NearestUnique(adm, c => Profile.PairDist(ctx, g, i, c), i, dev.idx, pro.i1);
  }

  /** Where the agreement ends: on a row with no column outside the default
      exclusion zone (with default ratio and radius), DEV_PROFILE's index stays
      -1, so its tickAtIndex throws, while PROFILE keeps Double.MAX_VALUE with
      index 0. */
  lemma DisagreesWithoutColumns(ctx: Ctx, g: Gts<real>, i: int)
    requires 0 <= i < Profile.Windows(g, ctx.k)
    requires Columns(i, Profile.Windows(g, ctx.k), Zone(ctx.k, DefaultRatio)) == {}
    ensures DevRow(ctx, g, i, DefaultRatio).idx == -1
    ensures var pro := Profile.Row(ctx, g, i, Profile.DefaultExclusionRadius(ctx.k), false);
            pro.v1 == Finite(MaxValue) && pro.i1 == 0
  {
    var p, r := Profile.Windows(g, ctx.k), Profile.DefaultExclusionRadius(ctx.k);
    DevRowIsNearest(ctx, g, i, DefaultRatio);
    SameExclusionZone(i, p, ctx.k);
    assert Profile.Admissible(i, r, p) == {};
    Profile.RowIsNearest(ctx, g, i, r, false);
  }

  /** Under the hypotheses of AgreesWithProfile, DEV_PROFILE's neighbour is the
      nearest column of PROFILE's exclusion zone by PROFILE's distance, and
      its scaled value that distance. */
  lemma DevNearestByDistance(ctx: Ctx, g: Gts<real>, i: int)
    requires ctx.macro.None? && 1 <= ctx.k
    requires forall x, y :: 0.0 <= x < y ==> ctx.sqrt(x) < ctx.sqrt(y)
    requires 0 <= i < Profile.Windows(g, ctx.k)
    requires forall c :: 0 <= c < Profile.Windows(g, ctx.k) ==>
               Term(ctx, g, g, i, c).Finite? && 0.0 <= Term(ctx, g, g, i, c).r < MaxValue &&
               Improves(Scale(Term(ctx, g, g, i, c), ctx.k, ctx.sqrt))
    requires Columns(i, Profile.Windows(g, ctx.k), Zone(ctx.k, DefaultRatio)) != {}
    ensures var dev := DevRow(ctx, g, i, DefaultRatio);
            var adm := Profile.Admissible(i, Profile.DefaultExclusionRadius(ctx.k), Profile.Windows(g, ctx.k));
            IsNearest(adm, c => Profile.PairDist(ctx, g, i, c), i, dev.idx) &&
            Scale(dev.v, ctx.k, ctx.sqrt) == Profile.PairDist(ctx, g, i, dev.idx)
  {
    var p, k := Profile.Windows(g, ctx.k), ctx.k;
    var adm := Columns(i, p, Zone(k, DefaultRatio));
    SameExclusionZone(i, p, k);
    assert forall c :: c in adm ==> 0 <= c < p;
    var c0 :| c0 in adm;
    assert Improves(Term(ctx, g, g, i, c0));
    DevRowIsNearest(ctx, g, i, DefaultRatio);
    var dev := DevRow(ctx, g, i, DefaultRatio);
    ScaledNearest(ctx, g, i, adm, dev.idx);
    DistSymmetric(ctx, g, i, dev.idx);
  }

  /** Under the hypotheses of AgreesWithProfile, the nearest column by the
      unscaled term is the nearest column by PROFILE's distance. */
  lemma ScaledNearest(ctx: Ctx, g: Gts<real>, i: int, adm: set<int>, c: int)
    requires ctx.macro.None? && 1 <= ctx.k
    requires forall x, y :: 0.0 <= x < y ==> ctx.sqrt(x) < ctx.sqrt(y)
    requires forall c' :: c' in adm ==>
               Term(ctx, g, g, i, c').Finite? && 0.0 <= Term(ctx, g, g, i, c').r < MaxValue &&
               Improves(Scale(Term(ctx, g, g, i, c'), ctx.k, ctx.sqrt))
    requires IsNearest(adm, c' => Term(ctx, g, g, i, c'), i, c)
    ensures IsNearest(adm, c' => Profile.PairDist(ctx, g, i, c'), i, c)
  {
    ScaledOrder(ctx, g, i, adm);
    NearestTransfer(adm, c' => Term(ctx, g, g, i, c'), c' => Profile.PairDist(ctx, g, i, c'), i, c);
  }

  lemma ScaledOrder(ctx: Ctx, g: Gts<real>, i: int, adm: set<int>)
    requires ctx.macro.None? && 1 <= ctx.k
    requires forall x, y :: 0.0 <= x < y ==> ctx.sqrt(x) < ctx.sqrt(y)
    requires forall c :: c in adm ==>
               Term(ctx, g, g, i, c).Finite? && 0.0 <= Term(ctx, g, g, i, c).r < MaxValue &&
               Improves(Scale(Term(ctx, g, g, i, c), ctx.k, ctx.sqrt))
    ensures forall c :: c in adm ==> Improves(Profile.PairDist(ctx, g, i, c)) && Improves(Term(ctx, g, g, i, c))
    ensures forall a, b :: a in adm && b in adm ==>
              (Lt(Term(ctx, g, g, i, a), Term(ctx, g, g, i, b)) <==> Lt(Profile.PairDist(ctx, g, i, a), Profile.PairDist(ctx, g, i, b)))
    ensures forall a, b :: a in adm && b in adm ==>
              (Term(ctx, g, g, i, a) == Term(ctx, g, g, i, b) <==> Profile.PairDist(ctx, g, i, a) == Profile.PairDist(ctx, g, i, b))
  {
    forall c | c in adm
      ensures Profile.PairDist(ctx, g, i, c) == Scale(Term(ctx, g, g, i, c), ctx.k, ctx.sqrt)
    {
      DistSymmetric(ctx, g, i, c);
    }
    forall a, b | a in adm && b in adm
      ensures Lt(Term(ctx, g, g, i, a), Term(ctx, g, g, i, b)) <==> Lt(Profile.PairDist(ctx, g, i, a), Profile.PairDist(ctx, g, i, b))
      ensures Term(ctx, g, g, i, a) == Term(ctx, g, g, i, b) <==> Profile.PairDist(ctx, g, i, a) == Profile.PairDist(ctx, g, i, b)
    {
      ScaleMonotone(Term(ctx, g, g, i, a).r, Term(ctx, g, g, i, b).r, ctx.k, ctx.sqrt);
    }
  }

  // ---------------------------------------------------------------------------
  // The imperative computation

  /** Entry j of cache a holds the dot product of windows i and j for every
      column j that row i scans. */
  ghost predicate CacheRow(a: array<real>, xs: seq<real>, k: nat, zone: real, i: int)
    reads a
  {
    Cached(a, xs, k, zone, i, a.Length)
  }

  /** The first m cells of a hold row i's dot products outside the zone. */
  ghost predicate Cached(a: array<real>, xs: seq<real>, k: nat, zone: real, i: int, m: int)
    reads a
  {
    0 <= i && i + k <= |xs| &&
    forall j :: 0 <= j < m && j < a.Length && Kept(i, j, zone) ==> j + k <= |xs| && a[j] == Dot(xs, xs, i, j, k)
  }

  /** A column in the zone leaves the cache as it is. */
  lemma CachedSkip(a: array<real>, xs: seq<real>, k: nat, zone: real, i: int, j: int)
    requires Cached(a, xs, k, zone, i, j) && !Kept(i, j, zone)
    ensures Cached(a, xs, k, zone, i, j + 1)
  {
  }

  /** Writes the dot product of row i and column j into the row's cache and,
      on row 0, into row 0's cache. */
  method Record(a: array<real>, init: array<real>, ghost xs: seq<real>, ghost k: nat, ghost zone: real,
                i: int, j: int, dot: real)
    requires a != init && 0 <= j < a.Length && a.Length == init.Length && j + k <= |xs|
    requires 0 <= i && i + k <= |xs| && Kept(i, j, zone) && dot == Dot(xs, xs, i, j, k)
    requires Cached(a, xs, k, zone, i, j) && (i == 0 ==> Cached(init, xs, k, zone, 0, j))
    modifies a, init
    ensures Cached(a, xs, k, zone, i, j + 1) && (i == 0 ==> Cached(init, xs, k, zone, 0, j + 1))
    ensures i != 0 ==> unchanged(init)
  {
    if i == 0 {
      init[j] := dot;
    }
    a[j] := dot;
  }

  /** The dot product of windows i and j as the row scan obtains it: in full
      on row 0, from the previous row's cache for j > 0, from row 0's cache by
      symmetry for j = 0. */
  method RowDot(xs: seq<real>, k: nat, zone: real, i: int, j: int, dotCache: array<real>, dotRowInit: array<real>)
    returns (dot: real)
    requires 1 <= k && 0 <= i && i + k <= |xs| && 0 <= j && j + k <= |xs| && Kept(i, j, zone)
    requires dotCache.Length == dotRowInit.Length && i < dotRowInit.Length && j < dotCache.Length
    requires i > 0 ==> CacheRow(dotCache, xs, k, zone, i - 1) && CacheRow(dotRowInit, xs, k, zone, 0)
    ensures dot == Dot(xs, xs, i, j, k)
  {
    dot := 0.0;
    if i == 0 {
      for l := 0 to k
        invariant dot == Dot(xs, xs, i, j, l)
      {
        dot := dot + xs[i + l] * xs[j + l];
      }
    } else if j > 0 {
      assert Kept(i - 1, j - 1, zone);
      DotSlide(xs, xs, i, j, k);
      dot := dotCache[j - 1] - xs[i - 1] * xs[j - 1] + xs[i + k - 1] * xs[j + k - 1];
    } else {
      assert Kept(0, i, zone);
      DotSymmetric(xs, 0, i, k);
      dot := dotRowInit[i];
    }
  }

  /** Row i: the scan of every column, writing each dot product into
      dotCache2 (and, on row 0, into dotRowInit). */
  method ScanRow(ctx: Ctx, g: Gts<real>, means: seq<real>, stds: seq<real>, zone: real, i: int,
                 dotCache: array<real>, dotCache2: array<real>, dotRowInit: array<real>)
    returns (v: Num, idx: int)
    requires WellFormed(g) && ctx.macro.None? && 1 <= ctx.k && 0 <= i < Profile.Windows(g, ctx.k)
    requires Profile.StatsOf(ctx, g, means, stds)
    requires dotCache.Length == Profile.Windows(g, ctx.k) && dotCache2.Length == dotCache.Length
    requires dotRowInit.Length == dotCache.Length
    requires dotCache != dotCache2 && dotCache != dotRowInit && dotCache2 != dotRowInit
    requires i > 0 ==> CacheRow(dotCache, g.values, ctx.k, zone, i - 1) && CacheRow(dotRowInit, g.values, ctx.k, zone, 0)
    modifies dotCache2, dotRowInit
    ensures DevState(v, idx) == Scan(ctx, g, i, zone, Profile.Windows(g, ctx.k))
    ensures CacheRow(dotCache2, g.values, ctx.k, zone, i) && CacheRow(dotRowInit, g.values, ctx.k, zone, 0)
    ensures i > 0 ==> CacheRow(dotCache, g.values, ctx.k, zone, i - 1)
  {
    var p, k, xs := Profile.Windows(g, ctx.k), ctx.k, g.values;
    v, idx := Finite(MaxValue), -1;
    for j := 0 to p
      invariant DevState(v, idx) == Scan(ctx, g, i, zone, j)
      invariant Cached(dotCache2, xs, k, zone, i, j) && (i == 0 ==> Cached(dotRowInit, xs, k, zone, 0, j))
      invariant i > 0 ==> CacheRow(dotCache, xs, k, zone, i - 1) && CacheRow(dotRowInit, xs, k, zone, 0)
    {
      ScanNext(ctx, g, i, zone, j);
      if Kept(i, j, zone) {
        var dot := RowDot(xs, k, zone, i, j, dotCache, dotRowInit);
        Record(dotCache2, dotRowInit, xs, k, zone, i, j, dot);
        v, idx := Compare(v, idx, i, j, Unscaled(dot, means[i], means[j], stds[i], stds[j], k));
        TermOfDot(ctx, g, means, stds, i, j, dot);
      } else {
        CachedSkip(dotCache2, xs, k, zone, i, j);
        if i == 0 {
          CachedSkip(dotRowInit, xs, k, zone, 0, j);
        }
      }
    }
  }

  /** The unscaled term from a dot product and the window statistics. */
  lemma TermOfDot(ctx: Ctx, g: Gts<real>, means: seq<real>, stds: seq<real>, i: int, j: int, dot: real)
    requires WellFormed(g) && ctx.macro.None? && 1 <= ctx.k
    requires 0 <= i < Profile.Windows(g, ctx.k) && 0 <= j < Profile.Windows(g, ctx.k)
    requires Profile.StatsOf(ctx, g, means, stds) && dot == Dot(g.values, g.values, i, j, ctx.k)
    ensures Unscaled(dot, means[i], means[j], stds[i], stds[j], ctx.k) == Term(ctx, g, g, i, j)
  {
  }

  /** The compare-and-set of one row with one column. */
  method Compare(v: Num, idx: int, i: int, j: int, d: Num) returns (v': Num, idx': int)
    ensures DevState(v', idx') == DevStep(DevState(v, idx), i, j, d)
  {
    v', idx' := v, idx;
    if Lt(d, v') {
      v', idx' := d, j;
    }
    if Eq(d, v') && Abs(j - i) < Abs(idx' - i) {
      idx' := j;
    }
  }

  /** The entries of rows 0 .. m - 1: the row's own tick, the tick of its
      neighbour as elevation, the scaled minimum as value. */
  ghost predicate DevEntries(ctx: Ctx, g: Gts<real>, ratio: real, m: int,
                             ticks: seq<int>, elevations: seq<Option<int>>, values: seq<Num>)
    requires Profile.Windows(g, ctx.k) >= 0
  {
    0 <= m <= |g.ticks| && |ticks| == m && |elevations| == m && |values| == m &&
    (forall i :: 0 <= i < m ==> ticks[i] == g.ticks[i]) &&
    (forall i :: 0 <= i < m ==> 0 <= DevRow(ctx, g, i, ratio).idx < |g.ticks|) &&
    (forall i :: 0 <= i < m ==> elevations[i] == Some(g.ticks[DevRow(ctx, g, i, ratio).idx])) &&
    (forall i :: 0 <= i < m ==> values[i] == Scale(DevRow(ctx, g, i, ratio).v, ctx.k, ctx.sqrt))
  }

  /** out is DEV_PROFILE's result: an empty clone of the input (same
      bucketization) that received one entry per window, without location. */
  ghost predicate IsDevProfile(out: Gts<Num>, ctx: Ctx, g: Gts<real>, ratio: real)
    requires Profile.Windows(g, ctx.k) >= 0
  {
    var p := Profile.Windows(g, ctx.k);
    WellFormed(out) && DevEntries(ctx, g, ratio, p, out.ticks, out.elevations, out.values) &&
    (forall i :: 0 <= i < p ==> out.locations[i].None?) &&
    out.isDouble == (p > 0) && out.bucketized == g.bucketized && out.lastbucket == g.lastbucket &&
    out.bucketspan == g.bucketspan && out.bucketcount == g.bucketcount
  }

  /** The row loop, with the three caches; it stops at the first row without
      a neighbour. */
  method Rows(ctx: Ctx, g: Gts<real>, means: seq<real>, stds: seq<real>, rt: real)
    returns (ok: bool, ticks: seq<int>, elevations: seq<Option<int>>, values: seq<Num>)
    requires WellFormed(g) && ctx.macro.None? && 1 <= ctx.k && Profile.Windows(g, ctx.k) >= 0
    requires Profile.StatsOf(ctx, g, means, stds)
    ensures ok <==> forall m :: 0 <= m < Profile.Windows(g, ctx.k) ==> DevRow(ctx, g, m, rt).idx != -1
    ensures ok ==> DevEntries(ctx, g, rt, Profile.Windows(g, ctx.k), ticks, elevations, values)
  {
    var p, k, zone := Profile.Windows(g, ctx.k), ctx.k, Zone(ctx.k, rt);
    var dotCache := new real[p](_ => 0.0);
    var dotCache2 := new real[p](_ => 0.0);
    var dotRowInit := new real[p](_ => 0.0);
    ticks, elevations, values := [], [], [];
    for i := 0 to p
      invariant dotCache.Length == p && dotCache2.Length == p && dotRowInit.Length == p
      invariant dotCache != dotCache2 && dotCache != dotRowInit && dotCache2 != dotRowInit
      invariant fresh(dotCache) && fresh(dotCache2) && fresh(dotRowInit)
      invariant i > 0 ==> CacheRow(dotCache, g.values, k, zone, i - 1) && CacheRow(dotRowInit, g.values, k, zone, 0)
      invariant DevEntries(ctx, g, rt, i, ticks, elevations, values)
      invariant forall m :: 0 <= m < i ==> DevRow(ctx, g, m, rt).idx != -1
    {
      var v, idx := ScanRow(ctx, g, means, stds, zone, i, dotCache, dotCache2, dotRowInit);
      dotCache, dotCache2 := dotCache2, dotCache;
      var value := Scale(v, k, ctx.sqrt);
      DevRowIsNearest(ctx, g, i, rt);
      var elevation := TickAtIndex(g, idx);
      if elevation.Err? {
        return false, ticks, elevations, values;
      }
      EntriesSnoc(ctx, g, rt, i, ticks, elevations, values);
      ticks := ticks + [g.ticks[i]];
      elevations := elevations + [Some(elevation.value)];
      values := values + [value];
    }
    ok := true;
  }

  /** Appending the entry of row i to the entries of the rows before it. */
  lemma EntriesSnoc(ctx: Ctx, g: Gts<real>, ratio: real, i: int,
                    ticks: seq<int>, elevations: seq<Option<int>>, values: seq<Num>)
    requires Profile.Windows(g, ctx.k) >= 0 && 0 <= i < |g.ticks|
    requires DevEntries(ctx, g, ratio, i, ticks, elevations, values)
    requires 0 <= DevRow(ctx, g, i, ratio).idx < |g.ticks|
    ensures var s := DevRow(ctx, g, i, ratio);
            DevEntries(ctx, g, ratio, i + 1, ticks + [g.ticks[i]], elevations + [Some(g.ticks[s.idx])],
                       values + [Scale(s.v, ctx.k, ctx.sqrt)])
  {
  }

  /** DEV_PROFILE: its checks in order, the statistics, then the rows. A row
      with no neighbour (index -1) ends in the index exception of tickAtIndex.
      The series is taken as already sorted. */
  method Apply(g: Gts<real>, k: int, ratio: Option<real>, sqrt: real -> real) returns (res: Result<Gts<Num>>)
    requires WellFormed(g)
    ensures k < 2 ==> res == Err(SubsequenceTooShort)
    ensures k >= 2 && SeriesCheck(g).Some? ==> res == Err(SeriesCheck(g).value)
    ensures k >= 2 && SeriesCheck(g).None? && |g.ticks| - k + 1 < 0 ==> res == Err(NegativeArraySize)
    ensures k >= 2 && SeriesCheck(g).None? && |g.ticks| - k + 1 >= 0 ==>
              var ctx := Ctx(k, None, sqrt);
              (res.Err? <==> exists i :: 0 <= i < |g.ticks| - k + 1 && DevRow(ctx, g, i, RatioOf(ratio)).idx == -1) &&
              (res.Err? ==> res.error == IndexOutOfBounds) &&
              (res.Ok? ==> IsDevProfile(res.value, ctx, g, RatioOf(ratio)))
  {
    var rt := RatioOf(ratio);
    if k < 2 {
      return Err(SubsequenceTooShort);
    }
    var e := SeriesCheck(g);
    if e.Some? {
      return Err(e.value);
    }
    var p := |g.ticks| - k + 1;
    if p < 0 {
      return Err(NegativeArraySize);
    }
    var ctx := Ctx(k, None, sqrt);
    var means, stds := Stats.WindowStats(g.values, k, sqrt);
    var ok, ticks, elevations, values := Rows(ctx, g, means, stds, rt);
    if !ok {
      return Err(IndexOutOfBounds);
    }
    res := Ok(Gts(ticks, seq(p, _ => None), elevations, values, p > 0, g.bucketized,
                  g.lastbucket, g.bucketspan, g.bucketcount));
  }
}
