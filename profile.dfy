/** PROFILE: the self-join matrix profile by STOMP. The upper triangle of the
    distance matrix is traversed diagonal by diagonal, from the exclusion radius
    up; along a diagonal the dot product is updated in O(1); each pair (i, j)
    updates the row minimum of row i (neighbour j) and of row j (neighbour i).
    In robust mode a second minimum is kept per row and reported instead. */
module Profile {
  import opened Common
  import Stats
  import opened Distance
  import AtBucketIndex
  import opened Nearest

  /** The built-in maxsize of PROFILE. */
  const DefaultMaxSize: int := 50000

  /** The default exclusion radius, ceil(k / 4): the least integer r with 4r >= k. */
  function DefaultExclusionRadius(k: int): (r: int)
    ensures 4 * (r - 1) < k <= 4 * r
  {
    Ceil(k as real * 0.25)
  }

  /** The radius given as a parameter, or the default one. */
  function ExclusionRadius(k: int, radius: Option<int>): int {
    match radius
    case Some(r) => r
    case None => DefaultExclusionRadius(k)
  }

  /** The state of row x in the four result arrays: minimum and its index, and
      the second minimum and its index of robust mode. */
  datatype RowState = RowState(v1: Num, i1: int, v2: Num, i2: int)

  /** A row before any pair was seen: minima at Double.MAX_VALUE, indices at 0
      (Java's zero-initialised long arrays). */
  const Init: RowState := RowState(Finite(MaxValue), 0, Finite(MaxValue), 0)

  /** One compare-and-set of a row with column c at distance d. The second
      minimum is touched only when d does not beat the first. */
  function Step(s: RowState, c: int, d: Num, robust: bool): RowState {
    if Lt(d, s.v1) then s.(v1 := d, i1 := c)
    else if robust && Lt(d, s.v2) then s.(v2 := d, i2 := c)
    else s
  }

  /** The number of windows of a series of n samples. */
  function Windows(g: Gts<real>, k: nat): int {
    |g.values| - k + 1
  }

  /** The distance row x sees for column c: computed once for the pair, with the
      lower index as the first window. */
  function PairDist(ctx: Ctx, g: Gts<real>, x: int, c: int): Num {
    Dist(ctx, g, g, Min(x, c), Max(x, c))
  }

  /** Row x after the columns cs, in this order. */
  function Fold(ctx: Ctx, g: Gts<real>, x: int, robust: bool, cs: seq<int>): RowState
    decreases |cs|
  {
    if cs == [] then Init
    else
      var c := cs[|cs| - 1];
      Step(Fold(ctx, g, x, robust, cs[..|cs| - 1]), c, PairDist(ctx, g, x, c), robust)
  }

  /** The columns row x has received on diagonal t once the pairs with column
      index below j are done: x - t (as the column end of pair (x - t, x)),
      then x + t (as the row end of pair (x, x + t)). */
  function ColsAt(x: int, t: int, j: int): seq<int> {
    (if t <= x < j then [x - t] else []) + (if x + t < j then [x + t] else [])
  }

  /** The columns row x has received once the diagonals r .. t - 1 are done. */
  function Visits(x: int, r: int, t: int, p: int): seq<int>
    decreases t - r
  {
    if t <= r then [] else Visits(x, r, t - 1, p) + ColsAt(x, t - 1, p)
  }

  /** All rows of the profile. */
  ghost function Rows(ctx: Ctx, g: Gts<real>, r: int, robust: bool): seq<RowState>
    requires 0 <= Windows(g, ctx.k)
  {
    seq(Windows(g, ctx.k), x => Row(ctx, g, x, r, robust))
  }

  /** Row x of the profile: all diagonals from r to the last one. */
  function Row(ctx: Ctx, g: Gts<real>, x: int, r: int, robust: bool): RowState {
    var p := Windows(g, ctx.k);
    Fold(ctx, g, x, robust, Visits(x, r, p, p))
  }

  /** The admissible neighbours of row x: windows outside the exclusion zone. */
  function Admissible(x: int, r: int, p: int): set<int> {
    set c | 0 <= c < p && Outside(x, r, c)
  }

  /** Column c lies outside the exclusion zone of radius r around x. */
  predicate Outside(x: int, r: int, c: int) {
    Abs(c - x) >= r
  }

  /** Each column comes no later than the columns after it: closer first,
      then lower (a column may repeat, which it does on diagonal 0). */
  ghost predicate Sorted(x: int, cs: seq<int>) {
    forall a, b :: 0 <= a < b < |cs| ==> cs[a] == cs[b] || Before(x, cs[a], cs[b])
  }

  lemma FoldSnoc(ctx: Ctx, g: Gts<real>, x: int, robust: bool, cs: seq<int>, c: int)
    ensures Fold(ctx, g, x, robust, cs + [c]) == Step(Fold(ctx, g, x, robust, cs), c, PairDist(ctx, g, x, c), robust)
  {
    assert (cs + [c])[..|cs|] == cs;
  }

  /** The columns of row x are exactly the windows at offset r .. t - 1 from x. */
  lemma {:induction false} VisitsMembers(x: int, r: int, t: int, p: int, c: int)
    requires 0 <= x < p && 0 <= r
    ensures c in Visits(x, r, t, p) <==> 0 <= c < p && r <= Abs(c - x) < t
    decreases t - r
  {
    if t > r {
      VisitsMembers(x, r, t - 1, p, c);
    }
  }

  /** The traversal hands each row its columns closest first, lower first. */
  lemma {:induction false} VisitsSorted(x: int, r: int, t: int, p: int)
    requires 0 <= x < p && 0 <= r
    ensures Sorted(x, Visits(x, r, t, p))
    decreases t - r
  {
    if t > r {
      VisitsSorted(x, r, t - 1, p);
      var a, b := Visits(x, r, t - 1, p), ColsAt(x, t - 1, p);
      forall m | 0 <= m < |a|
        ensures Abs(a[m] - x) < t - 1
      {
        VisitsMembers(x, r, t - 1, p, a[m]);
      }
      var v := a + b;
      forall m1, m2 | 0 <= m1 < m2 < |v|
        ensures v[m1] == v[m2] || Before(x, v[m1], v[m2])
      {
        if m2 < |a| {
          assert v[m1] == a[m1] && v[m2] == a[m2];
        } else if m1 < |a| {
          assert v[m1] == a[m1] && v[m2] == b[m2 - |a|];
        } else {
          assert v[m1] == b[m1 - |a|] && v[m2] == b[m2 - |a|];
        }
      }
    }
  }

  /** What the (v1, i1) part of a row holds after a sorted sequence of columns:
      if some column improves on Double.MAX_VALUE, the first column (in that
      order) of minimal distance; otherwise the initial MAX_VALUE and 0. */
  ghost predicate FirstMinimum(ctx: Ctx, g: Gts<real>, x: int, cs: seq<int>, s: RowState) {
    if exists c :: c in cs && Improves(PairDist(ctx, g, x, c)) then
      s.i1 in cs && s.v1 == PairDist(ctx, g, x, s.i1) && Improves(s.v1) &&
      (forall c :: c in cs ==> !Lt(PairDist(ctx, g, x, c), s.v1)) &&
      (forall c :: c in cs && PairDist(ctx, g, x, c) == s.v1 ==> c == s.i1 || Before(x, s.i1, c))
    else
      s.v1 == Finite(MaxValue) && s.i1 == 0
  }

  /** Strict `<` over a sorted sequence keeps the first minimum. */
  lemma {:induction false} FoldFirstMinimum(ctx: Ctx, g: Gts<real>, x: int, robust: bool, cs: seq<int>)
    requires Sorted(x, cs)
    ensures FirstMinimum(ctx, g, x, cs, Fold(ctx, g, x, robust, cs))
    decreases |cs|
  {
    if cs != [] {
      var pre, c := cs[..|cs| - 1], cs[|cs| - 1];
      assert cs == pre + [c];
      assert Sorted(x, pre);
      FoldFirstMinimum(ctx, g, x, robust, pre);
      var s0 := Fold(ctx, g, x, robust, pre);
      var d := PairDist(ctx, g, x, c);
      assert Fold(ctx, g, x, robust, cs) == Step(s0, c, d, robust);
      if Lt(d, s0.v1) {
        FirstMinimumBeaten(ctx, g, x, robust, pre, c, s0);
      } else {
        FirstMinimumKept(ctx, g, x, robust, pre, c, s0);
      }
    }
  }

  /** A column strictly below the running minimum becomes the first minimum. */
  lemma FirstMinimumBeaten(ctx: Ctx, g: Gts<real>, x: int, robust: bool, pre: seq<int>, c: int, s0: RowState)
    requires FirstMinimum(ctx, g, x, pre, s0) && Lt(PairDist(ctx, g, x, c), s0.v1)
    ensures FirstMinimum(ctx, g, x, pre + [c], Step(s0, c, PairDist(ctx, g, x, c), robust))
  {
    var cs, d := pre + [c], PairDist(ctx, g, x, c);
    var s := Step(s0, c, d, robust);
    assert s.v1 == d && s.i1 == c;
    var before := exists c' :: c' in pre && Improves(PairDist(ctx, g, x, c'));
    if before {
      LtTransitive(d, s0.v1, Finite(MaxValue));
    }
    assert c in cs && Improves(d);
    forall c' | c' in cs
      ensures !Lt(PairDist(ctx, g, x, c'), d)
      ensures PairDist(ctx, g, x, c') == d ==> c' == c || Before(x, c, c')
    {
      if c' != c {
        assert c' in pre;
        var d' := PairDist(ctx, g, x, c');
        if Lt(d', d) {
          LtTransitive(d', d, s0.v1);
          if !before {
            LtTransitive(d', d, Finite(MaxValue));
          }
        }
      }
    }
  }

  /** A column not below the running minimum leaves the first minimum where it
      is: on a tie it comes later in the sorted order. */
  lemma FirstMinimumKept(ctx: Ctx, g: Gts<real>, x: int, robust: bool, pre: seq<int>, c: int, s0: RowState)
    requires Sorted(x, pre + [c])
    requires FirstMinimum(ctx, g, x, pre, s0) && !Lt(PairDist(ctx, g, x, c), s0.v1)
    ensures FirstMinimum(ctx, g, x, pre + [c], Step(s0, c, PairDist(ctx, g, x, c), robust))
  {
    var cs, d := pre + [c], PairDist(ctx, g, x, c);
    var s := Step(s0, c, d, robust);
    assert s.v1 == s0.v1 && s.i1 == s0.i1;
    var before := exists c' :: c' in pre && Improves(PairDist(ctx, g, x, c'));
    if before {
      forall c' | c' in cs && PairDist(ctx, g, x, c') == s.v1
        ensures c' == s.i1 || Before(x, s.i1, c')
      {
        if c' == c && c' != s.i1 {
          var m :| 0 <= m < |pre| && pre[m] == s.i1;
          assert cs[m] == s.i1 && cs[|cs| - 1] == c;
        }
      }
      assert s.i1 in cs;
    } else if Improves(d) {
      LtTransitive(d, s0.v1, Finite(MaxValue));
      assert false;
    }
  }

  /** A first minimum over the columns of adm, in the order of the traversal,
      is the nearest admissible neighbour. */
  lemma FirstMinimumIsNearest(ctx: Ctx, g: Gts<real>, x: int, cs: seq<int>, adm: set<int>, s: RowState)
    requires forall c :: c in cs <==> c in adm
    requires FirstMinimum(ctx, g, x, cs, s)
    requires exists c :: c in adm && Improves(PairDist(ctx, g, x, c))
    ensures IsNearest(adm, c => PairDist(ctx, g, x, c), x, s.i1)
  {
    var c0 :| c0 in adm && Improves(PairDist(ctx, g, x, c0));
    assert c0 in cs;
  }

  /** The row minimum is taken over every admissible column, on either side
      of x, and its index is the nearest one (closest, then lower) among the
      columns of minimal distance; with no admissible column below
      Double.MAX_VALUE the row keeps MAX_VALUE and index 0. */
  lemma RowIsNearest(ctx: Ctx, g: Gts<real>, x: int, r: int, robust: bool)
    requires 0 <= x < Windows(g, ctx.k) && 0 <= r
    ensures var s := Row(ctx, g, x, r, robust);
            var adm := Admissible(x, r, Windows(g, ctx.k));
            (exists c :: c in adm && Improves(PairDist(ctx, g, x, c))) ==>
              IsNearest(adm, c => PairDist(ctx, g, x, c), x, s.i1) && s.v1 == PairDist(ctx, g, x, s.i1) &&
              Abs(s.i1 - x) >= r
    ensures var s := Row(ctx, g, x, r, robust);
            var adm := Admissible(x, r, Windows(g, ctx.k));
            (forall c :: c in adm ==> !Improves(PairDist(ctx, g, x, c))) ==>
              s.v1 == Finite(MaxValue) && s.i1 == 0
  {
    var p := Windows(g, ctx.k);
    var cs := Visits(x, r, p, p);
    var s := Row(ctx, g, x, r, robust);
    VisitsSorted(x, r, p, p);
    FoldFirstMinimum(ctx, g, x, robust, cs);
    var adm := Admissible(x, r, p);
    forall c
      ensures c in cs <==> c in adm
    {
      VisitsMembers(x, r, p, p, c);
    }
    if exists c :: c in adm && Improves(PairDist(ctx, g, x, c)) {
      FirstMinimumIsNearest(ctx, g, x, cs, adm, s);
    }
  }

  /** Robust mode leaves the first minimum as it is: the second arrays never
      influence the first ones. */
  lemma {:induction false} RobustKeepsFirst(ctx: Ctx, g: Gts<real>, x: int, cs: seq<int>)
    ensures Fold(ctx, g, x, true, cs).v1 == Fold(ctx, g, x, false, cs).v1
    ensures Fold(ctx, g, x, true, cs).i1 == Fold(ctx, g, x, false, cs).i1
    ensures Fold(ctx, g, x, false, cs).v2 == Finite(MaxValue) && Fold(ctx, g, x, false, cs).i2 == 0
    decreases |cs|
  {
    if cs != [] {
      RobustKeepsFirst(ctx, g, x, cs[..|cs| - 1]);
    }
  }

  /** The second minimum only changes when a distance does not beat the first,
      so it is never strictly below it; when it improves on MAX_VALUE it is the
      distance of a column the row has seen. */
  lemma {:induction false} SecondNotBelowFirst(ctx: Ctx, g: Gts<real>, x: int, cs: seq<int>)
    ensures var s := Fold(ctx, g, x, true, cs);
            !Lt(s.v2, s.v1) &&
            (Improves(s.v2) ==> s.i2 in cs && s.v2 == PairDist(ctx, g, x, s.i2))
    decreases |cs|
  {
    if cs != [] {
      var pre, c := cs[..|cs| - 1], cs[|cs| - 1];
      SecondNotBelowFirst(ctx, g, x, pre);
      var s0 := Fold(ctx, g, x, true, pre);
      var d := PairDist(ctx, g, x, c);
      if Lt(d, s0.v1) {
        if Lt(s0.v2, d) {
          LtTransitive(s0.v2, d, s0.v1);
        }
      }
      assert pre <= cs;
    }
  }

  /** A minimum displaced by a smaller distance is dropped, not moved to the
      second place: after a column at distance d(a) and then one at a smaller
      distance d(b), the second minimum is still MAX_VALUE. */
  lemma DisplacedMinimumDropped(ctx: Ctx, g: Gts<real>, x: int, a: int, b: int)
    requires Improves(PairDist(ctx, g, x, a)) && Lt(PairDist(ctx, g, x, b), PairDist(ctx, g, x, a))
    ensures Fold(ctx, g, x, true, [a, b]) == RowState(PairDist(ctx, g, x, b), b, Finite(MaxValue), 0)
  {
    assert [a, b] == ([] + [a]) + [b];
    FoldSnoc(ctx, g, x, true, [], a);
    FoldSnoc(ctx, g, x, true, [a], b);
  }

  // ---------------------------------------------------------------------------
  // The imperative traversal

  /** Row x of the arrays holds state s (robust mode reads the second arrays too). */
  predicate Holds(v1s: array<Num>, i1s: array<int>, v2s: array<Num>, i2s: array<int>, robust: bool, x: int, s: RowState)
    reads v1s, i1s, v2s, i2s
  {
    0 <= x < v1s.Length && x < i1s.Length && v1s[x] == s.v1 && i1s[x] == s.i1 &&
    (robust ==> x < v2s.Length && x < i2s.Length && v2s[x] == s.v2 && i2s[x] == s.i2)
  }

  /** The four result arrays: p entries each, the second pair only in robust mode. */
  predicate Shaped(v1s: array<Num>, i1s: array<int>, v2s: array<Num>, i2s: array<int>, robust: bool, p: int) {
    v1s.Length == p && i1s.Length == p && v1s != v2s && i1s != i2s &&
    (robust ==> v2s.Length == p && i2s.Length == p)
  }

  /** Row x of the arrays holds want[x], for every row. */
  ghost predicate HoldsAll(v1s: array<Num>, i1s: array<int>, v2s: array<Num>, i2s: array<int>, robust: bool,
                           want: seq<RowState>)
    reads v1s, i1s, v2s, i2s
  {
    |want| == v1s.Length && forall x :: 0 <= x < |want| ==> Holds(v1s, i1s, v2s, i2s, robust, x, want[x])
  }

  /** The state of each of the p rows once the diagonals r .. t - 1 are done
      and the pairs of diagonal t with column index below j. */
  ghost function Targets(ctx: Ctx, g: Gts<real>, r: int, robust: bool, p: nat, t: int, j: int): seq<RowState> {
    seq(p, x => Fold(ctx, g, x, robust, Visits(x, r, t, p) + ColsAt(x, t, j)))
  }

  /** Every row holds its fold over the columns of diagonals r .. t - 1 and
      those of diagonal t below column index j. */
  ghost predicate RowsAt(ctx: Ctx, g: Gts<real>, r: int, robust: bool,
                         v1s: array<Num>, i1s: array<int>, v2s: array<Num>, i2s: array<int>, t: int, j: int)
    reads v1s, i1s, v2s, i2s
  {
    HoldsAll(v1s, i1s, v2s, i2s, robust, Targets(ctx, g, r, robust, v1s.Length, t, j))
  }

  /** Per-window statistics as the loop computes them. */
  ghost predicate StatsOf(ctx: Ctx, g: Gts<real>, means: seq<real>, stds: seq<real>) {
    var p := Windows(g, ctx.k);
    |means| == p && |stds| == p && 1 <= ctx.k &&
    (forall i :: 0 <= i < p ==> means[i] == Stats.Mean(g.values, i, ctx.k)) &&
    (forall i :: 0 <= i < p ==> stds[i] == ctx.sqrt(Stats.Variance(g.values, i, ctx.k)))
  }

  /** The compare-and-set of one row with one column: row x moves one step,
      the other rows keep their states. */
  method Relax(v1s: array<Num>, i1s: array<int>, v2s: array<Num>, i2s: array<int>, robust: bool,
               x: int, c: int, d: Num, ghost want: seq<RowState>)
    requires Shaped(v1s, i1s, v2s, i2s, robust, v1s.Length)
    requires 0 <= x < |want| && HoldsAll(v1s, i1s, v2s, i2s, robust, want)
    modifies v1s, i1s, v2s, i2s
    ensures HoldsAll(v1s, i1s, v2s, i2s, robust, want[x := Step(want[x], c, d, robust)])
  {
    if Lt(d, v1s[x]) {
      v1s[x] := d;
      i1s[x] := c;
    } else if robust && Lt(d, v2s[x]) {
      v2s[x] := d;
      i2s[x] := c;
    }
  }

  lemma ColsAtNext(x: int, t: int, j: int)
    requires 0 <= x && 0 <= t <= j
    ensures x != j && x != j - t ==> ColsAt(x, t, j + 1) == ColsAt(x, t, j)
    ensures 0 < t && x == j - t ==> ColsAt(x, t, j + 1) == ColsAt(x, t, j) + [j]
    ensures 0 < t && x == j ==> ColsAt(x, t, j + 1) == ColsAt(x, t, j) + [j - t]
    ensures t == 0 && x == j ==> ColsAt(x, t, j + 1) == ColsAt(x, t, j) + [j] + [j]
  {
  }

  /** Row x's fold once pair (j - t, j) is done, from its fold before: row
      j - t has received column j, row j column j - t (both, on diagonal 0). */
  lemma FoldNextPair(ctx: Ctx, g: Gts<real>, x: int, r: int, robust: bool, t: int, j: int, p: int)
    requires 0 <= x && 0 <= t <= j
    ensures var vs := Visits(x, r, t, p);
            var before := Fold(ctx, g, x, robust, vs + ColsAt(x, t, j));
            var after := Fold(ctx, g, x, robust, vs + ColsAt(x, t, j + 1));
            after == PairStep(before, x, j - t, j, PairDist(ctx, g, j - t, j), PairDist(ctx, g, j, j - t), robust)
  {
    var vs := Visits(x, r, t, p);
    var cs := vs + ColsAt(x, t, j);
    var da, db := PairDist(ctx, g, j - t, j), PairDist(ctx, g, j, j - t);
    var before := Fold(ctx, g, x, robust, cs);
    ColsAtNext(x, t, j);
    if x == j - t && x == j {
      assert vs + ColsAt(x, t, j + 1) == (cs + [j]) + [j];
      FoldSnoc(ctx, g, x, robust, cs, j);
      FoldSnoc(ctx, g, x, robust, cs + [j], j);
      assert PairStep(before, x, j - t, j, da, db, robust) == Step(Step(before, j, da, robust), j, da, robust);
    } else if x == j - t {
      assert vs + ColsAt(x, t, j + 1) == cs + [j];
      FoldSnoc(ctx, g, x, robust, cs, j);
      assert PairStep(before, x, j - t, j, da, db, robust) == Step(before, j, da, robust);
    } else if x == j {
      assert vs + ColsAt(x, t, j + 1) == cs + [j - t];
      FoldSnoc(ctx, g, x, robust, cs, j - t);
      assert PairStep(before, x, j - t, j, da, db, robust) == Step(before, j - t, db, robust);
    } else {
      assert vs + ColsAt(x, t, j + 1) == cs;
    }
  }

  /** The distance of pair (i, j), i = j - t, computed as the traversal does:
      from the running dot product without a macro, by the macro otherwise. */
  method PairDistance(ctx: Ctx, g: Gts<real>, means: seq<real>, stds: seq<real>, i: int, j: int, dot: real)
    returns (d: Num)
    requires WellFormed(g) && 1 <= ctx.k && 0 <= i <= j < Windows(g, ctx.k)
    requires ctx.macro.None? ==> StatsOf(ctx, g, means, stds) && dot == Dot(g.values, g.values, i, j, ctx.k)
    ensures d == Dist(ctx, g, g, i, j)
  {
    if ctx.macro.None? {
      d := Scale(Unscaled(dot, means[i], means[j], stds[i], stds[j], ctx.k), ctx.k, ctx.sqrt);
    } else {
      var sa := AtBucketIndex.Subsequence(g, ctx.k, i);
      var sb := AtBucketIndex.Subsequence(g, ctx.k, j);
      d := Finite(ctx.macro.value(sa.value, sb.value));
    }
  }

  /** The targets once pair (j - t, j) is done: row j - t has received
      column j, then row j column j - t. */
  lemma TargetsNext(ctx: Ctx, g: Gts<real>, r: int, robust: bool, p: nat, t: int, j: int)
    requires 0 <= t <= j < p
    ensures var w := Targets(ctx, g, r, robust, p, t, j);
            var w1 := w[j - t := Step(w[j - t], j, PairDist(ctx, g, j - t, j), robust)];
            Targets(ctx, g, r, robust, p, t, j + 1) == w1[j := Step(w1[j], j - t, PairDist(ctx, g, j, j - t), robust)]
  {
    var w := Targets(ctx, g, r, robust, p, t, j);
    var next := Targets(ctx, g, r, robust, p, t, j + 1);
    var a, da, db := j - t, PairDist(ctx, g, j - t, j), PairDist(ctx, g, j, j - t);
    forall x | 0 <= x < p
      ensures next[x] == PairStep(w[x], x, a, j, da, db, robust)
    {
      TargetsNextAt(ctx, g, r, robust, p, t, j, x);
    }
    UpdatePair(w, next, a, j, da, db, robust);
  }

  /** What pair (a, b) does to row x in state s: row a receives column b at
      distance da, then row b column a at distance db. */
  function PairStep(s: RowState, x: int, a: int, b: int, da: Num, db: Num, robust: bool): RowState {
    var s1 := if x == a then Step(s, b, da, robust) else s;
    if x == b then Step(s1, a, db, robust) else s1
  }

  /** Row x of the targets, one pair further. */
  lemma TargetsNextAt(ctx: Ctx, g: Gts<real>, r: int, robust: bool, p: nat, t: int, j: int, x: int)
    requires 0 <= t <= j < p && 0 <= x < p
    ensures Targets(ctx, g, r, robust, p, t, j + 1)[x] ==
            PairStep(Targets(ctx, g, r, robust, p, t, j)[x], x, j - t, j,
                     PairDist(ctx, g, j - t, j), PairDist(ctx, g, j, j - t), robust)
  {
    var vs := Visits(x, r, t, p);
    assert Targets(ctx, g, r, robust, p, t, j)[x] == Fold(ctx, g, x, robust, vs + ColsAt(x, t, j));
    assert Targets(ctx, g, r, robust, p, t, j + 1)[x] == Fold(ctx, g, x, robust, vs + ColsAt(x, t, j + 1));
    FoldNextPair(ctx, g, x, r, robust, t, j, p);
  }

  /** Applying a pair row by row is the two updates of the sequence. */
  lemma UpdatePair(w: seq<RowState>, next: seq<RowState>, a: int, b: int, da: Num, db: Num, robust: bool)
    requires |w| == |next| && 0 <= a <= b < |w|
    requires forall x :: 0 <= x < |w| ==> next[x] == PairStep(w[x], x, a, b, da, db, robust)
    ensures var w1 := w[a := Step(w[a], b, da, robust)];
            next == w1[b := Step(w1[b], a, db, robust)]
  {
  }

  /** The last pair of diagonal t completes it. */
  lemma TargetsNextDiagonal(ctx: Ctx, g: Gts<real>, r: int, robust: bool, p: nat, t: int)
    requires r <= t
    ensures Targets(ctx, g, r, robust, p, t, p) == Targets(ctx, g, r, robust, p, t + 1, t + 1)
  {
    forall x | 0 <= x < p
      ensures Visits(x, r, t, p) + ColsAt(x, t, p) == Visits(x, r, t + 1, p) + ColsAt(x, t + 1, t + 1)
    {
      assert ColsAt(x, t + 1, t + 1) == [];
    }
  }

  /** Before diagonal r no row has received a column. */
  lemma TargetsStart(ctx: Ctx, g: Gts<real>, r: int, robust: bool, p: nat)
    ensures Targets(ctx, g, r, robust, p, r, r) == seq(p, _ => Init)
  {
    forall x | 0 <= x < p
      ensures Visits(x, r, r, p) + ColsAt(x, r, r) == []
    {
    }
  }

  /** Once every diagonal from r on is done, each row holds its profile row. */
  lemma TargetsEnd(ctx: Ctx, g: Gts<real>, r: int, robust: bool, t: int)
    requires 0 <= Windows(g, ctx.k) && (t == Windows(g, ctx.k) || t == r >= Windows(g, ctx.k))
    ensures var p := Windows(g, ctx.k);
            Targets(ctx, g, r, robust, p, t, t) == Rows(ctx, g, r, robust)
  {
    var p := Windows(g, ctx.k);
    forall x | 0 <= x < p
      ensures Visits(x, r, t, p) + ColsAt(x, t, t) == Visits(x, r, p, p)
    {
      assert ColsAt(x, t, t) == [];
      if t != p {
        assert Visits(x, r, t, p) == [] == Visits(x, r, p, p);
      }
    }
  }

  /** Pair (j - t, j) at distance d: row j - t gets column j, then row j gets
      column j - t. */
  method VisitPair(ctx: Ctx, g: Gts<real>, r: int, robust: bool,
                   v1s: array<Num>, i1s: array<int>, v2s: array<Num>, i2s: array<int>, t: int, j: int, d: Num)
    requires Shaped(v1s, i1s, v2s, i2s, robust, v1s.Length)
    requires 0 <= t <= j < v1s.Length
    requires d == PairDist(ctx, g, j - t, j) && d == PairDist(ctx, g, j, j - t)
    requires RowsAt(ctx, g, r, robust, v1s, i1s, v2s, i2s, t, j)
    modifies v1s, i1s, v2s, i2s
    ensures RowsAt(ctx, g, r, robust, v1s, i1s, v2s, i2s, t, j + 1)
  {
    var p, i := v1s.Length, j - t;
    ghost var w := Targets(ctx, g, r, robust, p, t, j);
    Relax(v1s, i1s, v2s, i2s, robust, i, j, d, w);
    ghost var w1 := w[i := Step(w[i], j, d, robust)];
    Relax(v1s, i1s, v2s, i2s, robust, j, i, d, w1);
    TargetsNext(ctx, g, r, robust, p, t, j);
  }

  /** The dot product of windows i and j: in full from 0 on the first cell of
      a diagonal, slid from the previous cell's otherwise. */
  method SlideDot(xs: seq<real>, i: int, j: int, k: nat, dot: real) returns (dot': real)
    requires 0 <= i <= j && j + k <= |xs| && 1 <= k
    requires i == 0 ==> dot == 0.0
    requires i > 0 ==> dot == Dot(xs, xs, i - 1, j - 1, k)
    ensures dot' == Dot(xs, xs, i, j, k)
  {
    dot' := dot;
    if i == 0 {
      for l := 0 to k
        invariant dot' == Dot(xs, xs, i, j, l)
      {
        dot' := dot' + xs[i + l] * xs[j + l];
      }
    } else {
      DotSlide(xs, xs, i, j, k);
      dot' := dot' - xs[i - 1] * xs[j - 1] + xs[i + k - 1] * xs[j + k - 1];
    }
  }

  /** One diagonal t: pairs (j - t, j) for j = t .. p - 1, the dot product
      computed in full on the first cell and slid on the others. */
  method Diagonal(ctx: Ctx, g: Gts<real>, means: seq<real>, stds: seq<real>, r: int, t: int, robust: bool,
                  v1s: array<Num>, i1s: array<int>, v2s: array<Num>, i2s: array<int>)
    requires WellFormed(g) && 1 <= ctx.k && 0 <= r <= t < Windows(g, ctx.k)
    requires ctx.macro.None? ==> StatsOf(ctx, g, means, stds)
    requires Shaped(v1s, i1s, v2s, i2s, robust, Windows(g, ctx.k))
    requires RowsAt(ctx, g, r, robust, v1s, i1s, v2s, i2s, t, t)
    modifies v1s, i1s, v2s, i2s
    ensures RowsAt(ctx, g, r, robust, v1s, i1s, v2s, i2s, t + 1, t + 1)
  {
    var p := Windows(g, ctx.k);
    var dot := 0.0;
    for j := t to p
      invariant RowsAt(ctx, g, r, robust, v1s, i1s, v2s, i2s, t, j)
      invariant DotBefore(ctx, g, t, j, dot)
    {
      dot := Cell(ctx, g, means, stds, r, t, robust, v1s, i1s, v2s, i2s, j, dot);
    }
    TargetsNextDiagonal(ctx, g, r, robust, p, t);
  }

  /** Without a macro, dot is the dot product of the cell before (j - t, j) on
      diagonal t, or 0 on the first cell. */
  ghost predicate DotBefore(ctx: Ctx, g: Gts<real>, t: int, j: int, dot: real) {
    ctx.macro.None? ==>
      if j == t then dot == 0.0
      else 0 <= t <= j - 1 && j - 1 + ctx.k <= |g.values| &&
           dot == Dot(g.values, g.values, j - 1 - t, j - 1, ctx.k)
  }

  /** Cell (j - t, j) of diagonal t: its dot product (slid from the previous
      cell's), its distance, and the update of both rows. */
  method Cell(ctx: Ctx, g: Gts<real>, means: seq<real>, stds: seq<real>, r: int, t: int, robust: bool,
              v1s: array<Num>, i1s: array<int>, v2s: array<Num>, i2s: array<int>, j: int, dot: real)
    returns (dot': real)
    requires WellFormed(g) && 1 <= ctx.k && 0 <= t <= j < Windows(g, ctx.k)
    requires ctx.macro.None? ==> StatsOf(ctx, g, means, stds)
    requires Shaped(v1s, i1s, v2s, i2s, robust, Windows(g, ctx.k))
    requires RowsAt(ctx, g, r, robust, v1s, i1s, v2s, i2s, t, j)
    requires DotBefore(ctx, g, t, j, dot)
    modifies v1s, i1s, v2s, i2s
    ensures RowsAt(ctx, g, r, robust, v1s, i1s, v2s, i2s, t, j + 1)
    ensures DotBefore(ctx, g, t, j + 1, dot')
  {
    var i := j - t;
    dot' := dot;
    if ctx.macro.None? {
      dot' := SlideDot(g.values, i, j, ctx.k, dot);
    }
    var d := PairDistance(ctx, g, means, stds, i, j, dot');
    assert d == PairDist(ctx, g, i, j) == PairDist(ctx, g, j, i);
    VisitPair(ctx, g, r, robust, v1s, i1s, v2s, i2s, t, j, d);
  }

  /** The result arrays before the traversal: minima at Double.MAX_VALUE and
      indices at 0; the second pair has no entries outside robust mode. */
  method Start(ctx: Ctx, g: Gts<real>, r: int, robust: bool)
    returns (v1s: array<Num>, i1s: array<int>, v2s: array<Num>, i2s: array<int>)
    requires 0 <= Windows(g, ctx.k)
    ensures fresh(v1s) && fresh(i1s) && fresh(v2s) && fresh(i2s)
    ensures Shaped(v1s, i1s, v2s, i2s, robust, Windows(g, ctx.k))
    ensures RowsAt(ctx, g, r, robust, v1s, i1s, v2s, i2s, r, r)
  {
    var p := Windows(g, ctx.k);
    v1s := MaxArray(p);
    i1s := new int[p](_ => 0);
    if robust {
      v2s := MaxArray(p);
      i2s := new int[p](_ => 0);
    } else {
      v2s := new Num[0];
      i2s := new int[0];
    }
    TargetsStart(ctx, g, r, robust, p);
  }

  /** A new array of p entries, all Double.MAX_VALUE. */
  method MaxArray(p: nat) returns (a: array<Num>)
    ensures fresh(a) && a.Length == p
    ensures forall m :: 0 <= m < p ==> a[m] == Finite(MaxValue)
  {
    a := new Num[p](_ => Finite(0.0));
    for i := 0 to p
      invariant forall m :: 0 <= m < i ==> a[m] == Finite(MaxValue)
    {
      a[i] := Finite(MaxValue);
    }
  }

  /** The result arrays, initialised to MAX_VALUE and 0, then the diagonals
      from the exclusion radius to the last one. */
  method Traverse(ctx: Ctx, g: Gts<real>, means: seq<real>, stds: seq<real>, r: int, robust: bool)
    returns (v1s: array<Num>, i1s: array<int>, v2s: array<Num>, i2s: array<int>)
    requires WellFormed(g) && 1 <= ctx.k && 0 <= r && 1 <= Windows(g, ctx.k)
    requires ctx.macro.None? ==> StatsOf(ctx, g, means, stds)
    ensures fresh(v1s) && fresh(i1s) && fresh(v2s) && fresh(i2s)
    ensures Shaped(v1s, i1s, v2s, i2s, robust, Windows(g, ctx.k))
    ensures HoldsAll(v1s, i1s, v2s, i2s, robust, Rows(ctx, g, r, robust))
  {
    var p := Windows(g, ctx.k);
    v1s, i1s, v2s, i2s := Start(ctx, g, r, robust);
    var t := r;
    while t < p
      invariant t == r || r <= t <= p
      invariant RowsAt(ctx, g, r, robust, v1s, i1s, v2s, i2s, t, t)
      decreases p - t
    {
      Diagonal(ctx, g, means, stds, r, t, robust, v1s, i1s, v2s, i2s);
      t := t + 1;
    }
    TargetsEnd(ctx, g, r, robust, t);
  }

  /** The profile function's checks pass: size, type and bucketization, size
      against the bucket count, radius, and the maxsize guard. */
  predicate Admitted(g: Gts<real>, k: int, r: int, maxsize: int) {
    k >= 2 && SeriesCheck(g).None? && k < g.bucketcount && r >= 0 && |g.ticks| <= maxsize
  }

  /** out is the profile PROFILE builds: p = n - k + 1 entries with ticks
      lastbucket - (p - 1 - i) * bucketspan, where lastbucket is the input's
      last bucket moved back by k - 1 spans; no locations; as value and
      elevation, the row minimum and its index (the second ones in robust mode). */
  ghost predicate IsProfile(out: Gts<Num>, ctx: Ctx, g: Gts<real>, r: int, robust: bool) {
    var p := Windows(g, ctx.k);
    WellFormed(out) && |out.ticks| == p && out.isDouble && out.bucketized &&
    out.lastbucket == g.lastbucket - g.bucketspan * (ctx.k - 1) &&
    out.bucketspan == g.bucketspan && out.bucketcount == p &&
    (forall i :: 0 <= i < p ==> out.ticks[i] == out.lastbucket - (p - 1 - i) * g.bucketspan) &&
    (forall i :: 0 <= i < p ==> out.locations[i].None?) &&
    (forall i :: 0 <= i < p ==>
      out.values[i] == (if robust then Row(ctx, g, i, r, robust).v2 else Row(ctx, g, i, r, robust).v1) &&
      out.elevations[i] == Some(if robust then Row(ctx, g, i, r, robust).i2 else Row(ctx, g, i, r, robust).i1))
  }

  /** PROFILE: the checks in the source's order, then the statistics (without
      a macro), the result layout and the diagonal traversal. The series is
      taken as already sorted. */
  method Apply(g: Gts<real>, k: int, radius: Option<int>, macro: Option<Macro>, robust: bool,
               config: Option<int>, capability: Option<int>, sqrt: real -> real)
    returns (res: Result<Gts<Num>>)
    requires WellFormed(g)
    ensures k < 2 ==> res == Err(SubsequenceTooShort)
    ensures k >= 2 && SeriesCheck(g).Some? ==> res == Err(SeriesCheck(g).value)
    ensures k >= 2 && SeriesCheck(g).None? && k >= g.bucketcount ==> res == Err(SubsequenceTooLong)
    ensures k >= 2 && SeriesCheck(g).None? && k < g.bucketcount && ExclusionRadius(k, radius) < 0 ==>
              res == Err(NegativeExclusionRadius)
    ensures (k >= 2 && SeriesCheck(g).None? && k < g.bucketcount && ExclusionRadius(k, radius) >= 0 &&
             |g.ticks| > ResolveMaxSize(DefaultMaxSize, config, capability)) ==> res == Err(MaxSizeExceeded)
    ensures Admitted(g, k, ExclusionRadius(k, radius), ResolveMaxSize(DefaultMaxSize, config, capability)) ==>
              res.Ok? && IsProfile(res.value, Ctx(k, macro, sqrt), g, ExclusionRadius(k, radius), robust)
  {
    var r := ExclusionRadius(k, radius);
    if k < 2 {
      return Err(SubsequenceTooShort);
    }
    var e := SeriesCheck(g);
    if e.Some? {
      return Err(e.value);
    }
    if k >= g.bucketcount {
      return Err(SubsequenceTooLong);
    }
    if r < 0 {
      return Err(NegativeExclusionRadius);
    }
    var maxsize := ResolveMaxSize(DefaultMaxSize, config, capability);
    if |g.ticks| > maxsize {
      return Err(MaxSizeExceeded);
    }
    var ctx := Ctx(k, macro, sqrt);
    var p := |g.ticks| - k + 1;

    var means, stds := [], [];
    if macro.None? {
      means, stds := Stats.WindowStats(g.values, k, sqrt);
    }

    var bucketspan := g.bucketspan;
    var lastbucket := g.lastbucket - bucketspan * (k - 1);
    var ticks := Layout(lastbucket, bucketspan, p);
    var v1s, i1s, v2s, i2s := Traverse(ctx, g, means, stds, r, robust);
    var values, elevations := Collect(v1s, i1s, v2s, i2s, robust, Rows(ctx, g, r, robust));
    res := Ok(Gts(ticks, seq(p, _ => None), elevations, values, true, true, lastbucket, bucketspan, p));
  }

  /** The ticks of the result: entry m at lastbucket - (p - 1 - m) * bucketspan. */
  method Layout(lastbucket: int, bucketspan: int, p: nat) returns (ticks: seq<int>)
    ensures |ticks| == p
    ensures forall m :: 0 <= m < p ==> ticks[m] == lastbucket - (p - 1 - m) * bucketspan
  {
    var a := new int[p](_ => 0);
    for i := 0 to p
      invariant forall m :: 0 <= m < i ==> a[m] == lastbucket - (p - 1 - m) * bucketspan
    {
      a[i] := lastbucket - (p - 1 - i) * bucketspan;
    }
    ticks := a[..];
  }

  /** The values and elevations of the result: the first minima and their
      indices, or in robust mode the second ones. */
  method Collect(v1s: array<Num>, i1s: array<int>, v2s: array<Num>, i2s: array<int>, robust: bool,
                 ghost want: seq<RowState>)
    returns (values: seq<Num>, elevations: seq<Option<int>>)
    requires Shaped(v1s, i1s, v2s, i2s, robust, |want|) && HoldsAll(v1s, i1s, v2s, i2s, robust, want)
    ensures |values| == |want| && |elevations| == |want|
    ensures forall m :: 0 <= m < |want| ==>
              values[m] == (if robust then want[m].v2 else want[m].v1) &&
              elevations[m] == Some(if robust then want[m].i2 else want[m].i1)
  {
    values := if robust then v2s[..] else v1s[..];
    var indices := if robust then i2s[..] else i1s[..];
    elevations := seq(|indices|, m requires 0 <= m < |indices| => Some(indices[m]));
    forall m | 0 <= m < |want|
      ensures values[m] == (if robust then want[m].v2 else want[m].v1)
      ensures elevations[m] == Some(if robust then want[m].i2 else want[m].i1)
    {
      assert Holds(v1s, i1s, v2s, i2s, robust, m, want[m]);
    }
  }

  /** The tick of entry i is the tick of the first sample of window i: on a
      bucketized, filled series the layout formula lands on the input's own
      tick i. */
  lemma ProfileTicksAreWindowStarts(out: Gts<Num>, ctx: Ctx, g: Gts<real>, r: int, robust: bool, i: int)
    requires WellFormed(g) && BucketLayout(g) && 1 <= ctx.k && IsProfile(out, ctx, g, r, robust)
    requires 0 <= i < |out.ticks|
    ensures out.ticks[i] == g.ticks[i]
    ensures i + 1 < |out.ticks| ==> out.ticks[i + 1] - out.ticks[i] == g.bucketspan
  {
    var n, p, k, bs := |g.ticks|, Windows(g, ctx.k), ctx.k, g.bucketspan;
    assert out.ticks[i] == g.lastbucket - bs * (k - 1) - (p - 1 - i) * bs;
    assert g.ticks[i] == g.lastbucket - (n - 1 - i) * bs;
    assert n - 1 - i == (k - 1) + (p - 1 - i);
    assert ((k - 1) + (p - 1 - i)) * bs == bs * (k - 1) + (p - 1 - i) * bs;
  }
}
