/** FLUSS: semantic segmentation of a self-join profile. Every sample i and
    its nearest-neighbour index (its elevation) span an arc; the corrected arc
    curve at x counts the arcs passing over x, divided by the count an
    arc set without regimes would give there (the canonical parabola), clamped
    at 1, with the first and last window_size entries set to 1. */
module Fluss {
  import opened Common

  /** canonArcCurveValue: h - (1 / h) (i - h)^2 with h = n / 2, which equals
      2 i (n - i) / n. */
  function Canon(n: int, i: int): (c: real)
    requires n > 0
    ensures c * (n as real) == 2.0 * (i as real) * ((n - i) as real)
  {
    var h := n as real / 2.0;
    h - (1.0 / h) * ((i as real - h) * (i as real - h))
  }

  /** The canonical curve is positive strictly inside (0, n). */
  lemma CanonPositive(n: int, i: int)
    requires 0 < i < n
    ensures Canon(n, i) > 0.0
  {
    var h := n as real / 2.0;
    var d := i as real - h;
    assert -h < d < h;
    assert (h - d) * (h + d) == h * h - d * d;
    MulPositive(h - d, h + d);
    assert (1.0 / h) * (h * h) == h;
    MulStrict(1.0 / h, d * d, h * h);
  }

  /** Java's division of a double by a double known to be finite: a zero
      divisor yields an infinity or NaN. */
  function Divide(x: real, y: real): (q: Num)
    ensures y != 0.0 ==> q == Finite(x / y)
    ensures y == 0.0 ==> (q.PosInf? <==> x > 0.0) && (q.NegInf? <==> x < 0.0) && (q.NaN? <==> x == 0.0)
  {
    if y != 0.0 then Finite(x / y)
    else if x > 0.0 then PosInf
    else if x < 0.0 then NegInf
    else NaN
  }

  /** Math.min(1.0, v). */
  function MinOne(v: Num): (m: Num)
    ensures v.NaN? ==> m.NaN?
    ensures !v.NaN? ==> !Lt(Finite(1.0), m) && (m == v || m == Finite(1.0))
  {
    if v.NaN? then NaN
    else if Lt(v, Finite(1.0)) then v
    else Finite(1.0)
  }

  /** The two ends of the arc of sample i, narrowed to int as the source
      does; an elevation-less sample reads as Long.MIN_VALUE, which narrows
      to 0. */
  function Lo(g: Gts<real>, i: int): int
    requires WellFormed(g) && 0 <= i < |g.ticks|
  {
    Int32(Min(i, ElevationAtIndex(g, i)))
  }

  function Hi(g: Gts<real>, i: int): int
    requires WellFormed(g) && 0 <= i < |g.ticks|
  {
    Int32(Max(i, ElevationAtIndex(g, i)))
  }

  /** Both writes of arc i land inside the array. Lo + 1 is not narrowed
      again: when it would wrap, it lies at or above every array length
      either way. */
  predicate ArcFits(g: Gts<real>, i: int)
    requires WellFormed(g) && 0 <= i < |g.ticks|
  {
    0 <= Lo(g, i) + 1 < |g.ticks| && 0 <= Hi(g, i) < |g.ticks|
  }

  predicate ArcsFit(g: Gts<real>)
    requires WellFormed(g)
  {
    forall i :: 0 <= i < |g.ticks| ==> ArcFits(g, i)
  }

  /** The difference array after the first m arcs: +1 after the low end, -1
      at the high end. */
  function Delta(g: Gts<real>, m: nat, x: int): int
    requires WellFormed(g) && m <= |g.ticks|
  {
    if m == 0 then 0
    else Delta(g, m - 1, x) + (if Lo(g, m - 1) + 1 == x then 1 else 0) - (if Hi(g, m - 1) == x then 1 else 0)
  }

  /** The running sum of the differences at 0 .. t - 1. */
  function Cum(g: Gts<real>, m: nat, t: nat): int
    requires WellFormed(g) && m <= |g.ticks|
  {
    if t == 0 then 0 else Cum(g, m, t - 1) + Delta(g, m, t - 1)
  }

  /** The number of the first m arcs that pass strictly over x. */
  function Spanning(g: Gts<real>, m: nat, x: int): nat
    requires WellFormed(g) && m <= |g.ticks|
  {
    if m == 0 then 0
    else Spanning(g, m - 1, x) + (if Lo(g, m - 1) < x < Hi(g, m - 1) then 1 else 0)
  }

  /** The number of the first m arcs whose ends do not come in order around
      x: Hi <= x <= Lo. For arcs with Lo <= Hi these are the self-arcs at x. */
  function Folded(g: Gts<real>, m: nat, x: int): nat
    requires WellFormed(g) && m <= |g.ticks|
  {
    if m == 0 then 0
    else Folded(g, m - 1, x) + (if Hi(g, m - 1) <= x <= Lo(g, m - 1) then 1 else 0)
  }

  /** Adding arc m - 1 to the difference array raises each prefix sum by
      the arc's contribution. */
  lemma {:induction false} CumStep(g: Gts<real>, m: nat, t: nat)
    requires WellFormed(g) && 1 <= m <= |g.ticks|
    ensures Cum(g, m, t) == Cum(g, m - 1, t) + (if 0 <= Lo(g, m - 1) + 1 < t then 1 else 0)
                                             - (if 0 <= Hi(g, m - 1) < t then 1 else 0)
    decreases t
  {
    if t > 0 {
      CumStep(g, m, t - 1);
      assert Delta(g, m, t - 1) == Delta(g, m - 1, t - 1) + (if Lo(g, m - 1) + 1 == t - 1 then 1 else 0)
                                   - (if Hi(g, m - 1) == t - 1 then 1 else 0);
    }
  }

  /** When the arcs fit the array, the running sum at x counts the arcs
      passing over x, less the folded arcs at x. */
  lemma {:induction false} CumCounts(g: Gts<real>, m: nat, x: nat)
    requires WellFormed(g) && m <= |g.ticks|
    requires forall i :: 0 <= i < m ==> ArcFits(g, i)
    ensures Cum(g, m, x + 1) == Spanning(g, m, x) - Folded(g, m, x)
    decreases m
  {
    if m == 0 {
      CumZero(g, x + 1);
    } else {
      var lo, hi := Lo(g, m - 1), Hi(g, m - 1);
      assert ArcFits(g, m - 1);
      CumStep(g, m, x + 1);
      CumCounts(g, m - 1, x);
      Contribution(lo, hi, x);
      assert Spanning(g, m, x) == Spanning(g, m - 1, x) + (if lo < x < hi then 1 else 0);
      assert Folded(g, m, x) == Folded(g, m - 1, x) + (if hi <= x <= lo then 1 else 0);
    }
  }

  /** One arc's share of the running sum at x. */
  lemma Contribution(lo: int, hi: int, x: int)
    requires 0 <= lo + 1 && 0 <= hi
    ensures (if 0 <= lo + 1 < x + 1 then 1 else 0) - (if 0 <= hi < x + 1 then 1 else 0)
            == (if lo < x < hi then 1 else 0) - (if hi <= x <= lo then 1 else 0)
  {
  }

  lemma {:induction false} CumZero(g: Gts<real>, t: nat)
    requires WellFormed(g)
    ensures Cum(g, 0, t) == 0
    decreases t
  {
    if t > 0 {
      CumZero(g, t - 1);
    }
  }

  /** Without arcs out of order there are no folded arcs. */
  lemma {:induction false} NoFolded(g: Gts<real>, m: nat, x: int)
    requires WellFormed(g) && m <= |g.ticks|
    requires forall i :: 0 <= i < m ==> Lo(g, i) < Hi(g, i)
    ensures Folded(g, m, x) == 0
    decreases m
  {
    if m > 0 {
      NoFolded(g, m - 1, x);
    }
  }

  /** The clamped, normalised arc count at x. */
  function Cac(g: Gts<real>, x: int): Num
    requires WellFormed(g) && 0 <= x < |g.ticks|
  {
    MinOne(Divide(Cum(g, |g.ticks|, x + 1) as real, Canon(|g.ticks|, x)))
  }

  /** The final entry at x: 1 in the first and last w positions, the
      corrected arc curve elsewhere. */
  function Out(g: Gts<real>, w: int, x: int): Num
    requires WellFormed(g) && 0 <= x < |g.ticks|
  {
    if x < w || x >= |g.ticks| - w then Finite(1.0) else Cac(g, x)
  }

  /** The GTS FLUSS returns: the input's ticks and bucketization, no
      locations or elevations, the corrected arc curve as values. */
  function FlussOf(g: Gts<real>, w: int): Gts<Num>
    requires WellFormed(g)
  {
    var n := |g.ticks|;
    Gts(g.ticks, seq(n, _ => None), seq(n, _ => None), seq(n, x requires 0 <= x < n => Out(g, w, x)),
        true, g.bucketized, g.lastbucket, g.bucketspan, g.bucketcount)
  }

  /** Every entry of the curve is a finite number at most 1. */
  lemma FlussBounded(g: Gts<real>, w: int, x: int)
    requires WellFormed(g) && 2 <= w && 0 <= x < |g.ticks|
    ensures FlussOf(g, w).values[x].Finite? && FlussOf(g, w).values[x].r <= 1.0
  {
    if !(x < w || x >= |g.ticks| - w) {
      CanonPositive(|g.ticks|, x);
    }
  }

  /** When every arc has its low end below its high end (no self-arcs),
      the curve between the borders is the number of arcs passing over x
      divided by the canonical curve, clamped at 1; so it is never negative. */
  lemma FlussCountsArcs(g: Gts<real>, w: int, x: int)
    requires WellFormed(g) && 2 <= w && w <= x < |g.ticks| - w && ArcsFit(g)
    requires forall i :: 0 <= i < |g.ticks| ==> Lo(g, i) < Hi(g, i)
    ensures Canon(|g.ticks|, x) > 0.0
    ensures var q := Spanning(g, |g.ticks|, x) as real / Canon(|g.ticks|, x);
            q >= 0.0 && FlussOf(g, w).values[x] == Finite(if q < 1.0 then q else 1.0)
  {
    var n := |g.ticks|;
    var c := Canon(n, x);
    CanonPositive(n, x);
    CumCounts(g, n, x);
    NoFolded(g, n, x);
    var q := Spanning(g, n, x) as real / c;
    DivNonNegative(Spanning(g, n, x) as real, c);
    assert Divide(Cum(g, n, x + 1) as real, c) == Finite(q);
    assert FlussOf(g, w).values[x] == MinOne(Finite(q));
  }

  lemma DivNonNegative(a: real, b: real)
    requires a >= 0.0 && b > 0.0
    ensures a / b >= 0.0
  {
  }

  /** The difference loop: Err at the first arc whose writes leave the
      array, else the difference array of all arcs. */
  method Differences(g: Gts<real>, a: array<Num>) returns (ok: bool)
    requires WellFormed(g) && a.Length == |g.ticks|
    requires forall x :: 0 <= x < a.Length ==> a[x] == Finite(0.0)
    modifies a
    ensures ok <==> ArcsFit(g)
    ensures ok ==> forall x :: 0 <= x < a.Length ==> a[x] == Finite(Delta(g, a.Length, x) as real)
  {
    var n := a.Length;
    for i := 0 to n
      invariant forall j :: 0 <= j < i ==> ArcFits(g, j)
      invariant forall x :: 0 <= x < n ==> a[x] == Finite(Delta(g, i, x) as real)
    {
      var fits := AddArc(g, a, i);
      if !fits {
        return false;
      }
    }
    return true;
  }

  /** One step of the difference loop: +1 after the low end of arc i, then
      -1 at its high end, failing at the first write outside the array. */
  method AddArc(g: Gts<real>, a: array<Num>, i: int) returns (ok: bool)
    requires WellFormed(g) && a.Length == |g.ticks| && 0 <= i < a.Length
    requires forall x :: 0 <= x < a.Length ==> a[x] == Finite(Delta(g, i, x) as real)
    modifies a
    ensures ok <==> ArcFits(g, i)
    ensures ok ==> forall x :: 0 <= x < a.Length ==> a[x] == Finite(Delta(g, i + 1, x) as real)
  {
    var n := a.Length;
    var mpi := ElevationAtIndex(g, i);
    var small := Int32(Min(i, mpi));
    var large := Int32(Max(i, mpi));
    assert small == Lo(g, i) && large == Hi(g, i);
    if !(0 <= small + 1 < n) {
      return false;
    }
    a[small + 1] := Finite(a[small + 1].r + 1.0);
    if !(0 <= large < n) {
      return false;
    }
    a[large] := Finite(a[large].r - 1.0);
    return true;
  }

  /** The cumsum loop: overwrites each entry below n - w with the clamped,
      normalised running sum, reading each difference once before. */
  method Cumulate(g: Gts<real>, w: int, a: array<Num>)
    requires WellFormed(g) && a.Length == |g.ticks| && 0 <= w
    requires forall x :: 0 <= x < a.Length ==> a[x] == Finite(Delta(g, a.Length, x) as real)
    modifies a
    ensures forall x :: 0 <= x < a.Length - w ==> a[x] == Cac(g, x)
    ensures forall x :: 0 <= x < a.Length && a.Length - w <= x ==> a[x] == old(a[x])
  {
    var n := a.Length;
    var cumsum := 0.0;
    var i := 0;
    while i < n - w
      invariant 0 <= i && (i <= n - w || i == 0)
      invariant cumsum == Cum(g, n, i) as real
      invariant forall x :: 0 <= x < i ==> a[x] == Cac(g, x)
      invariant forall x :: i <= x < n ==> a[x] == old(a[x])
    {
      cumsum := cumsum + a[i].r;
      a[i] := MinOne(Divide(cumsum, Canon(n, i)));
      i := i + 1;
    }
  }

  /** The head and tail loop: sets the first and last w entries to 1, and
      fails once an index leaves the array. */
  method Correct(a: array<Num>, w: int) returns (ok: bool)
    requires 0 <= w
    modifies a
    ensures ok <==> w <= a.Length
    ensures ok ==> forall x :: 0 <= x < a.Length ==>
                     a[x] == if x < w || x >= a.Length - w then Finite(1.0) else old(a[x])
  {
    var n := a.Length;
    var i := 0;
    while i < w
      invariant 0 <= i <= w && i <= n
      invariant forall x :: 0 <= x < n ==> a[x] == if x < i || x > n - 1 - i then Finite(1.0) else old(a[x])
    {
      if i >= n {
        return false;
      }
      a[i] := Finite(1.0);
      a[n - i - 1] := Finite(1.0);
      i := i + 1;
    }
    return true;
  }

  /** FLUSS: its checks in order, then the difference, cumsum and head and
      tail passes over one array, whose contents become the values. */
  method Apply(g: Gts<real>, w: int) returns (res: Result<Gts<Num>>)
    requires WellFormed(g)
    ensures w < 2 ==> res == Err(SubsequenceTooShort)
    ensures w >= 2 && SeriesCheck(g).Some? ==> res == Err(SeriesCheck(g).value)
    ensures w >= 2 && SeriesCheck(g).None? && !HasElevations(g) ==> res == Err(NoElevations)
    ensures w >= 2 && SeriesCheck(g).None? && HasElevations(g) ==>
              (res.Ok? <==> ArcsFit(g) && w <= |g.ticks|) &&
              (res.Err? ==> res.error == IndexOutOfBounds) &&
              (res.Ok? ==> res.value == FlussOf(g, w))
  {
    if w < 2 {
      return Err(SubsequenceTooShort);
    }
    var e := SeriesCheck(g);
    if e.Some? {
      return Err(e.value);
    }
    if !HasElevations(g) {
      return Err(NoElevations);
    }
    var n := |g.ticks|;
    var a := new Num[n];
    for i := 0 to n
      invariant forall x :: 0 <= x < i ==> a[x] == Finite(0.0)
    {
      a[i] := Finite(0.0);
    }
    var ok := Differences(g, a);
    if !ok {
      return Err(IndexOutOfBounds);
    }
    Cumulate(g, w, a);
    ok := Correct(a, w);
    if !ok {
      return Err(IndexOutOfBounds);
    }
    res := Ok(Gts(g.ticks, seq(n, _ => None), seq(n, _ => None), a[..], true,
                  g.bucketized, g.lastbucket, g.bucketspan, g.bucketcount));
    assert a[..] == FlussOf(g, w).values;
  }
}
