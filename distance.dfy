/** The distance between two windows shared by the profile functions: either the
    value a custom macro returns on the two subsequences, or the z-normalised
    Euclidean distance sqrt(2k (1 - (dot - k mu_i mu_j) / (k sigma_i sigma_j))),
    evaluated with IEEE non-finite results where a divisor is zero or a square
    root is taken of a negative. */
module Distance {
  import opened Common
  import Stats
  import AtBucketIndex

  /** A similarity macro: run on the two subsequence GTS, it leaves a number. */
  type Macro = (Gts<real>, Gts<real>) -> real

  /** What a distance depends on besides the two windows: the subsequence size,
      the optional custom macro and Math.sqrt. */
  datatype Ctx = Ctx(k: nat, macro: Option<Macro>, sqrt: real -> real)

  /** xs[i] * ys[j] + ... + xs[i + l - 1] * ys[j + l - 1] */
  function Dot(xs: seq<real>, ys: seq<real>, i: int, j: int, l: nat): real
    requires 0 <= i && i + l <= |xs| && 0 <= j && j + l <= |ys|
    decreases l
  {
    if l == 0 then 0.0 else Dot(xs, ys, i, j, l - 1) + xs[i + l - 1] * ys[j + l - 1]
  }

  lemma {:induction false} DotFront(xs: seq<real>, ys: seq<real>, i: int, j: int, l: nat)
    requires 1 <= i && i + l <= |xs| && 1 <= j && j + l <= |ys|
    ensures Dot(xs, ys, i - 1, j - 1, l + 1) == xs[i - 1] * ys[j - 1] + Dot(xs, ys, i, j, l)
    decreases l
  {
    if l > 0 {
      DotFront(xs, ys, i, j, l - 1);
    }
  }

  /** The STOMP recurrence: sliding both windows one step drops the first
      product and adds the next one. */
  lemma DotSlide(xs: seq<real>, ys: seq<real>, i: int, j: int, k: nat)
    requires 1 <= i && i + k <= |xs| && 1 <= j && j + k <= |ys| && 1 <= k
    ensures Dot(xs, ys, i, j, k) ==
            Dot(xs, ys, i - 1, j - 1, k) - xs[i - 1] * ys[j - 1] + xs[i + k - 1] * ys[j + k - 1]
  {
    DotFront(xs, ys, i, j, k - 1);
  }

  /** The self dot product does not depend on the order of the two windows. */
  lemma {:induction false} DotSymmetric(xs: seq<real>, i: int, j: int, l: nat)
    requires 0 <= i && i + l <= |xs| && 0 <= j && j + l <= |xs|
    ensures Dot(xs, xs, i, j, l) == Dot(xs, xs, j, i, l)
    decreases l
  {
    if l > 0 {
      DotSymmetric(xs, i, j, l - 1);
    }
  }

  /** 1 - (dot - k mi mj) / (k si sj) in double arithmetic: with a zero divisor the
      quotient is +/- infinity (NaN for 0 / 0), and subtracting it from 1 flips its sign. */
  function Unscaled(dot: real, mi: real, mj: real, si: real, sj: real, k: nat): Num {
    var num := dot - (k as real) * mi * mj;
    var den := (k as real) * si * sj;
    if den != 0.0 then Finite(1.0 - num / den)
    else if num > 0.0 then NegInf
    else if num < 0.0 then PosInf
    else NaN
  }

  /** sqrt(2k u) in double arithmetic: the square root of a negative, of minus
      infinity or of NaN is NaN; plus infinity stays (unless k is zero). */
  function Scale(u: Num, k: nat, sqrt: real -> real): Num {
    match u
    case Finite(x) =>
      var rad := 2.0 * (k as real) * x;
      if rad < 0.0 then NaN else Finite(sqrt(rad))
    case PosInf => if k == 0 then NaN else PosInf
    case NegInf => NaN
    case NaN => NaN
  }

  /** Window i of a and window j of b both exist. */
  predicate InWindows(ctx: Ctx, a: Gts<real>, b: Gts<real>, i: int, j: int) {
    WellFormed(a) && WellFormed(b) && 1 <= ctx.k &&
    0 <= i && i + ctx.k <= |a.values| && 0 <= j && j + ctx.k <= |b.values|
  }

  /** The term the minimum is taken on before scaling (DEV_PROFILE). */
  function Term(ctx: Ctx, a: Gts<real>, b: Gts<real>, i: int, j: int): Num {
    if !InWindows(ctx, a, b, i, j) then NaN
    else
      var k := ctx.k;
      Unscaled(Dot(a.values, b.values, i, j, k),
               Stats.Mean(a.values, i, k), Stats.Mean(b.values, j, k),
               ctx.sqrt(Stats.Variance(a.values, i, k)), ctx.sqrt(Stats.Variance(b.values, j, k)), k)
  }

  /** The distance from window i of a to window j of b: the macro's value on the
      two subsequences when there is a macro, otherwise the scaled term. Outside
      the windows there is no distance (NaN), which no profile ever asks for. */
  function Dist(ctx: Ctx, a: Gts<real>, b: Gts<real>, i: int, j: int): Num {
    if !InWindows(ctx, a, b, i, j) then NaN
    else match ctx.macro
      case Some(m) => Finite(m(AtBucketIndex.SubsequenceOf(a, ctx.k, i), AtBucketIndex.SubsequenceOf(b, ctx.k, j)))
      case None => Scale(Term(ctx, a, b, i, j), ctx.k, ctx.sqrt)
  }

  /** Without a macro the self-join distance is symmetric. */
  lemma DistSymmetric(ctx: Ctx, g: Gts<real>, i: int, j: int)
    requires ctx.macro.None?
    ensures Dist(ctx, g, g, i, j) == Dist(ctx, g, g, j, i)
    ensures Term(ctx, g, g, i, j) == Term(ctx, g, g, j, i)
  {
    if InWindows(ctx, g, g, i, j) {
      DotSymmetric(g.values, i, j, ctx.k);
      var k := ctx.k as real;
      var mi, mj := Stats.Mean(g.values, i, ctx.k), Stats.Mean(g.values, j, ctx.k);
      var si, sj := ctx.sqrt(Stats.Variance(g.values, i, ctx.k)), ctx.sqrt(Stats.Variance(g.values, j, ctx.k));
      assert k * mi * mj == k * mj * mi;
      assert k * si * sj == k * sj * si;
    }
  }

  /** The square root of a non-negative radicand is never NaN, so from a finite,
      non-negative term Scale gives a finite distance. */
  lemma ScaleFinite(u: real, k: nat, sqrt: real -> real)
    requires u >= 0.0
    ensures Scale(Finite(u), k, sqrt) == Finite(sqrt(2.0 * (k as real) * u))
  {
    RadicandNonNegative(u, k);
  }

  lemma RadicandNonNegative(u: real, k: nat)
    requires u >= 0.0
    ensures 2.0 * (k as real) * u >= 0.0
  {
    MulNonNegative(2.0 * (k as real), u);
  }

  /** When Math.sqrt is strictly increasing, scaling a non-negative term keeps
      the order and the equalities between terms: the row minimum and its
      position are the same whether the minimum is taken before or after scaling. */
  lemma ScaleMonotone(a: real, b: real, k: nat, sqrt: real -> real)
    requires 1 <= k && 0.0 <= a && 0.0 <= b
    requires forall x, y :: 0.0 <= x < y ==> sqrt(x) < sqrt(y)
    ensures Lt(Finite(a), Finite(b)) <==> Lt(Scale(Finite(a), k, sqrt), Scale(Finite(b), k, sqrt))
    ensures Finite(a) == Finite(b) <==> Scale(Finite(a), k, sqrt) == Scale(Finite(b), k, sqrt)
  {
    ScaleFinite(a, k, sqrt);
    ScaleFinite(b, k, sqrt);
    var c := 2.0 * (k as real);
    MulNonNegative(c, a);
    MulNonNegative(c, b);
    if a < b {
      MulStrict(c, a, b);
    } else if b < a {
      MulStrict(c, b, a);
    }
  }
}
