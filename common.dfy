/** Shared vocabulary of the matrix profile model: optional values and results,
    the errors the WarpScript functions raise, the double values the distance
    formulas can produce, and the Geo Time Series (GTS) they read and build. */
module Common {

  datatype Option<+T> = None | Some(value: T)

  /** The outcome of a WarpScript function: a value, or the exception it throws. */
  datatype Result<+T> = Ok(value: T) | Err(error: Error)

  /** One constructor per exception the functions throw (their messages are not modelled). */
  datatype Error =
    | SubsequenceTooShort      // subsequence (or window) size < 2
    | NotDouble                // values are not of type DOUBLE
    | NotBucketized            // the GTS is not bucketized
    | NotFilled                // size differs from the bucket count
    | SubsequenceTooLong       // subsequence size not below the number of buckets
    | NegativeExclusionRadius
    | MaxSizeExceeded          // the O(n^2) guard
    | BucketIndexTooLarge      // bucket index cannot start a subsequence
    | NoElevations             // FLUSS input is not a profile
    | IndexOutOfBounds         // an unchecked Java index exception
    | NegativeArraySize        // an unchecked Java allocation exception

  /** Double.MAX_VALUE, the initial "best so far" of every row. */
  const MaxValue: real := 179769313486231570814527423731704356798070567525844996598917476803157260780028538760589558632766878171540458953514382464234321326889464182768467546703537516986049910576551282076245490090389328944075868508455133942304583236903222948165808559332123348274797826204144723168738177180919299881250404026184124858368.0

  /** Long.MIN_VALUE, which Warp 10 also uses as NO_ELEVATION. */
  const LongMinValue: int := -0x8000_0000_0000_0000

  /** A double as far as the algorithms need it: a real, or one of the
      non-finite values a zero divisor or a square root of a negative yields. */
  datatype Num = Finite(r: real) | PosInf | NegInf | NaN

  /** IEEE 754 `<`: false whenever NaN is involved. */
  predicate Lt(a: Num, b: Num) {
    match (a, b)
    case (NaN, _) => false
    case (_, NaN) => false
    case (PosInf, _) => false
    case (NegInf, NegInf) => false
    case (NegInf, _) => true
    case (Finite(_), NegInf) => false
    case (Finite(_), PosInf) => true
    case (Finite(x), Finite(y)) => x < y
  }

  /** IEEE 754 `==`: NaN equals nothing. */
  predicate Eq(a: Num, b: Num) {
    a == b && !a.NaN?
  }

  /** A distance that can improve a row minimum initialised to Double.MAX_VALUE. */
  predicate Eligible(d: Num) {
    d.Finite? && d.r < MaxValue
  }

  function Abs(x: int): int { if x < 0 then -x else x }

  function Min(a: int, b: int): int { if a <= b then a else b }

  function Max(a: int, b: int): int { if a <= b then b else a }

  lemma MulNonNegative(a: real, b: real)
    requires a >= 0.0 && b >= 0.0
    ensures a * b >= 0.0
  {
  }

  lemma MulPositive(a: real, b: real)
    requires a > 0.0 && b > 0.0
    ensures a * b > 0.0
  {
  }

  lemma MulStrict(c: real, a: real, b: real)
    requires c > 0.0 && a < b
    ensures c * a < c * b
  {
    assert c * b - c * a == c * (b - a);
    MulPositive(c, b - a);
  }

  /** Math.ceil on a real, as an integer. */
  function Ceil(x: real): (c: int)
    ensures c as real - 1.0 < x <= c as real
  {
    -((-x).Floor)
  }

  /** Java's `(int)` cast of a long: keeps the low 32 bits, two's complement. */
  function Int32(x: int): (r: int)
    ensures -0x8000_0000 <= r < 0x8000_0000
    ensures (x - r) % 0x1_0000_0000 == 0
    ensures -0x8000_0000 <= x < 0x8000_0000 ==> r == x
  {
    (x + 0x8000_0000) % 0x1_0000_0000 - 0x8000_0000
  }

  /** A Geo Time Series: parallel ticks, locations, elevations and values
      (a missing location or elevation is None), its value type and its
      bucketization (lastbucket, bucketspan, bucketcount). */
  datatype Gts<V> = Gts(
    ticks: seq<int>,
    locations: seq<Option<int>>,
    elevations: seq<Option<int>>,
    values: seq<V>,
    isDouble: bool,
    bucketized: bool,
    lastbucket: int,
    bucketspan: int,
    bucketcount: int)

  /** The four parallel sequences have one entry per sample. */
  predicate WellFormed<V>(g: Gts<V>) {
    |g.locations| == |g.ticks| && |g.elevations| == |g.ticks| && |g.values| == |g.ticks|
  }

  predicate HasLocations<V>(g: Gts<V>) {
    exists m :: 0 <= m < |g.locations| && g.locations[m].Some?
  }

  predicate HasElevations<V>(g: Gts<V>) {
    exists m :: 0 <= m < |g.elevations| && g.elevations[m].Some?
  }

  /** A sorted, bucketized and filled GTS: sample m sits at
      lastbucket - (n - 1 - m) * bucketspan. */
  ghost predicate BucketLayout<V>(g: Gts<V>) {
    g.bucketized && |g.ticks| == g.bucketcount &&
    forall m :: 0 <= m < |g.ticks| ==> g.ticks[m] == g.lastbucket - (|g.ticks| - 1 - m) * g.bucketspan
  }

  /** The checks every function makes on an input series, in the order it makes them:
      values of type DOUBLE, bucketized, and as many values as buckets. */
  function SeriesCheck<V>(g: Gts<V>): (e: Option<Error>)
    ensures e.None? <==> g.isDouble && g.bucketized && |g.ticks| == g.bucketcount
  {
    if !g.isDouble then Some(NotDouble)
    else if !g.bucketized then Some(NotBucketized)
    else if |g.ticks| != g.bucketcount then Some(NotFilled)
    else None
  }

  /** GTSHelper.tickAtIndex: a negative index raises an index exception; an index
      past the end yields Long.MIN_VALUE. */
  function TickAtIndex<V>(g: Gts<V>, idx: int): (r: Result<int>)
    ensures r.Err? <==> idx < 0
    ensures 0 <= idx < |g.ticks| ==> r == Ok(g.ticks[idx])
  {
    if idx < 0 then Err(IndexOutOfBounds)
    else if idx < |g.ticks| then Ok(g.ticks[idx])
    else Ok(LongMinValue)
  }

  /** GTSHelper.elevationAtIndex on a GTS with elevations: a sample without one
      reads as NO_ELEVATION. */
  function ElevationAtIndex<V>(g: Gts<V>, idx: int): int
    requires 0 <= idx < |g.elevations|
  {
    match g.elevations[idx]
    case Some(e) => e
    case None => LongMinValue
  }

  /** The maxsize guard's tiers: built-in default, overridden by the
      configuration value, overridden by the capability value. */
  function ResolveMaxSize(default: int, config: Option<int>, capability: Option<int>): (m: int)
    ensures capability.Some? ==> m == capability.value
    ensures capability.None? && config.Some? ==> m == config.value
    ensures capability.None? && config.None? ==> m == default
  {
    match capability
    case Some(c) => c
    case None => match config { case Some(c) => c case None => default }
  }
}
