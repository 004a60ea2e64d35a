# Matrix profile functions for Warp 10, modelled in Dafny

This project models the WarpScript functions of the Warp 10 matrix profile
extension. For each length-`k` window of a bucketized, filled series of
doubles, these functions find the nearest other window by z-normalised
Euclidean distance, or the distance to one chosen window. The functions
modelled:

- `PROFILE`: the self-join by STOMP.
  - Diagonals of the upper triangle are traversed from the exclusion radius
    on, with the sliding dot product.
  - Each pair updates both of its rows.
  - The robust second minima are kept alongside.
- `DEV_PROFILE`: the reference self-join computed full row by full row.
  - Two dot-product caches swap roles each row, plus a row-0 cache.
  - The exclusion zone is a ratio of `k`.
  - Ties go to the closest column.
- `ABPROFILE`: the AB-join by brute force. Every window of series A is
  compared with every window of series B.
- `RPROFILE` and its older variant `MP_ROW`: one row of the distance matrix.
- `ATBUCKETINDEX` (the subsequence helper the macro path uses) and its older
  variant `SUBSEQUENCE`: window extraction.
- `FLUSS`: semantic segmentation of a profile by its arc curve.

## How the model is built

Each function is a `method` over the same sequences and arrays the Java code
uses. Its loops are proved against specification functions:
- `Profile.Fold` is the state of a row after a sequence of columns.
- `DevProfile.DevFold` is the same for the row scan.
- `AbProfile.ABFold` is the row argmin.
- `RProfile.Kept` is the windows outside the exclusion zone.
- `Fluss.Cum` and `Fluss.Spanning` are the prefix sum and the arcs over a
  position.

Lemmas then state what those functions mean:
- a row holds its nearest admissible neighbour under the tie rule `Nearest.IsNearest`;
- the dot-product recurrence equals the full sum;
- the FLUSS prefix sum counts crossing arcs;
- the functions agree with each other.

How the model represents things:

- **Series.** A series is a `Common.Gts`: parallel sequences of ticks,
  locations, elevations and values, plus its bucketization. It is taken as
  already sorted.
- **Doubles.** A double is a `Common.Num`: an exact real, or one of ±∞ and
  NaN. Comparisons follow IEEE 754, so `<` is false on NaN. Division by zero
  and the square root of a negative follow Java's rules.
- **Square root.** The square root is a parameter `sqrt: real -> real`. Only
  its monotonicity is assumed, and only where a lemma says so.
- **Custom distance macro.** It is a function `Distance.Macro` applied to the
  two subsequences `AtBucketIndex.SubsequenceOf` builds.

### Behaviour notes

- **`PROFILE` ticks.** Entry `i` of the result is at
  `lastbucket − (p−1−i)·bucketspan`, where
  `lastbucket = last tick − (k−1)·bucketspan`. On a bucketized, filled input
  that is the tick of the first sample of window `i`
  (`Profile.ProfileTicksAreWindowStarts`).
- **`ABPROFILE` tick.** Each row's entry is written at the tick of series A
  at the index of its argmin in series B, not at the row's own tick
  (`AbProfile.ABTickIsAtArgMin`). A row with no neighbour (argmin −1) makes
  `tickAtIndex` throw.
- **Elevations.**
  - `DEV_PROFILE` stores the neighbour's tick.
  - `PROFILE`, `ABPROFILE` and `RPROFILE` store an index.
  - `MP_ROW` stores none.
- **Robust mode** (`PROFILE`). A minimum that a smaller distance displaces is
  dropped, not moved into second place (`Profile.DisplacedMinimumDropped`).
  The second arrays therefore hold the least distance that did not beat the
  first minimum at the time it was seen.
- **Non-robust `PROFILE` rows.** When no admissible column has a distance
  below `Double.MAX_VALUE`, the row keeps `MAX_VALUE` with index 0.
- **Negative bucket index.** `RPROFILE`, `MP_ROW`, `ATBUCKETINDEX` and
  `SUBSEQUENCE` only check its upper bound. A negative bucket index then ends
  in an index exception at the first sample read. With `RPROFILE` and
  `MP_ROW` there is no exception when no window is compared at all.
- **`MP_ROW`'s exclusion zone** is inclusive (`|b − i| ≤ k·ratio`). With
  ratio `x` it equals `RPROFILE`'s strict zone of radius `⌊k·x⌋ + 1`. Apart
  from the dropped elevations, the two return the same row
  (`MpRow.AgreesWithRProfile`).
- **`DEV_PROFILE` and `PROFILE` agreement.** With the default ratio 0.25 and
  the default radius `⌈k/4⌉`, their exclusion zones coincide
  (`DevProfile.SameExclusionZone`). They then agree on a row under five
  conditions:
  - no macro;
  - a strictly increasing `sqrt`;
  - every term of the row finite and non-negative, and below `MAX_VALUE`
    before scaling;
  - every distance below `MAX_VALUE` after scaling;
  - some column outside the exclusion zone.

  Under these conditions DEV_PROFILE and PROFILE report the same neighbour,
  and the same value once DEV_PROFILE has scaled its term
  (`DevProfile.AgreesWithProfile`).
- **Where DEV_PROFILE and PROFILE disagree.** On a row with no column
  outside the zone, DEV_PROFILE's index stays −1 and its `tickAtIndex`
  throws. PROFILE instead returns `MAX_VALUE` with index 0 for that row
  (`DevProfile.DisagreesWithoutColumns`). Example: any 9-sample series with
  k = 8, where p = 2 and the radius is 2.
- **`FLUSS` counts arcs only when none is a self-arc.** Its prefix sum at `x`
  is the number of arcs passing strictly over `x`, minus the arcs whose ends
  are out of order. The curve is that count over the canonical parabola,
  clamped at 1, only when no arc is a self-arc (`Fluss.FlussCountsArcs`).
  Otherwise the curve may go negative.
- **`FLUSS` narrowing.** The arc ends are narrowed with Java's `(int)` cast
  (`Common.Int32`). An arc whose writes leave the array ends in an index
  exception.

## Model

Paths are relative to the repository root.

| member | source | states |
|---|---|---|
| Common.Ceil | src/main/java/io/warp10/ext/matrixprofile/PROFILE.java:53-55 | Math.ceil as an integer: the least integer not below x. |
| Common.Int32 | src/main/java/io/warp10/ext/matrixprofile/FLUSS.java:95-96 | Java's (int) cast of a long: in the 32-bit range, congruent modulo 2^32, the identity on values already in range. |
| Common.Lt | src/main/java/io/warp10/ext/matrixprofile/PROFILE.java:312 | Defines Java's double `<`: false whenever NaN is involved, +∞ below nothing, −∞ below every other non-NaN, reals by their order (no ensures of its own; see Nearest.LtTransitive and the fold lemmas). |
| Common.Eq | src/main/java/io/warp10/ext/matrixprofile/DEV_PROFILE.java:251 | Defines Java's double `==`: equal values, except that NaN equals nothing (no ensures of its own). |
| Common.SeriesCheck | src/main/java/io/warp10/ext/matrixprofile/PROFILE.java:162-172 | No error exactly when the series is of type DOUBLE, bucketized and filled (size equals bucket count); otherwise the error of the first failing check. |
| Common.TickAtIndex | src/main/java/io/warp10/ext/matrixprofile/DEV_PROFILE.java:266 | A negative index raises an index exception; an index in range gives that sample's tick. |
| Common.ElevationAtIndex | src/main/java/io/warp10/ext/matrixprofile/FLUSS.java:94 | Defines GTSHelper.elevationAtIndex on a series with elevations: the sample's elevation, or NO_ELEVATION (Long.MIN_VALUE) for a sample without one (no ensures of its own; see Fluss.Lo and Fluss.Hi). |
| Common.ResolveMaxSize | src/main/java/io/warp10/ext/matrixprofile/PROFILE.java:182-194 | maxsize is the capability value if set, else the configuration value if set, else the built-in default. |
| Stats.WindowStats | src/main/java/io/warp10/ext/matrixprofile/PROFILE.java:209-233 | One mean and one standard deviation per window (n − k + 1 of each): mean = window sum / k, std = sqrt(sumsq/k − sum²/k²), in exact arithmetic (the source's BigDecimal scale rounding is under Left out). |
| Stats.Sum | src/main/java/io/warp10/ext/matrixprofile/PROFILE.java:221-226 | Defines the window sum xs[i] + … + xs[i + l − 1] the inner loop accumulates (no ensures of its own). |
| Stats.SumSq | src/main/java/io/warp10/ext/matrixprofile/PROFILE.java:221-226 | Defines the window sum of squares the inner loop accumulates (no ensures of its own). |
| Stats.Mean | src/main/java/io/warp10/ext/matrixprofile/PROFILE.java:228-229 | Defines the window mean sum/k, in exact arithmetic (no ensures of its own; see Stats.WindowStats). |
| Stats.Variance | src/main/java/io/warp10/ext/matrixprofile/PROFILE.java:228-230 | Defines the window variance as the source forms it, sumsq/k − sum²/k², in exact arithmetic (no ensures of its own; see Stats.VarianceIsPopulationVariance and Stats.VarianceNonNegative). |
| Stats.VarianceIsPopulationVariance | src/main/java/io/warp10/ext/matrixprofile/PROFILE.java:209-233 | sumsq/k − sum²/k² is the population variance: the mean squared deviation from the window mean, divisor k. |
| Stats.VarianceNonNegative | src/main/java/io/warp10/ext/matrixprofile/PROFILE.java:209-233 | In exact arithmetic that variance is never negative, so the square root taken is of a non-negative number. |
| Distance.DotSlide | src/main/java/io/warp10/ext/matrixprofile/PROFILE.java:284-295 | Sliding both windows one sample on drops x[i−1]·y[j−1] and adds x[i+k−1]·y[j+k−1]: the recurrence gives the full k-term dot product. |
| Distance.Dot | src/main/java/io/warp10/ext/matrixprofile/PROFILE.java:287-289 | Defines the k-term dot product x[i]·y[j] + … + x[i+k−1]·y[j+k−1] of two windows, the reference the recurrence is proved against (no ensures of its own). |
| Distance.Unscaled | src/main/java/io/warp10/ext/matrixprofile/DEV_PROFILE.java:239 | Defines 1 − (dot − k·mi·mj)/(k·si·sj) with Java's double results for a zero divisor: −∞ for a positive numerator, +∞ for a negative one, NaN for 0/0 (no ensures of its own). |
| Distance.Scale | src/main/java/io/warp10/ext/matrixprofile/DEV_PROFILE.java:263-264 | Defines sqrt(2k·u) with Java's results: NaN for a negative radicand, −∞ or NaN, and +∞ kept (no ensures of its own; see Distance.ScaleFinite and Distance.ScaleMonotone). |
| Distance.Term | src/main/java/io/warp10/ext/matrixprofile/DEV_PROFILE.java:239 | Defines DEV_PROFILE's unscaled term of windows i and j: Unscaled of the full dot product, the two window means and sqrt of the two window variances; NaN outside the windows, which no caller asks for (no ensures of its own; see DevProfile.TermOfDot and Distance.DistSymmetric). |
| Distance.Dist | src/main/java/io/warp10/ext/matrixprofile/PROFILE.java:297-308 | Defines the pair distance every profile uses: with a macro, the macro's value on the two subsequences ATBUCKETINDEX builds; without one, Scale of Term, that is sqrt(2k(1 − (dot − k·mi·mj)/(k·si·sj))) with Java's non-finite results. ABPROFILE.java:229-245 and RPROFILE.java:247-265 compute the same (no ensures of its own; see Profile.PairDistance, AbProfile.CellDistance, RProfile.RowDistance and Distance.DistSymmetric). |
| Distance.DotSymmetric | src/main/java/io/warp10/ext/matrixprofile/DEV_PROFILE.java:229-232 | The self dot product of windows i and j equals that of j and i (the read of row 0's cache "by transposition"). |
| Distance.DistSymmetric | src/main/java/io/warp10/ext/matrixprofile/PROFILE.java:320-327 | Without a macro, d(i, j) = d(j, i) (and the same for the unscaled term), so the symmetric update of row j uses row j's own distance. |
| Distance.ScaleMonotone | src/main/java/io/warp10/ext/matrixprofile/DEV_PROFILE.java:239-264 | When sqrt is strictly increasing, scaling non-negative terms by sqrt(2k·) keeps both their strict order and their equality. |
| Distance.ScaleFinite | src/main/java/io/warp10/ext/matrixprofile/PROFILE.java:298-300 | A non-negative term scales to the finite number sqrt(2k·u). |
| Nearest.NearestUnique | src/main/java/io/warp10/ext/matrixprofile/DEV_PROFILE.java:243-253 | The nearest neighbour (least distance, then closest, then lower index) is unique. |
| Nearest.IsNearest | src/main/java/io/warp10/ext/matrixprofile/DEV_PROFILE.java:243-253 | Defines the nearest neighbour among a set of columns: a distance below MAX_VALUE, none strictly smaller by IEEE `<`, and every other column at the same distance farther, or as far and higher (ghost; no ensures of its own; see Profile.RowIsNearest and DevProfile.DevRowIsNearest). |
| Nearest.NearestTransfer | src/main/java/io/warp10/ext/matrixprofile/DEV_PROFILE.java:239-264 | A change of distances that keeps which columns improve on MAX_VALUE, their order and their ties keeps the nearest neighbour. |
| Profile.DefaultExclusionRadius | src/main/java/io/warp10/ext/matrixprofile/PROFILE.java:53-55 | The default radius is ceil(k/4): 4(r − 1) < k ≤ 4r. |
| Profile.ExclusionRadius | src/main/java/io/warp10/ext/matrixprofile/PROFILE.java:99-104 | Defines the radius used: the parameter when given, otherwise defaultExclusionRadius(k); the positional signature at PROFILE.java:126-144 chooses the same way (no ensures of its own). |
| Profile.Windows | src/main/java/io/warp10/ext/matrixprofile/PROFILE.java:200 | Defines p = n − k + 1, the number of windows (no ensures of its own). |
| Profile.Admissible | src/main/java/io/warp10/ext/matrixprofile/PROFILE.java:270-276 | Defines the windows outside the exclusion zone of row x: 0 ≤ c < p and abs(c − x) ≥ r (no ensures of its own; see Profile.VisitsMembers). |
| Profile.Visits | src/main/java/io/warp10/ext/matrixprofile/PROFILE.java:270-282 | Defines the columns row x receives from diagonals r .. t − 1, in traversal order (no ensures of its own; see Profile.VisitsMembers and Profile.VisitsSorted). |
| Profile.VisitsMembers | src/main/java/io/warp10/ext/matrixprofile/PROFILE.java:270-282 | After diagonals r .. t − 1, row x has received exactly the windows c with r ≤ abs(c − x) < t, on either side of x. |
| Profile.VisitsSorted | src/main/java/io/warp10/ext/matrixprofile/PROFILE.java:270-327 | The traversal hands each row its columns closest first, and the lower one first at equal offset. |
| Profile.FoldFirstMinimum | src/main/java/io/warp10/ext/matrixprofile/PROFILE.java:310-327 | Strict < over columns in that order leaves the first column of least distance and its distance in the row. |
| Profile.Fold | src/main/java/io/warp10/ext/matrixprofile/PROFILE.java:310-327 | Defines row x's state after the columns cs: one Profile.Step per column, in order, from MAX_VALUE with index 0 (no ensures of its own; see Profile.FoldFirstMinimum, Profile.RobustKeepsFirst and Profile.SecondNotBelowFirst). |
| Profile.Row | src/main/java/io/warp10/ext/matrixprofile/PROFILE.java:269-329 | Defines row x of the profile: Fold over the columns the diagonals r .. p − 1 hand it (no ensures of its own; see Profile.RowIsNearest and Profile.Traverse). |
| Profile.Rows | src/main/java/io/warp10/ext/matrixprofile/PROFILE.java:269-329 | Defines all p rows of the profile (ghost; no ensures of its own; see Profile.Traverse). |
| Profile.Step | src/main/java/io/warp10/ext/matrixprofile/PROFILE.java:312-318 | Defines one compare-and-set: a strictly smaller distance replaces the first minimum and index; otherwise, in robust mode only, a distance strictly below the second minimum replaces it (no ensures of its own; see the lemmas about Profile.Fold). |
| Profile.FirstMinimumBeaten | src/main/java/io/warp10/ext/matrixprofile/PROFILE.java:312-314 | A column strictly below the running minimum becomes the first minimum. |
| Profile.FirstMinimumKept | src/main/java/io/warp10/ext/matrixprofile/PROFILE.java:312-318 | A later column not below the running minimum leaves the first minimum in place. |
| Profile.FirstMinimumIsNearest | src/main/java/io/warp10/ext/matrixprofile/PROFILE.java:310-327 | The first minimum over all admissible columns, in traversal order, is the nearest admissible neighbour. |
| Profile.RowIsNearest | src/main/java/io/warp10/ext/matrixprofile/PROFILE.java:249-327 | Each row's index is its nearest neighbour among all windows with abs(c − x) ≥ r on either side, and its value is that distance. With no distance below MAX_VALUE, the row keeps MAX_VALUE and index 0. |
| Profile.RobustKeepsFirst | src/main/java/io/warp10/ext/matrixprofile/PROFILE.java:312-327 | Robust mode leaves the first minimum and index as in plain mode; plain mode never touches the second pair. |
| Profile.SecondNotBelowFirst | src/main/java/io/warp10/ext/matrixprofile/PROFILE.java:315-317 | The second minimum is never strictly below the first. Once below MAX_VALUE, it is the distance of a column the row has seen. |
| Profile.DisplacedMinimumDropped | src/main/java/io/warp10/ext/matrixprofile/PROFILE.java:312-318 | A minimum displaced by a smaller one is dropped: after a then a smaller b, the first is b and the second stays at MAX_VALUE and 0. |
| Profile.Relax | src/main/java/io/warp10/ext/matrixprofile/PROFILE.java:312-318 | One compare-and-set moves row x one step and leaves every other row of the four arrays as it was. |
| Profile.FoldNextPair | src/main/java/io/warp10/ext/matrixprofile/PROFILE.java:310-327 | Pair (j − t, j) gives row j − t column j and row j column j − t. Every other row is unchanged. |
| Profile.PairDistance | src/main/java/io/warp10/ext/matrixprofile/PROFILE.java:297-308 | The distance of a pair is the z-normalised distance from the dot product and the window statistics, or the macro's value on the two subsequences. |
| Profile.TargetsNext | src/main/java/io/warp10/ext/matrixprofile/PROFILE.java:310-327 | The expected rows after one more pair are the expected rows before with the two row updates applied. |
| Profile.TargetsNextAt | src/main/java/io/warp10/ext/matrixprofile/PROFILE.java:310-327 | The same, for one row. |
| Profile.TargetsNextDiagonal | src/main/java/io/warp10/ext/matrixprofile/PROFILE.java:271-276 | The end of diagonal t is the start of diagonal t + 1. |
| Profile.TargetsStart | src/main/java/io/warp10/ext/matrixprofile/PROFILE.java:249-251 | Before the first diagonal every row is at MAX_VALUE with index 0. |
| Profile.TargetsEnd | src/main/java/io/warp10/ext/matrixprofile/PROFILE.java:271-329 | After the last diagonal every row is its profile row; with a radius of at least p there is no diagonal at all. |
| Profile.VisitPair | src/main/java/io/warp10/ext/matrixprofile/PROFILE.java:310-327 | The two compare-and-sets of a pair advance the arrays' rows by that pair. |
| Profile.SlideDot | src/main/java/io/warp10/ext/matrixprofile/PROFILE.java:284-295 | The dot product obtained (in full on the first row, by the recurrence after it) is the full k-term dot product of windows i and j. |
| Profile.Cell | src/main/java/io/warp10/ext/matrixprofile/PROFILE.java:276-328 | One cell of a diagonal: the arrays advance by the pair, and dot becomes that pair's dot product. |
| Profile.Diagonal | src/main/java/io/warp10/ext/matrixprofile/PROFILE.java:271-329 | One whole diagonal t, with dot started at 0: the rows go from the state after diagonal t − 1 to the state after t. |
| Profile.Start | src/main/java/io/warp10/ext/matrixprofile/PROFILE.java:246-263 | The fresh result arrays: p rows at MAX_VALUE and 0, the second pair only in robust mode. |
| Profile.MaxArray | src/main/java/io/warp10/ext/matrixprofile/PROFILE.java:247-250 | A fresh array of p entries, all Double.MAX_VALUE. |
| Profile.Traverse | src/main/java/io/warp10/ext/matrixprofile/PROFILE.java:246-329 | After the traversal, every row of the arrays holds its profile row. |
| Profile.Layout | src/main/java/io/warp10/ext/matrixprofile/PROFILE.java:241-252 | p ticks, entry i at lastbucket − (p − 1 − i)·bucketspan. |
| Profile.Collect | src/main/java/io/warp10/ext/matrixprofile/PROFILE.java:331-332 | The result's values and elevations are the first minima and indices, or the second ones in robust mode. |
| Profile.IsProfile | src/main/java/io/warp10/ext/matrixprofile/PROFILE.java:241-332 | Defines PROFILE's result: p entries at lastbucket − (p − 1 − i)·bucketspan with lastbucket moved back by k − 1 spans, no locations, and each row's first minimum and index, or second ones in robust mode (ghost; no ensures of its own; see Profile.Apply). |
| Profile.Admitted | src/main/java/io/warp10/ext/matrixprofile/PROFILE.java:158-194 | Defines the inputs that pass every guard: k ≥ 2, the series checks, k below the bucket count, a non-negative radius, size within maxsize (no ensures of its own; see Profile.Apply). |
| Profile.Apply | src/main/java/io/warp10/ext/matrixprofile/PROFILE.java:158-337 | Each guard in the source's order with its error: k < 2, type, bucketized, filled, k ≥ bucket count, negative radius, size > maxsize. Otherwise the result is the profile: p entries, the tick layout, each row's value and index. |
| Profile.ProfileTicksAreWindowStarts | src/main/java/io/warp10/ext/matrixprofile/PROFILE.java:241-252 | On a bucketized, filled input, entry i's tick is the tick of window i's first sample, and ticks grow by bucketspan. |
| DevProfile.DevStepKeepsInv | src/main/java/io/warp10/ext/matrixprofile/DEV_PROFILE.java:243-253 | One more column (strict <, then the tie rule on the closer column) keeps the row's nearest column among the columns seen. |
| DevProfile.RatioOf | src/main/java/io/warp10/ext/matrixprofile/DEV_PROFILE.java:55-60 | Defines the exclusion ratio: the optional DOUBLE parameter, otherwise 0.25 (no ensures of its own). |
| DevProfile.Zone | src/main/java/io/warp10/ext/matrixprofile/DEV_PROFILE.java:210 | Defines the zone's half-width k·ratio (no ensures of its own). |
| DevProfile.Kept | src/main/java/io/warp10/ext/matrixprofile/DEV_PROFILE.java:209-212 | Defines the columns the row loop compares: those where abs(j − i) < k·ratio is false (no ensures of its own; see DevProfile.SameExclusionZone). |
| DevProfile.Columns | src/main/java/io/warp10/ext/matrixprofile/DEV_PROFILE.java:207-212 | Defines the set of compared columns below j (no ensures of its own; see DevProfile.ColumnsNext). |
| DevProfile.DevFold | src/main/java/io/warp10/ext/matrixprofile/DEV_PROFILE.java:203-253 | Defines row i's state after the columns 0 .. j − 1: from MAX_VALUE with index −1, one DevStep per compared column, an excluded column skipped (no ensures of its own; see DevProfile.DevFoldInv, DevProfile.DevFoldKept and DevProfile.DevFoldSkipped). |
| DevProfile.DevRow | src/main/java/io/warp10/ext/matrixprofile/DEV_PROFILE.java:202-255 | Defines row i's state after all p columns, with each column's unscaled term (no ensures of its own; see DevProfile.DevRowIsNearest). |
| DevProfile.DevStep | src/main/java/io/warp10/ext/matrixprofile/DEV_PROFILE.java:243-253 | Defines the compare and tie rule: a strictly smaller term takes the minimum; an equal term moves the index to a strictly closer column (no ensures of its own; see DevProfile.DevStepKeepsInv). |
| DevProfile.DevFoldInv | src/main/java/io/warp10/ext/matrixprofile/DEV_PROFILE.java:207-255 | After the columns below j, the row holds its nearest non-excluded column by the unscaled term, or −1 with MAX_VALUE. |
| DevProfile.DevFoldKept | src/main/java/io/warp10/ext/matrixprofile/DEV_PROFILE.java:239-253 | A compared column keeps that invariant. |
| DevProfile.DevFoldSkipped | src/main/java/io/warp10/ext/matrixprofile/DEV_PROFILE.java:209-212 | A column in the exclusion zone changes neither the columns compared nor the row. |
| DevProfile.ColumnsNext | src/main/java/io/warp10/ext/matrixprofile/DEV_PROFILE.java:207-212 | The compared columns grow from below, one column at a time, exactly by the columns with abs(j − i) not below k·ratio. |
| DevProfile.DevRowIsNearest | src/main/java/io/warp10/ext/matrixprofile/DEV_PROFILE.java:203-255 | The row's index is its nearest compared column by the unscaled term and its value that term. With no term below MAX_VALUE, the index is −1 or a column at exactly MAX_VALUE. The index is always in [−1, p). |
| DevProfile.SameExclusionZone | src/main/java/io/warp10/ext/matrixprofile/DEV_PROFILE.java:209-212 | With ratio 0.25, the columns compared are exactly PROFILE's admissible windows for the default radius ceil(k/4). |
| DevProfile.AgreesWithProfile | src/test/java/io/warp10/WarpTest.java:66-76 | Default ratio and radius, no macro, a strictly increasing sqrt, every term of the row finite, non-negative and below MAX_VALUE, every scaled distance below MAX_VALUE, and some column outside the zone: then DEV_PROFILE and PROFILE report the same neighbour for the row and, after DEV_PROFILE's scaling, the same value. |
| DevProfile.DisagreesWithoutColumns | src/main/java/io/warp10/ext/matrixprofile/DEV_PROFILE.java:203-266 | On a row with no column outside the default zone, DEV_PROFILE's index stays −1, so its tickAtIndex throws, while PROFILE keeps MAX_VALUE with index 0. |
| DevProfile.DevNearestByDistance | src/main/java/io/warp10/ext/matrixprofile/DEV_PROFILE.java:239-264 | Under those conditions, DEV_PROFILE's neighbour (chosen on the unscaled term) is the nearest admissible neighbour by PROFILE's distance. |
| DevProfile.ScaledNearest | src/main/java/io/warp10/ext/matrixprofile/DEV_PROFILE.java:263-264 | The nearest column by the unscaled term is the nearest by the scaled distance. |
| DevProfile.ScaledOrder | src/main/java/io/warp10/ext/matrixprofile/DEV_PROFILE.java:263-264 | Scaling after the minimum keeps which terms improve on MAX_VALUE, their order and their ties. |
| DevProfile.CachedSkip | src/main/java/io/warp10/ext/matrixprofile/DEV_PROFILE.java:209-212 | An excluded column leaves the cache invariant intact. |
| DevProfile.Record | src/main/java/io/warp10/ext/matrixprofile/DEV_PROFILE.java:215-235 | Writes the pair's dot product into dotCache2[j], and into dotRowInit[j] on row 0; the caches hold row i's dot products for every compared column up to j. |
| DevProfile.RowDot | src/main/java/io/warp10/ext/matrixprofile/DEV_PROFILE.java:214-233 | The dot product read from the previous row's cache (or row 0's cache at j = 0) is the full dot product of windows i and j: no read of a stale slot. |
| DevProfile.ScanRow | src/main/java/io/warp10/ext/matrixprofile/DEV_PROFILE.java:207-255 | The column loop leaves the row's minimum and index as the specification scan, and leaves dotCache2 holding row i's dot products. |
| DevProfile.TermOfDot | src/main/java/io/warp10/ext/matrixprofile/DEV_PROFILE.java:239 | The unscaled term computed from the dot product and the statistics is the term of the two windows. |
| DevProfile.Compare | src/main/java/io/warp10/ext/matrixprofile/DEV_PROFILE.java:243-253 | The compare-and-update with its tie resolution is one step of the specification fold. |
| DevProfile.Rows | src/main/java/io/warp10/ext/matrixprofile/DEV_PROFILE.java:197-267 | The row loop with the swapped caches succeeds exactly when every row has a neighbour, and then produces each row's tick, neighbour tick and scaled minimum. |
| DevProfile.EntriesSnoc | src/main/java/io/warp10/ext/matrixprofile/DEV_PROFILE.java:266 | Appending row i's entry (own tick, neighbour's tick, scaled value) extends the entries of the rows before it. |
| DevProfile.DevEntries | src/main/java/io/warp10/ext/matrixprofile/DEV_PROFILE.java:263-266 | Defines the entries of rows 0 .. m − 1: the row's own tick, the tick of its neighbour as elevation and the scaled minimum as value (ghost; no ensures of its own; see DevProfile.Rows). |
| DevProfile.IsDevProfile | src/main/java/io/warp10/ext/matrixprofile/DEV_PROFILE.java:194-267 | Defines DEV_PROFILE's result: an empty clone of the input (same bucketization) holding one entry per row, without location (ghost; no ensures of its own; see DevProfile.Apply). |
| DevProfile.Apply | src/main/java/io/warp10/ext/matrixprofile/DEV_PROFILE.java:71-267 | The guards in order with their errors. Then an index exception exactly when some row has no neighbour, and otherwise one entry per window. |
| AbProfile.ABFold | src/main/java/io/warp10/ext/matrixprofile/ABPROFILE.java:215-251 | A row's argmin is −1 or a window of B already compared. |
| AbProfile.ABRow | src/main/java/io/warp10/ext/matrixprofile/ABPROFILE.java:215-251 | Defines row i of the AB-join: ABFold over every window of B (no ensures of its own; see AbProfile.ABFoldFirstMinimum and AbProfile.RowArgMin). |
| AbProfile.ABFoldFirstMinimum | src/main/java/io/warp10/ext/matrixprofile/ABPROFILE.java:247-250 | Row i's minimum is at most the distance to every window of B compared, with no exclusion zone. Its argmin is the first window of minimal distance, or −1 when none is below MAX_VALUE. |
| AbProfile.ABMinimumBeaten | src/main/java/io/warp10/ext/matrixprofile/ABPROFILE.java:247-250 | A window strictly below the running minimum becomes the first minimum. |
| AbProfile.ABMinimumKept | src/main/java/io/warp10/ext/matrixprofile/ABPROFILE.java:247-250 | A window not below it leaves the first minimum in place. |
| AbProfile.RowArgMin | src/main/java/io/warp10/ext/matrixprofile/ABPROFILE.java:215-251 | The row loop computes the specification row's minimum and argmin. |
| AbProfile.CellDistance | src/main/java/io/warp10/ext/matrixprofile/ABPROFILE.java:226-245 | The distance of window i of A and window j of B: the full k-term dot product with the two series' statistics, or the macro on the two subsequences. |
| AbProfile.Rows | src/main/java/io/warp10/ext/matrixprofile/ABPROFILE.java:215-254 | The rows succeed exactly when every row has an argmin, and then give each row's tick, argmin and minimum. |
| AbProfile.ABEntries | src/main/java/io/warp10/ext/matrixprofile/ABPROFILE.java:253 | Defines the entries of rows 0 .. m − 1: series A's tick at the row's argmin, the argmin as elevation, the minimum as value (ghost; no ensures of its own; see AbProfile.Rows). |
| AbProfile.IsABProfile | src/main/java/io/warp10/ext/matrixprofile/ABPROFILE.java:202-254 | Defines ABPROFILE's result: one entry per window of A, A's bucketization moved back by k − 1 spans, no locations (ghost; no ensures of its own; see AbProfile.Apply). |
| AbProfile.Apply | src/main/java/io/warp10/ext/matrixprofile/ABPROFILE.java:72-254 | The guards in order: k < 2, series B's checks, series A's checks, maxsize on either, no window in either. Then an index exception exactly when a row has no argmin, and otherwise the AB-join profile. |
| AbProfile.ABTickIsAtArgMin | src/main/java/io/warp10/ext/matrixprofile/ABPROFILE.java:253 | An entry's tick is series A's tick at the row's argmin in B, not at the row. |
| RProfile.Kept | src/main/java/io/warp10/ext/matrixprofile/RPROFILE.java:236-239 | Every window kept is in range and outside the zone: abs(b − i) ≥ r. |
| RProfile.KeptComplete | src/main/java/io/warp10/ext/matrixprofile/RPROFILE.java:236-239 | Every window outside the zone is kept. |
| RProfile.KeptIncreasing | src/main/java/io/warp10/ext/matrixprofile/RPROFILE.java:236-257 | Kept windows come in strictly increasing order, each once. |
| RProfile.RowElevations | src/main/java/io/warp10/ext/matrixprofile/RPROFILE.java:236-257 | Window i has an entry (elevation i) exactly when 0 ≤ i < p and abs(b − i) ≥ r: excluded windows are omitted, not filled. |
| RProfile.RowTicksIncreasing | src/main/java/io/warp10/ext/matrixprofile/RPROFILE.java:257 | On a bucketized, filled series with a positive span, the entries' ticks strictly increase. |
| RProfile.ProfileIsRowMinimum | src/main/java/io/warp10/ext/matrixprofile/RPROFILE.java:236-267 | PROFILE's entry for window b is an entry of RPROFILE's row for that window, and no entry of that row is smaller. |
| RProfile.RowNearest | src/main/java/io/warp10/ext/matrixprofile/RPROFILE.java:236-267 | Through the row, PROFILE's entry for b is b's nearest admissible neighbour, in range and outside the zone. |
| RProfile.RowIsPairDist | src/main/java/io/warp10/ext/matrixprofile/RPROFILE.java:247-255 | Each value of the row is the distance PROFILE uses for that pair, at an admissible window. |
| RProfile.RowDistance | src/main/java/io/warp10/ext/matrixprofile/RPROFILE.java:244-265 | The distance from window b to window i: full k-term dot product and statistics, or the macro. |
| RProfile.RowOf | src/main/java/io/warp10/ext/matrixprofile/RPROFILE.java:223-267 | Defines RPROFILE's row for window b: one entry per kept window i, at i's tick, with elevation i and Dist(b, i) as value, on the bucketization moved back by k − 1 spans (no ensures of its own; see RProfile.RowElevations, RProfile.RowIsPairDist and RProfile.ProfileIsRowMinimum). |
| RProfile.Entries | src/main/java/io/warp10/ext/matrixprofile/RPROFILE.java:236-267 | The loop fails exactly when b < 0 and some window is kept. Otherwise it appends the ticks, indices and distances of the kept windows, in order. |
| RProfile.UpToIsRow | src/main/java/io/warp10/ext/matrixprofile/RPROFILE.java:236-267 | The entries appended window by window are those of the kept windows, in order. |
| RProfile.Apply | src/main/java/io/warp10/ext/matrixprofile/RPROFILE.java:155-267 | The guards in order: k < 2, type, bucketized, filled, k ≥ bucket count, negative radius, bucket index ≥ p. Then an index exception exactly when b < 0 and a window is kept; otherwise the row. |
| MpRow.Compared | src/main/java/io/warp10/ext/matrixProfile/MP_ROW.java:147-150 | Every window compared is in range and outside the inclusive zone abs(b − i) ≤ k·ratio. |
| MpRow.RatioOf | src/main/java/io/warp10/ext/matrixProfile/MP_ROW.java:48-53 | Defines the exclusion ratio: the optional DOUBLE parameter, otherwise 0.25 (no ensures of its own). |
| MpRow.Zone | src/main/java/io/warp10/ext/matrixProfile/MP_ROW.java:148 | Defines the zone's half-width k·ratio (no ensures of its own). |
| MpRow.Far | src/main/java/io/warp10/ext/matrixProfile/MP_ROW.java:147-150 | Defines the windows MP_ROW compares: those where abs(b − i) ≤ k·ratio is false (no ensures of its own; see MpRow.ComparedIsKept). |
| MpRow.MpRowOf | src/main/java/io/warp10/ext/matrixProfile/MP_ROW.java:134-167 | Defines MP_ROW's row for window b: one entry per compared window, at its tick, with no location or elevation and Dist(b, i) as value (no ensures of its own; see MpRow.AgreesWithRProfile). |
| MpRow.ComparedIsKept | src/main/java/io/warp10/ext/matrixProfile/MP_ROW.java:147-150 | The inclusive zone of half-width x is the strict zone of radius floor(x) + 1. |
| MpRow.AgreesWithRProfile | src/main/java/io/warp10/ext/matrixProfile/MP_ROW.java:147-166 | MP_ROW with ratio x gives RPROFILE's row for radius floor(k·x) + 1, without elevations. |
| MpRow.Entries | src/main/java/io/warp10/ext/matrixProfile/MP_ROW.java:147-167 | The loop fails exactly when b < 0 and some window is compared. Otherwise it appends ticks and distances of the compared windows. |
| MpRow.Apply | src/main/java/io/warp10/ext/matrixProfile/MP_ROW.java:71-167 | The guards in order: k < 2, type, bucketized, filled, bucket index ≥ p, negative array size. Then an index exception exactly when b < 0 and a window is compared; otherwise one entry per compared window, with no elevation. |
| AtBucketIndex.Subsequence | src/main/java/io/warp10/ext/matrixprofile/ATBUCKETINDEX.java:97-128 | An index exception exactly when the window leaves the series. Otherwise k samples, sample i from source index start + i, location and elevation copied when present, bucketspan kept and lastbucket at the last sample. |
| AtBucketIndex.SubsequenceOf | src/main/java/io/warp10/ext/matrixprofile/ATBUCKETINDEX.java:97-128 | Defines the window: the ticks, locations, elevations and values of samples s .. s + k − 1 in order. A bucketized source keeps its bucketspan, with k buckets and the last sample's tick as lastbucket (no ensures of its own). |
| AtBucketIndex.SubsequenceKeepsLayout | src/main/java/io/warp10/ext/matrixprofile/ATBUCKETINDEX.java:101-108 | The window of a bucketized, filled series is itself bucketized and filled, with lastbucket moved back by the samples after it. |
| AtBucketIndex.SubsequenceOfSubsequence | src/main/java/io/warp10/ext/matrixprofile/ATBUCKETINDEX.java:97-128 | A window of a window is the corresponding window of the source. |
| AtBucketIndex.Apply | src/main/java/io/warp10/ext/matrixprofile/ATBUCKETINDEX.java:57-92 | The guards in order: k < 2, type, bucketized, filled, bucket index ≥ n − k + 1. Then a negative index fails; otherwise the window. |
| Subsequence.Apply | src/main/java/io/warp10/ext/matrixProfile/SUBSEQUENCE.java:54-103 | The same guards, then the window with locations and elevations dropped. |
| Subsequence.Stripped | src/main/java/io/warp10/ext/matrixProfile/SUBSEQUENCE.java:89-103 | Defines a window with its locations and elevations dropped (no ensures of its own; see Subsequence.AgreesWithAtBucketIndex). |
| Subsequence.AgreesWithAtBucketIndex | src/main/java/io/warp10/ext/matrixProfile/SUBSEQUENCE.java:89-103 | SUBSEQUENCE's window is ATBUCKETINDEX's with no locations and elevations, and the same ticks, values and bucketization. |
| Fluss.CanonPositive | src/main/java/io/warp10/ext/matrixprofile/FLUSS.java:39-43 | The canonical arc curve h − (i − h)²/h is positive strictly inside (0, n). |
| Fluss.Canon | src/main/java/io/warp10/ext/matrixprofile/FLUSS.java:39-43 | canonArcCurveValue h − (i − h)²/h with h = n/2. Its contract gives the closed form: Canon(n, i)·n = 2·i·(n − i). |
| Fluss.Divide | src/main/java/io/warp10/ext/matrixprofile/FLUSS.java:105 | Double division: exact for a non-zero divisor; by zero, +∞, −∞ or NaN by the dividend's sign. |
| Fluss.MinOne | src/main/java/io/warp10/ext/matrixprofile/FLUSS.java:106 | Math.min(1, v): NaN stays NaN; otherwise the result is v or 1 and never above 1. |
| Fluss.CumCounts | src/main/java/io/warp10/ext/matrixprofile/FLUSS.java:93-107 | When every write lands in the array, the running sum at x is the number of arcs passing strictly over x minus the arcs whose ends are out of order. |
| Fluss.NoFolded | src/main/java/io/warp10/ext/matrixprofile/FLUSS.java:95-96 | With low end below high end for every arc, no arc is out of order. |
| Fluss.Delta | src/main/java/io/warp10/ext/matrixprofile/FLUSS.java:93-99 | Defines the difference array after the first m arcs: +1 at low end + 1, −1 at the high end (no ensures of its own; see Fluss.Differences). |
| Fluss.Cum | src/main/java/io/warp10/ext/matrixprofile/FLUSS.java:102-104 | Defines the running sum of the differences at 0 .. t − 1 (no ensures of its own; see Fluss.CumCounts and Fluss.Cumulate). |
| Fluss.Spanning | src/main/java/io/warp10/ext/matrixprofile/FLUSS.java:93-99 | Defines the independent reference count: the number of the first m arcs passing strictly over x (no ensures of its own; see Fluss.CumCounts). |
| Fluss.Folded | src/main/java/io/warp10/ext/matrixprofile/FLUSS.java:95-96 | Defines the number of the first m arcs with high end ≤ x ≤ low end, the self-arcs at x when the ends are in order (no ensures of its own; see Fluss.CumCounts and Fluss.NoFolded). |
| Fluss.Cac | src/main/java/io/warp10/ext/matrixprofile/FLUSS.java:103-106 | Defines the corrected arc curve at x: min(1, cumsum / canonArcCurveValue(n, x)) with Java's division (no ensures of its own; see Fluss.FlussBounded and Fluss.FlussCountsArcs). |
| Fluss.Lo | src/main/java/io/warp10/ext/matrixprofile/FLUSS.java:94-95 | Defines the low end of arc i: min(i, elevation) narrowed by (int), Common.Int32 (no ensures of its own). |
| Fluss.Hi | src/main/java/io/warp10/ext/matrixprofile/FLUSS.java:94-96 | Defines the high end of arc i: max(i, elevation) narrowed by (int) (no ensures of its own). |
| Fluss.FlussBounded | src/main/java/io/warp10/ext/matrixprofile/FLUSS.java:103-113 | Every entry of the curve is finite and at most 1. |
| Fluss.FlussCountsArcs | src/main/java/io/warp10/ext/matrixprofile/FLUSS.java:93-107 | Without self-arcs, the entry at x between the borders is the number of arcs over x divided by the canonical curve, clamped at 1, and never negative. |
| Fluss.Differences | src/main/java/io/warp10/ext/matrixprofile/FLUSS.java:93-99 | The difference loop succeeds exactly when every arc's writes land in the array, and then holds +1 after each low end and −1 at each high end. |
| Fluss.AddArc | src/main/java/io/warp10/ext/matrixprofile/FLUSS.java:94-98 | One arc's two writes, failing when either index leaves the array. |
| Fluss.Cumulate | src/main/java/io/warp10/ext/matrixprofile/FLUSS.java:101-107 | Each entry below n − w becomes its clamped, normalised prefix sum; the others are untouched. |
| Fluss.Correct | src/main/java/io/warp10/ext/matrixprofile/FLUSS.java:109-113 | Succeeds exactly when w ≤ n, and then sets the first and last w entries to 1 and leaves the rest. |
| Fluss.Out | src/main/java/io/warp10/ext/matrixprofile/FLUSS.java:103-113 | Defines the final entry at x: 1 in the first and last w positions, the clamped normalised prefix sum elsewhere (no ensures of its own; see Fluss.FlussBounded and Fluss.FlussCountsArcs). |
| Fluss.FlussOf | src/main/java/io/warp10/ext/matrixprofile/FLUSS.java:115-118 | Defines the result: the input's ticks and bucketization, no locations or elevations, the entries Out as values (no ensures of its own). |
| Fluss.Apply | src/main/java/io/warp10/ext/matrixprofile/FLUSS.java:55-121 | The guards in order: window size < 2, type, bucketized, filled, no elevations. Then an index exception exactly when an arc write or the head and tail pass leaves the array; otherwise the curve, on the input's ticks. |

## Left out

- Floating point is exact `real` arithmetic apart from the named special values. Rounding, overflow to ±∞ of finite operations and −0.0 are not modelled.
- Stats.WindowStats: the window mean and variance are computed in exact arithmetic. The source computes them with `BigDecimal`: each `divide(bdk, ROUND_HALF_UP)` rounds sum/k, sumsq/k and sum²/k² to the scale of its dividend, that is, to the number of decimals of the input values (PROFILE.java:227-230, and the same code in DEV_PROFILE, ABPROFILE, RPROFILE and MP_ROW). As a result:
  - a non-constant window can get std 0 in the source; for the window 1.0, 1.0, 1.1 with k = 3, the source rounds the variance to 1.07 − 1.07 = 0;
  - the window's distances are then ±∞ or NaN in the source but finite in the model;
  - a rounded variance can also come out negative, so its square root is NaN.
- `Math.sqrt` is a parameter. Only where a lemma says so is it assumed to be strictly increasing.
- `GTSHelper` is modelled through its effect on the sequences, not its code:
  - `getValue`/`valueAtIndex` and `tickAtIndex` are modelled by their effect.
  - An index past the end of the ticks gives `Long.MIN_VALUE` in `Common.TickAtIndex`.
  - Null-pointer and array-index exceptions are merged into one index exception.
- The exception messages are not modelled. Every exception is one `Common.Error` constructor.
- WarpScript stack plumbing is not modelled: popping and type-checking the parameters, the MAP and positional signatures, and the push of the result. The parameters are method arguments, and a missing optional one is `None`.
- The sort of the input is not modelled; the series is taken as already sorted.
- The metadata copy, `rename` and GTS storage are not modelled.
- The configuration property and the capability that override `maxsize` are `Option` parameters. Reading them is not modelled.
- Distance.Macro: a custom distance macro is a function from the two subsequence GTS to a real. Executing WarpScript on the stack is not modelled, and neither are these results:
  - a macro that leaves NaN or ±∞, which PROFILE and ABPROFILE accept through `doubleValue()` (PROFILE.java:307, ABPROFILE.java:244);
  - a macro that leaves something other than a number;
  - the raw object that RPROFILE stores as the value (RPROFILE.java:264-265), so a LONG result stays a LONG there; the model stores it as `Finite` of a real.
- Common.Gts: the input samples are `real`, so a NaN or ±∞ sample value cannot be represented. In the source such a value makes `BigDecimal.valueOf` throw NumberFormatException in the window statistics (PROFILE.java:223-224, and the same code in DEV_PROFILE, ABPROFILE, RPROFILE and MP_ROW); that exception is not modelled.
- DevProfile.RatioOf and MpRow.RatioOf: the exclusion ratio is a `real`, so a NaN or ±∞ ratio cannot be represented. In the source `k * NaN` makes the zone test false, so DEV_PROFILE and MP_ROW then skip no column (DEV_PROFILE.java:58 and :210, MP_ROW.java:51 and :148).
- The `(int)` narrowing of `k` and of the bucket index in the Java code is not modelled; those values are taken as in the 32-bit range. FLUSS's narrowing of the arc ends is modelled (`Common.Int32`). The 64-bit `long` tick arithmetic is not modelled either: `lastbucket − bucketspan·(k − 1)` and `lastbucket − (p − 1 − i)·bucketspan` (PROFILE.java:242 and :251, and the same `lastbucket` in ABPROFILE, RPROFILE and MP_ROW) are unbounded integers in the model and cannot wrap around.
- The older draft `src/main/java/io/warp10/ext/matrixProfile/PROFILE.java` is not part of this model. It does not compile and is superseded by `matrixprofile/PROFILE.java`.
- The commented-out running-window statistics in DEV_PROFILE are not part of this model.
- The extension registries and the Python tooling are not part of this model. Only the two `maxsize` defaults are kept: 50000 for PROFILE and 10000 for ABPROFILE.
- The integration test is not part of this model; it only motivates `DevProfile.AgreesWithProfile`.
- DevProfile.AgreesWithProfile: the agreement is proved only under its five hypotheses: no macro, a strictly increasing `sqrt`, the row's terms finite, non-negative and below `MAX_VALUE`, its scaled distances below `MAX_VALUE`, and some column outside the zone. Without the last one the two functions really differ (`DevProfile.DisagreesWithoutColumns`). The test compares sums of doubles within 1E-4; rounding is not modelled.
