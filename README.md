# Earth-observation kernels in Dafny

This project models the computational core of a Rust library for
Earth-observation rasters. The library is exposed to Python. The model
covers five parts:

- **BFAST Monitor** (`src/workflows.rs`). Integer `YYYYMMDD` dates become
  fractional years. Each pixel's time series is split into a history and a
  monitoring period. A harmonic regression (intercept, trend and
  cosine/sine pairs) is fitted by least squares over the history. Its
  prediction over the monitoring period gives residuals. An OLS-MOSUM
  detector reports the date and magnitude of the first break, or the
  sentinel `(0, 0)`. A raster driver validates the `(T, H, W)` stack and
  fills a `(2, H, W)` output.
- **The rule-based classifier** (`classify_pixel`, `complex_classification`).
  It is a priority chain of threshold rules over seven bands, mapped over a
  raster.
- **Decision-tree and random-forest inference** (`src/classification.rs`).
  A tree is walked from the root by threshold tests. A forest takes the most
  frequent of its trees' truncated predictions.
- **The 2-D median filter** (`src/spatial.rs`). For each cell it gathers
  the in-bounds values of a `k` by `k` window, sorts them and takes the
  element at index `len / 2`.
- **The spectral-index kernels** (`src/indices.rs`). These are the guarded
  normalized difference, NDVI and NDWI, and the enhanced vegetation index.
  Each checks its inputs' shapes (and labels) first.

How the model represents things:

- `f64` values are Dafny `real`s.
- `cos` and `sin` are parameters (`Harmonic.Trig`) and are never
  interpreted.
- The SVD least-squares solve is a parameter (`Harmonic.Solver`). When it
  succeeds it returns one coefficient per column.
- The residual standard deviation is kept squared (`sigmaSq = SSE / df`).
  The MOSUM boundary test `|m| / (sigma sqrt(n)) > c sqrt(1 + k/n)` is
  stated without square roots as `m^2 > c^2 sigma^2 (n + k)`.
  `Mosum.CrossesMatchesStandardizedTest` proves this agrees with the
  written test for every positive `sigma`.
  `Mosum.ZeroSigmaCrossesIffNonZero` covers `sigma = 0`, where the IEEE
  quotient is an infinity or NaN.
- Rust's truncating `/` and `%` on `i64` are written out, so negative dates
  are covered.
- The classifier's ratios are IEEE quotients of finite numbers
  (`PixelClassifier.Quotient`). A zero denominator gives an infinity or NaN,
  and comparisons with NaN are false.
- The parallel loops (rayon) are sequential loops. Every write target is
  disjoint, so order does not matter.

Two consequences of the code as written:

- The MOSUM early exit tests `len < window_size`. With
  `len == window_size` the scan range is empty, so there is no break
  either. `Mosum.NoBreakCases` covers both cases.
- The moving sum at break index `b` is `cusum[b] - cusum[b - w]`. That sum
  covers residuals `b - w` to `b - 1`, while the magnitude is taken at `b`.
  So the last monitoring observation never affects whether, or where, a
  break is reported (`Mosum.BreakIndexIgnoresLastObservation`). A large
  deviation confined to the last monitoring date is never reported.
  `Mosum.LastDeviationNotReported` shows one: a residual of 12 on the last
  date, with every earlier residual 0, gives no break.

## Model

| member | source | states |
|---|---|---|
| Harmonic.BasisHarmonicColumns | src/workflows.rs:37-41 | column `2j` holds `cos(2 pi j t)` and column `2j+1` holds `sin(2 pi j t)` for every harmonic `j >= 1` |
| Harmonic.DesignRowOrderOne | src/workflows.rs:33-42 | for order 1 the row of `t` is `[1, t, cos(2 pi t), sin(2 pi t)]` |
| Harmonic.BuildDesignMatrix | src/workflows.rs:28-44 | the filled matrix is `|dates|` by `2*order+2`, column 0 is 1.0, column 1 is the date, and every cell is the basis value of its column at its row's date |
| Harmonic.SumSq | src/workflows.rs:64 | the sum of squared residuals is never negative |
| Harmonic.SumSqZero | src/workflows.rs:62-64 | a zero sum of squared residuals means every residual is zero (a perfect fit) |
| Harmonic.FitHarmonicModel | src/workflows.rs:47-77 | `NotEnoughData` exactly when fewer than `2*order+2` values; `ComputationError` when exactly that many (df = 0) and whenever enough values fail to give a model (the solve fails); success exactly when there are more and the solve succeeds; on success the coefficients are the solver's, one per column, `sigma^2 >= 0` and `sigma^2 * df` is the residual sum of squares |
| Harmonic.PredictHarmonicModel | src/workflows.rs:80-83 | one prediction per monitoring date |
| Harmonic.PredictIsHarmonicSeries | src/workflows.rs:80-83 | each prediction equals the harmonic series `b0 + b1 t + sum_j (b_2j cos(2 pi j t) + b_2j+1 sin(2 pi j t))`, which is defined independently of the matrix product |
| Mosum.CriticalValue | src/workflows.rs:130 | the critical value is 1.36 exactly when `alpha <= 0.05`, and 1.63 otherwise |
| Mosum.Crosses | src/workflows.rs:122-137 | the boundary test `m^2 > c^2 sigma^2 (n + k)` for `n > 0` (an empty history makes the boundary infinite); with `sigma^2 >= 0` only a non-zero moving sum can cross |
| Mosum.WindowSize | src/workflows.rs:99-100 | the window is `floor(h * n_hist)` for a non-negative product, and 0 when the saturating cast meets a negative one |
| Mosum.SumSplit | src/workflows.rs:108-120 | a sum of residuals splits at any midpoint, so a moving sum is a difference of prefix sums |
| Mosum.PrefixSums | src/workflows.rs:108-111 | `cusum` has `len + 1` entries and `cusum[j]` is the sum of the first `j` residuals |
| Mosum.MovingSumFromPrefix | src/workflows.rs:118-120 | `cusum[b] - cusum[b - w]` is the sum of residuals `b - w` to `b - 1` |
| Mosum.FirstCrossing | src/workflows.rs:132-142 | a reported position crosses the boundary and no earlier position does; with no report, no position crosses |
| Mosum.ScanMosum | src/workflows.rs:118-142 | the early-return scan over the moving sums returns exactly the first crossing position |
| Mosum.BreakIndex | src/workflows.rs:95-142 | a break index lies in `[w, len)`, crosses at `k = b - w + 1`, and no earlier index crosses; without a break (and with a full window) no index crosses |
| Mosum.MosumBreak | src/workflows.rs:95-144 | the result is `(0, 0)` without a break and `(date[b], |y[b] - pred[b]|)` with one; the magnitude is never negative |
| Mosum.DetectMosumBreak | src/workflows.rs:86-145 | the imperative detector (residuals, prefix sums, scan) returns exactly the break date and magnitude of `MosumBreak` |
| Mosum.NoBreakCases | src/workflows.rs:95-120 | no break for an empty monitoring period, for at most a full window of residuals, or for an empty window (every moving sum is 0) |
| Mosum.ZeroNeverCrosses | src/workflows.rs:122-137 | a zero moving sum never crosses a boundary when `sigma^2 >= 0` |
| Mosum.BreakIndexIgnoresLastObservation | src/workflows.rs:118-141 | replacing the last monitoring observation never changes whether or where a break is reported |
| Mosum.LastDeviationNotReported | src/workflows.rs:118-141 | predictions `[5, 6, 7, 8]`, observations `[5, 6, 7, 20]`, a history of 4, `sigma = 0` and `h = 0.25` give no break, although the last residual is 12 |
| Mosum.CrossesMatchesStandardizedTest | src/workflows.rs:122-137 | the squared test holds exactly when `|m| / (sigma sqrt(n)) > c sqrt(1 + k/n)` holds, for positive `sigma` and `n` |
| Mosum.ZeroSigmaCrossesIffNonZero | src/workflows.rs:122-137 | with `sigma = 0`, a moving sum crosses exactly when it is non-zero (infinity versus NaN) |
| BfastMonitor.TruncDivRem | src/workflows.rs:152-154 | Rust's `/` and `%` recompose the dividend, and the remainder has the dividend's sign and is smaller than the divisor |
| BfastMonitor.SplitDate | src/workflows.rs:152-154 | `year = d / 10000`, `month = (d % 10000) / 100` and `day = d % 100` with Rust's truncating operators; for `d >= 0` the month and day lie in `[0, 100)`, and for `d < 0` every field is at most 0 |
| BfastMonitor.SplitDateRecomposes | src/workflows.rs:152-154 | `year * 10000 + month * 100 + day` gives back the date for every `i64`, negative ones included |
| BfastMonitor.SplitValidDate | src/workflows.rs:152-154 | a well-formed `YYYYMMDD` date splits into exactly its year, month and day |
| BfastMonitor.FracYear | src/workflows.rs:151-157 | `year + (month - 1) / 12 + (day - 1) / 365.25`; for a month in 1..12 and a day in 1..31 it lies in `[year, year + 1)` |
| BfastMonitor.FracYearStrictlyIncreasing | src/workflows.rs:148-159 | on well-formed dates, fractional years keep the strict order of the integer dates |
| BfastMonitor.DatesToFracYears | src/workflows.rs:148-159 | one fractional year per date, in order, each given by `FracYear` |
| BfastMonitor.IndicesWhere | src/workflows.rs:172-184 | the selected indices are in bounds, ascending, satisfy the period test, and include every index that does |
| BfastMonitor.IndicesWhereMembership | src/workflows.rs:172-184 | an index is selected exactly when its date passes the period test |
| BfastMonitor.PeriodsPartition | src/workflows.rs:172-184 | the history and monitoring periods are disjoint, and together they hold exactly the dates from `history_start` or `monitor_start` on |
| BfastMonitor.RunBfastMonitorPerPixel | src/workflows.rs:162-216 | the magnitude is never negative; an empty history, an empty monitoring period, or a history of at most `2*order+2` points gives `(0, 0)` |
| BfastMonitor.FitFailureGivesSentinel | src/workflows.rs:197-201 | any fit error becomes the `(0, 0)` sentinel |
| BfastMonitor.BreakDateInMonitoringPeriod | src/workflows.rs:179-215 | a reported break date lies in the monitoring period |
| BfastMonitor.StackSize | src/workflows.rs:239-241 | a valid three-dimensional stack holds `T * H * W` values |
| BfastMonitor.PixelSeries | src/workflows.rs:277-282 | pixel `(y, x)`'s series has `T` values, and value `t` is `stack[t, y, x]` at its row-major position |
| BfastMonitor.PixelOutput | src/workflows.rs:280-289 | the closure body: the per-pixel pipeline on pixel `(y, x)`'s series with the shared fractional dates and period starts; its magnitude is never negative |
| BfastMonitor.RunBfastMonitor | src/workflows.rs:219-295 | `InvalidArgument` exactly when the stack is not 3-dimensional or its time axis differs from the dates; otherwise a `(2, H, W)` output whose channels 0 and 1 at `(y, x)` are that pixel's break date and magnitude |
| BfastMonitor.FillChannels | src/workflows.rs:258-292 | the zeroed `(2, H, W)` output gets, at every pixel, the two results for that pixel |
| PixelClassifier.Divide | src/workflows.rs:352-355 | a quotient is the real ratio for a non-zero denominator; with a zero denominator it is an infinity of the numerator's sign, or NaN exactly when the numerator is also zero |
| PixelClassifier.AboveWithPositiveDenominator | src/workflows.rs:370-390 | with a positive denominator, `num / den > th` is `num > th * den` |
| PixelClassifier.ClassifyPixel | src/workflows.rs:338-395 | the class code is always between 0 and 7 |
| PixelClassifier.FirstMatch | src/workflows.rs:359-394 | 0 exactly when no rule holds; otherwise the number of the first rule that holds |
| PixelClassifier.ClassifyPixelIsFirstMatch | src/workflows.rs:359-394 | the nested early-return chain equals the first match over the rules shadow, cloud, snow, water, vegetation, bare soil, urban |
| PixelClassifier.ShadowExactly | src/workflows.rs:360-363 | cloud shadow is returned exactly when `t < 280` and brightness `< 0.1` |
| PixelClassifier.ComplexClassification | src/workflows.rs:301-335 | the output has blue's shape, and each cell is the class of the same-index cells of the seven bands |
| Classification.Eval | src/classification.rs:24-45 | the prediction is the class of one of the tree's leaves |
| Classification.PathLengthAtMostDepth | src/classification.rs:25-44 | a walk makes at most `depth` tests |
| Classification.DecisionTree.Predict | src/classification.rs:24-45 | the cursor loop returns the leaf reached by going left exactly when `features[i] <= threshold`; a single leaf returns its class; the loop runs `PathLength` times, which is at most the tree's depth |
| Classification.Trunc | src/classification.rs:67 | `as i64` on a finite value truncates toward zero |
| Classification.UnanimousVote | src/classification.rs:65-73 | when every tree casts the same truncated vote, that vote is the only possible result |
| Classification.RandomForest.Predict | src/classification.rs:54-74 | `None` exactly for an empty forest; otherwise the result is a truncated tree vote with a count at least as large as every other vote's |
| Classification.CountVotes | src/classification.rs:65-68 | the count table has exactly the truncated votes as keys, and each count is that vote's multiplicity |
| Classification.MaxByCount | src/classification.rs:70-73 | the chosen key is in the table and no count exceeds its count |
| Classification.RandomForestPredict | src/classification.rs:81-101 | one value per feature row, NaN exactly when the forest is empty, and otherwise a majority vote |
| Spatial.WindowSound | src/spatial.rs:29-36 | every pushed value is the value of an in-bounds cell of the window |
| Spatial.WindowComplete | src/spatial.rs:29-36 | every in-bounds cell of the window is pushed |
| Spatial.WindowMembership | src/spatial.rs:24-38 | a value is in the neighborhood exactly when some in-bounds cell with `y - k/2 <= sy < y - k/2 + k` (columns alike) holds it |
| Spatial.CenterInWindow | src/spatial.rs:24-38 | for `k >= 1` a cell is inside its own window, and its value is pushed |
| Spatial.WindowNotEmpty | src/spatial.rs:28-40 | for `k >= 1` the neighborhood is never empty, so the median index is in bounds |
| Spatial.InsertPermutation | src/spatial.rs:39 | insertion adds exactly one copy of the value |
| Spatial.InsertSorted | src/spatial.rs:39 | insertion keeps a sorted sequence sorted |
| Spatial.SortIsSortedPermutation | src/spatial.rs:39 | the sort is ascending and a permutation of the neighborhood |
| Spatial.Sort | src/spatial.rs:39 | the sorted neighborhood has the neighborhood's length; `SortIsSortedPermutation` proves it ascending and a permutation |
| Spatial.MedianRank | src/spatial.rs:39-41 | the value at `len / 2` is in the neighborhood; at least `len/2 + 1` values are at most it and at least `len - len/2` are at least it |
| Spatial.MedianAt | src/spatial.rs:39-41 | a cell's output is the element at index `len / 2` of its sorted neighborhood, and it is one of the neighborhood's values |
| Spatial.MedianOfSorted | src/spatial.rs:39-41 | for already sorted values the median is the middle element |
| Spatial.MedianAtIsWindowMedian | src/spatial.rs:28-41 | each filtered value is the value of an in-bounds window cell and splits the window's values at the middle, so it lies between their minimum and maximum |
| Spatial.KernelOneIsIdentity | src/spatial.rs:24-41 | with a 1 by 1 kernel every filtered cell equals the input cell |
| Spatial.ThreeByThreeCenter | src/spatial.rs:29-38 | for a 3 by 3 raster and kernel 3, the center's neighborhood is the whole raster in row-major order |
| Spatial.CenterOfOneToNine | src/spatial.rs:56-72 | the raster 1..9 filtered with kernel 3 has 5 at its center |
| Spatial.Neighborhood | src/spatial.rs:28-38 | the two inner loops push exactly the window's in-bounds values in row-major order |
| Spatial.PushRow | src/spatial.rs:30-37 | the innermost loop appends exactly the in-bounds cells of one window row |
| Spatial.FilterCell | src/spatial.rs:28-41 | gathering, sorting and indexing give the filtered value of the cell |
| Spatial.Filtered | src/spatial.rs:22-43 | the filtered raster has the input's height and width, and each cell is the median of its neighborhood |
| Spatial.FilterRow | src/spatial.rs:27-42 | one pass of the column loop sets row `y` to its filtered values and leaves every other row unchanged |
| Spatial.MedianFilter2d | src/spatial.rs:16-46 | the output has the input's height and width, and every cell is the median of its neighborhood |
| Indices.NormalizedDifference | src/indices.rs:25-51 | `_normalized_difference`: rejected exactly when the shapes or the labels differ, with the shape error exactly when the shapes differ; otherwise `a`'s shape and labels with the guarded element-wise ratio |
| Indices.ComputeNormalizedDifference | src/indices.rs:25-51 | the imperative kernel's outcome is exactly the specified normalized difference |
| Indices.NormalizedDifferenceOutcome | src/indices.rs:29-50 | the shape error comes first and exactly when the shapes differ; the label error exactly when the shapes agree and the labels differ; a result keeps `a`'s shape and labels, and each element is the guarded ratio of the same-index inputs |
| Indices.NdElementTimesSum | src/indices.rs:42-47 | away from the zero guard, the element times `a + b` gives back `a - b` |
| Indices.NdElementBounded | src/indices.rs:42-47 | two non-negative inputs give an element in `[-1, 1]` |
| Indices.NdElementSwap | src/indices.rs:42-47 | swapping the inputs negates the element |
| Indices.NormalizedDifferenceBounded | tests/test_basic.py:154-164 | every element of the normalized difference of non-negative arrays lies in `[-1, 1]` |
| Indices.NormalizedDifferenceOfItself | tests/test_basic.py:124-137 | an array against itself gives 0 everywhere, zero sums included |
| Indices.NormalizedDifferenceSwap | src/indices.rs:36-50 | swapping the arrays negates every element of the result |
| Indices.TwoByTwoExample | src/indices.rs:171-192 | `[[1,2],[3,4]]` against `[[2,1],[1,2]]` with labels `y`, `x` gives `[[-1/3, 1/3], [1/2, 1/3]]` with the same labels |
| Indices.NormalizedDifferenceOf | src/indices.rs:65-81 | both arrays get the same labels, so only the shape test can fail, and a result carries the given labels and `a`'s shape |
| Indices.Ndvi | src/indices.rs:86-93 | rejected exactly when the shapes differ; otherwise element `i` is the normalized difference of `nir[i]` and `red[i]`, in that order |
| Indices.Ndwi | src/indices.rs:98-105 | rejected exactly when the shapes differ; otherwise element `i` is the normalized difference of `green[i]` and `nir[i]`, in that order |
| Indices.NdwiNegatesNdvi | src/indices.rs:86-105 | NDVI passes near-infrared first and NDWI passes it second, so NDWI over a band is the negated NDVI over it |
| Indices.NdviNonNegativeOverVegetation | src/indices.rs:86-93 | NDVI is non-negative where near-infrared exceeds a non-negative red |
| Indices.Evi | src/indices.rs:122-161 | rejected, with the shape error, exactly when the three shapes are not all equal; otherwise the near-infrared shape and the given labels |
| Indices.ComputeEvi | src/indices.rs:122-161 | the imperative EVI kernel's outcome is exactly the specified EVI |
| Indices.EviOutcome | src/indices.rs:133-155 | EVI fails exactly when the three shapes differ; a result has the near-infrared shape, the given labels, and one guarded element per pixel |
| Indices.EviElementTimesDenominator | src/indices.rs:146-152 | away from the zero guard, the element times the denominator gives back `2.5 * (nir - red)` |
| Indices.EviSign | src/indices.rs:146-152 | with a positive denominator EVI is positive exactly when `nir > red`, and zero exactly when they are equal |
| Indices.EviExample | src/indices.rs:196-224 | near-infrared 0.4, red 0.1 and blue 0.05 give 6/13 (the `f64` 0.46153846153846156) |
| Indices.EviExampleArray | src/indices.rs:196-224 | the same example as one-element `band` arrays keeps the label and yields `[6/13]` |

## Left out

- Python bindings: the PyO3/numpy marshalling, the `#[pyfunction]` glue, module registration in `src/lib.rs`, and the wrappers and exception classes under `python/` are I/O plumbing and are not modelled.
- Floating point: IEEE rounding, overflow and NaN inputs are not modelled. NaN appears only where the code writes it (an empty forest) in the classifier's zero-denominator quotients, and in the MOSUM standardisation when sigma = 0 (0/0 is NaN and m/0 an infinity; see `Mosum.ZeroSigmaCrossesIffNonZero`). The `1e-10` guards are exact real comparisons.
- The SVD solve is an opaque parameter. Least-squares optimality and its 1e-10 tolerance are not modelled.
- `cos`, `sin` and `sqrt` are not interpreted. The square root of the boundary test is removed by comparing squares, and `CrossesMatchesStandardizedTest` proves the two forms agree.
- Mosum.Crosses: the standardisation `|m| / (sigma sqrt(n))` is folded into the squared test, and the model stores `sigma^2` rather than `sigma`.
- Mosum.WindowSize: the saturation of `as usize` above `usize::MAX` is not modelled; only negative products saturating to 0 are.
- Parallelism: rayon's `par_for_each`, `par_bridge` and `par_iter` are modelled as sequential loops. Each write target is disjoint.
- BfastMonitor.RunBfastMonitor: the `into_shape` reshape errors and the `as_slice().unwrap()` panic are not modelled. On a standard row-major `(T, H, W)` stack, each column of the `(T, H*W)` view has stride `H*W`, so `as_slice().unwrap()` panics on every call once `T >= 2` and `H*W >= 2`. The model describes the intended per-pixel mapping, reading each pixel's series as `stack[t, y, x]`.
- PixelClassifier.ComplexClassification requires all seven bands to have blue's shape. The code indexes the other bands with blue's indices, which panics when one is smaller. That panic and larger bands are not modelled.
- Classification.Trunc: the saturation of `as i64` on huge values, and its mapping of NaN to 0, are not modelled. Only finite values are truncated.
- Classification.MaxByCount: the HashMap's iteration order is not modelled. Among tied counts, the choice is left open by `RandomForest.Predict`'s contract.
- serde JSON deserialisation of the forest is a library call and is not modelled. `RandomForestPredict` takes the forest as a value. Every path's feature index must be in bounds, since indexing panics otherwise.
- Spatial.MedianFilter2d requires `kernel_size >= 1` on a non-empty raster. A zero kernel leaves the neighborhood empty, and indexing it panics.
- Spatial.Sort: `sort_by` with `partial_cmp(...).unwrap()` panics on NaN, which is not modelled. The in-place sort is modelled as a pure insertion sort over the gathered values, which yields the same ascending sequence.
- The labeled-array type's own validation of labels against the number of axes is outside this code and is not modelled. `Indices.LabeledArray` is a dense array paired with its labels.
- `src/temporal.rs` is not part of this model. It is a single mean over an array.
