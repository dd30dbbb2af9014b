# cycle-computation in Dafny

A verified model of the analysis core of `cycle-computation`. The analysis reads
a time series for each unit: samples with a UTC timestamp and a recorded
signal value (`sig_value`). It then computes three kinds of summary for the
series and flags the units that stand out:

- **`N_common_occurrences`**: the N values recorded most often, or the N
  recorded least often.
- **`N_common_duration`**: the N values the signal held longest in total, or
  the N held shortest. A sample holds its value until the next sample.
- **`N_ranked_cycles`**: the N oscillation cycles of largest or of smallest
  amplitude. The steps:
  - collapse runs of equal values;
  - flag local minima and maxima, as `argrelextrema` with its default
    `mode='clip'` does;
  - measure each extremum against the next one (amplitude) and against the
    one after that (duration);
  - keep the rows that have a duration;
  - sort them by amplitude and take the first N.
- **`identify_outliers`**: works over a summary table with one row per metric
  and one column per unit. For each requested metric it flags the units whose
  value lies strictly outside the Tukey fences `[Q1 - 1.5 IQR, Q3 + 1.5 IQR]`
  of that metric's row. Quartiles follow pandas' default linear
  interpolation. It returns the union of the flagged units over all the
  metrics. A metric that has no row raises `KeyError`.

Modules:

| module | file | contents |
|---|---|---|
| `Wrappers` | `wrappers.dfy` | `Option` (a NaN or NaT cell) and `Result` (an exception) |
| `Series` | `series.dfy` | a sample (`timestamp` in nanoseconds, `value`), its value column, time order |
| `Ranking` | `ranking.dfy` | what all rankings share: distinct values in order of first appearance, one stable sort that puts the largest key first, Python's `s[:n]` and `s[-n:]` slices |
| `Occurrences` | `occurrences.dfy` | `N_common_occurrences` |
| `Durations` | `durations.dfy` | `N_common_duration` |
| `Cycles` | `cycles.dfy` | `N_ranked_cycles` |
| `Outliers` | `outliers.dfy` | `identify_outliers`, its quantiles and fences |

The analysis code is pandas code without loops, so everything in
`time_series_utils.py` is modelled as functions over sequences. The loop of
`identify_outliers` is a method with a `while` loop, proved against the
function `UnionOf`.

Three behaviours of the code are worth knowing:

- **Cycle amplitude example.** Take the signal 1,1,1,2,2,2,1,1,1,5,5. Its
  change points are 1,2,1,5, and all four are extrema. Only the first two
  extrema have a second extremum after them, so only they make complete
  cycles, both of amplitude 1. The largest complete cycle therefore has
  amplitude 1, not 4: the row measuring the rise to 5 has no two-ahead
  duration and is dropped (`CycleAmplitudeExample`).
- **Quartile example.** With pandas' linear rule the quartiles of 10, 11, 9,
  10.5, 50 are exactly 10 and 11 (`ExampleQuartiles`). That gives fences 8.5
  and 12.5, and only the unit with 50 is flagged (`FiveUnitExample`).
- **N of zero or less.**
  - `most_common(0)` returns nothing, but `most_common()[-0:]` returns the
    whole ranking.
  - `index[0:N]`, `index[-N:]` and `head(N)` follow Python's and pandas'
    slicing for negative N.
  - The model keeps all of this.

## Model

| member | source | states |
|---|---|---|
| `Ranking.Distinct` | time_series_utils.py:21 | the distinct values: each value of the column exactly once, nothing else |
| `Ranking.DistinctInFirstAppearanceOrder` | time_series_utils.py:53 | groups come in order of first appearance (`Counter` keys, `groupby(sort=False)`) |
| `Ranking.SortByKey` | time_series_utils.py:23 | the sorted list is a permutation of its input, largest key first |
| `Ranking.SortByKeyKeepsTieOrder` | time_series_utils.py:23 | the sort is stable: elements with equal keys keep their relative order |
| `Ranking.RankByIsRanking` | time_series_utils.py:21-23 | the ranking lists every distinct value exactly once, by non-increasing weight, ties in order of first appearance |
| `Ranking.RankByComplete` | time_series_utils.py:53-54 | every value of the column appears in the ranking |
| `Ranking.RankByTop` | time_series_utils.py:23 | the first min(N, d) of a ranking of d values: distinct values of the column, heaviest first, none left out heavier than one kept, all of them once N >= d |
| `Ranking.RankByBottom` | time_series_utils.py:27 | the last min(N, d) of a ranking: none left out lighter than one kept, all of them once N >= d |
| `Ranking.TopByKey` | time_series_utils.py:94-95 | the first k after sorting: min(k, n) of the elements, largest key first, none left out with a larger key than one kept |
| `Ranking.Take` | time_series_utils.py:56 | `s[:n]` is a prefix of s of length min(n, \|s\|) for n >= 0 and max(\|s\| + n, 0) for negative n |
| `Ranking.TakeLast` | time_series_utils.py:56 | `s[-n:]` is a suffix of s of length min(n, \|s\|), all of s for n = 0, max(\|s\| + n, 0) for negative n |
| `Occurrences.Count` | time_series_utils.py:21 | definition of a value's count in `collections.Counter(df["sig_value"])`: how many samples record it; properties in `RankingOfOccurrences`, `MostCommonN`, `LeastCommonN` |
| `Occurrences.MostCommon` | time_series_utils.py:21-27 | definition of `Counter(...).most_common()` (each distinct value with its count, stable sort by count); properties in `RankingOfOccurrences` |
| `Occurrences.NCommonOccurrences` | time_series_utils.py:7-27 | definition of `N_common_occurrences`: `most_common(N)` (empty for N <= 0) or `most_common()[-N:]`; properties in `MostCommonN`, `LeastCommonN`, `NonPositiveCount` |
| `Occurrences.RankingOfOccurrences` | time_series_utils.py:21-27 | `most_common()` lists each distinct value once, by non-increasing count, equal counts in order of first appearance |
| `Occurrences.MostCommonN` | time_series_utils.py:20-23 | for N >= 1: min(N, d) values, a prefix of the full ranking, none left out counted more often than one returned, all values once N >= d |
| `Occurrences.LeastCommonN` | time_series_utils.py:24-27 | for N >= 1: the last min(N, d) of the full ranking, none left out counted less often than one returned |
| `Occurrences.NonPositiveCount` | time_series_utils.py:23-27 | N <= 0: `most_common(N)` is empty; `[-0:]` is the whole ranking; negative N drops the first -N values |
| `Durations.Elapsed` | time_series_utils.py:50 | one entry per sample: the time to the next sample, missing (NaT) for the last; properties in `ElapsedPrefixSum`, `LastSampleAddsNothing` |
| `Durations.TotalTime` | time_series_utils.py:53 | definition of a group's `sum()`: the present elapsed times of the samples holding a value, NaT summed as 0; properties in `GroupingConserves`, `TotalsNonNegative` |
| `Durations.Total` | time_series_utils.py:53 | definition of a value's total time over a series; properties in `TotalsSumToSpan`, `TotalsNonNegative` |
| `Durations.TimeByValue` | time_series_utils.py:53 | definition of the `groupby('sig_value', sort=False).sum()` table: each distinct value with its total time, in order of first appearance; properties in `GroupingConserves`, `TotalsSumToSpan`, `LastSampleAddsNothing` |
| `Durations.RankedByDuration` | time_series_utils.py:53-54 | definition of the index after `sort_values(by="time_elapsed", ascending=False)`: the distinct values, longest total time first; properties in `LongestN`, `ShortestN`, `NonPositiveDurationCount` |
| `Durations.NCommonDuration` | time_series_utils.py:53-56 | definition of `N_common_duration`: `index[0:N]` or `index[-N:]` of the ranking by total time; properties in `LongestN`, `ShortestN`, `NonPositiveDurationCount` |
| `Durations.ElapsedPrefixSum` | time_series_utils.py:50 | the elapsed times of the first j samples add up to the time from the first sample to sample j |
| `Durations.GroupingConserves` | time_series_utils.py:53 | grouping loses no time: the group totals add up to the sum of all present elapsed times |
| `Durations.TotalsSumToSpan` | time_series_utils.py:50-53 | the total times of all values add up to last timestamp minus first timestamp |
| `Durations.TotalsNonNegative` | time_series_utils.py:50-53 | with time-ordered samples no value has a negative total time |
| `Durations.LastSampleAddsNothing` | time_series_utils.py:50-53 | the last sample's time is missing (NaT) and summed as 0; a value only it records still forms a group, with total 0 |
| `Durations.LongestN` | time_series_utils.py:53-56 | for N >= 1: min(N, d) values, a prefix of the ranking by total time, none left out held longer than one returned |
| `Durations.ShortestN` | time_series_utils.py:53-56 | for N >= 1: the last min(N, d) of the ranking, none left out held shorter than one returned |
| `Durations.NonPositiveDurationCount` | time_series_utils.py:56 | N <= 0: `[0:0]` is empty and `[-0:]` everything; negative N drops the last (or the first) -N values |
| `Cycles.Collapse` | time_series_utils.py:76-78 | the change points: a subsequence of the signal, no two adjacent equal, same first sample and same last value |
| `Cycles.ChangePointsKept` | time_series_utils.py:76-78 | every sample whose value differs from its predecessor's survives |
| `Cycles.CollapseFixesNoRepeats` | time_series_utils.py:76-78 | a signal without repeated neighbours is left unchanged |
| `Cycles.CollapseIdempotent` | time_series_utils.py:76-78 | collapsing twice is collapsing once |
| `Cycles.CollapseTimeOrdered` | time_series_utils.py:76-78 | collapse keeps time order |
| `Cycles.CollapseOfRising` | time_series_utils.py:76-78 | a non-decreasing signal collapses to a strictly increasing one |
| `Cycles.CollapseOfFalling` | time_series_utils.py:76-78 | a non-increasing signal collapses to a strictly decreasing one |
| `Cycles.Clip` | time_series_utils.py:81-82 | `mode='clip'` moves an out-of-range neighbour index back into range |
| `Cycles.IsLocalMin` | time_series_utils.py:81 | definition of `argrelextrema(..., np.less_equal)` at one index, neighbours clipped; properties in `FlagsByRealNeighbours`, `NeverBoth` |
| `Cycles.IsLocalMax` | time_series_utils.py:82 | definition of `argrelextrema(..., np.greater_equal)` at one index, neighbours clipped; properties in `FlagsByRealNeighbours`, `NeverBoth` |
| `Cycles.FlagsByRealNeighbours` | time_series_utils.py:81-82 | with clipping, a sample is a minimum or maximum exactly by comparison with its real neighbours, so both ends are always flagged |
| `Cycles.ExtremumIndices` | time_series_utils.py:81-83 | the flagged indices, increasing, all flagged and none missed |
| `Cycles.AllFlagged` | time_series_utils.py:81-83 | when every sample below k is flagged, the flagged indices are exactly 0, 1, ..., k - 1 |
| `Cycles.FlagRow` | time_series_utils.py:81-82 | definition of one row's `local_min`/`local_max` cells: the value where the sample is flagged as a minimum or maximum, missing elsewhere; properties in `ExtremaHoldValue`, `ExtremaOfOneKind` |
| `Cycles.Extrema` | time_series_utils.py:81-83 | definition of the `extrema` table: one row per flagged change point, with its `local_min`/`local_max` cells; properties in `ExtremaEndpoints`, `ExtremaHoldValue`, `ExtremaOfOneKind`, `ExtremaAlternate`, `ExtremaTimeOrdered` |
| `Cycles.ExtremaEndpoints` | time_series_utils.py:81-83 | the first and last change points are extrema; two change points give at least two extrema |
| `Cycles.NeverBoth` | time_series_utils.py:81-82 | without repeats no sample is both a minimum and a maximum |
| `Cycles.ConsecutiveExtrema` | time_series_utils.py:81-83 | after a minimum the next extremum is a higher maximum, after a maximum a lower minimum |
| `Cycles.AlternateAt` | time_series_utils.py:81-83 | neighbouring rows of `extrema` are of opposite kinds, values moving accordingly |
| `Cycles.ExtremaHoldValue` | time_series_utils.py:81-83 | each extremum's `local_min`/`local_max` cell holds its own value |
| `Cycles.ExtremaOfOneKind` | time_series_utils.py:81-83 | each extremum has exactly one of `local_min` and `local_max` set |
| `Cycles.ExtremaAlternate` | time_series_utils.py:81-83 | the extrema of a collapsed signal strictly alternate between minima and maxima |
| `Cycles.ExtremaTimeOrdered` | time_series_utils.py:83 | extrema keep the order of time |
| `Cycles.Amplitude` | time_series_utils.py:86 | definition of `diff().abs().shift(-1)`: distance to the next extremum, missing for the last; properties in `AlternatingRow`, `CompleteCyclesWellFormed` |
| `Cycles.CycleDuration` | time_series_utils.py:87 | definition of `diff(periods=2).shift(-2)`: time to the extremum two ahead, missing for the last two; properties in `TimedRows`, `CycleDurationsNonNegative` |
| `Cycles.FillRow` | time_series_utils.py:90-91 | definition of the fill-in: a missing `local_min` becomes value - amplitude, a missing `local_max` value + amplitude; properties in `AlternatingRow`, `CompleteCyclesWellFormed` |
| `Cycles.CycleTable` | time_series_utils.py:86-91 | one row per extremum; a row with a duration has amplitude, `local_min` and `local_max` too |
| `Cycles.AlternatingRow` | time_series_utils.py:86-91 | each timed row measures the move to the next extremum: amplitude, filled-in min and max, two-ahead duration |
| `Cycles.TimedRows` | time_series_utils.py:87-94 | only the last two rows lack a duration, so `dropna` keeps the first m - 2 |
| `Cycles.DropUntimed` | time_series_utils.py:94 | definition of `dropna(subset="cycle_duration")`; properties in `DropUntimedPrefix`, `CycleCountIsLength` |
| `Cycles.CompleteCycles` | time_series_utils.py:76-94 | definition of the table of lines 76-94 up to `dropna`: collapse, extrema, cycle table, timed rows; properties in `CompleteCyclesSpan`, `CycleCountIsLength`, `CompleteCyclesWellFormed`, `RankedCycles` |
| `Cycles.DropUntimedPrefix` | time_series_utils.py:94 | `dropna` keeps exactly the timed rows, in order |
| `Cycles.AlternatingCycles` | time_series_utils.py:86-94 | the kept rows pair each extremum with the next two |
| `Cycles.FewExtremaNoCycles` | time_series_utils.py:87-94 | with fewer than two extrema no cycle is complete |
| `Cycles.CompleteCyclesSpan` | time_series_utils.py:76-94 | the complete cycles of any signal are those of its extrema, one per extremum but the last two |
| `Cycles.CycleDurationsNonNegative` | time_series_utils.py:87 | in a time-ordered signal every cycle duration is >= 0 |
| `Cycles.CycleCountIsLength` | time_series_utils.py:94 | there are m - 2 complete cycles for m >= 2 extrema, else none |
| `Cycles.CompleteCyclesWellFormed` | time_series_utils.py:86-91 | every complete cycle has amplitude >= 0 and `local_max - local_min` equal to it |
| `Cycles.NRankedCycles` | time_series_utils.py:94-97 | definition of `N_ranked_cycles`: sort the complete cycles by amplitude and take `head(N)`; properties in `RankedCycles`, `RankedCyclesWellFormed`, `AllCyclesWhenFew`, `NegativeCycleCount` |
| `Cycles.LargestFirst` | time_series_utils.py:94-95 | sorting by amplitude descending and taking N: no cycle left out is larger than one kept |
| `Cycles.SmallestFirst` | time_series_utils.py:94-95 | sorting ascending and taking N: no cycle left out is smaller than one kept |
| `Cycles.RankedCycles` | time_series_utils.py:94-97 | min(N, cycles) cycles, drawn from the complete cycles, ordered by amplitude in the requested direction, none left out beating one returned |
| `Cycles.RankedCyclesWellFormed` | time_series_utils.py:86-97 | every returned cycle is complete, with amplitude >= 0 equal to max - min, and duration >= 0 for time-ordered samples |
| `Cycles.AllCyclesWhenFew` | time_series_utils.py:94-95 | asking for at least as many cycles as exist returns all of them |
| `Cycles.NegativeCycleCount` | time_series_utils.py:94-95 | `head(N)` for negative N equals asking for all but the last -N cycles |
| `Cycles.AtMostTwoExtrema` | time_series_utils.py:81-83 | a signal with no interior extremum has at most two extrema |
| `Cycles.MonotoneHasNoCycles` | time_series_utils.py:76-97 | a monotone signal has no complete cycle and returns an empty table |
| `Cycles.ExampleCollapse` | time_series_utils.py:76-78 | the signal 1,1,1,2,2,2,1,1,1,5,5 collapses to its change points at samples 0, 3, 6 and 9 |
| `Cycles.ExampleExtrema` | time_series_utils.py:81-83 | the change points 1, 2, 1, 5 are all extrema: minima at 1, maxima at 2 and 5 |
| `Cycles.ExampleCycles` | time_series_utils.py:76-94 | that signal has exactly two complete cycles, both of amplitude 1, min 1, max 2 and duration 6 |
| `Cycles.CycleAmplitudeExample` | time_series_utils.py:76-97 | for that signal the largest complete cycle has amplitude 1, not 4: asking for one cycle returns amplitude 1, min 1, max 2 |
| `Outliers.Ascending` | outlier_detection.py:65-66 | the sorted copy a quantile reads: a permutation of the row, ascending |
| `Outliers.Quantile` | outlier_detection.py:65-66 | definition of pandas' linear `quantile(q)`, missing for an empty row; properties in `QuantileWithinRange`, `QuantileMonotone`, `QuantileOfConstant` |
| `Outliers.Position` | outlier_detection.py:65-66 | the virtual index q (n - 1) lies in [0, n - 1] |
| `Outliers.PositionMonotone` | outlier_detection.py:65-66 | a higher q gives a position no lower |
| `Outliers.Interpolate` | outlier_detection.py:65-66 | definition of the linear rule at a position; properties in `InterpolateBetween`, `InterpolateMonotone`, `InterpolateAtIndex` |
| `Outliers.InterpolateAtIndex` | outlier_detection.py:65-66 | at a whole position interpolation reads the value stored there |
| `Outliers.InterpolateBetween` | outlier_detection.py:65-66 | the interpolated value lies between the two values it interpolates |
| `Outliers.InterpolateMonotone` | outlier_detection.py:65-66 | on sorted values interpolation is monotone in the position |
| `Outliers.QuantileWithinRange` | outlier_detection.py:65-66 | a quantile of a non-empty row lies between two of its values |
| `Outliers.QuantileMonotone` | outlier_detection.py:65-67 | Q1 <= Q3, so the IQR is never negative |
| `Outliers.FencesOf` | outlier_detection.py:67-70 | definition of the bounds given the quartiles: IQR = Q3 - Q1, lower Q1 - 1.5 IQR, upper Q3 + 1.5 IQR; properties in `FencesEncloseQuartiles`, `ConstantRowHasNoOutliers`, `ExampleQuartiles` |
| `Outliers.TukeyFences` | outlier_detection.py:65-70 | definition of the bounds Q1 - 1.5 IQR and Q3 + 1.5 IQR, missing for an empty row; properties in `FencesEncloseQuartiles` |
| `Outliers.FencesEncloseQuartiles` | outlier_detection.py:65-70 | lower fence <= Q1 <= Q3 <= upper fence |
| `Outliers.FlaggedUnits` | outlier_detection.py:72 | definition of the `.loc[...].index` selection: the units whose value lies strictly outside the fences; properties in `FlaggedIffOutside` |
| `Outliers.MetricOutliers` | outlier_detection.py:63-72 | definition of one metric's outliers; properties in `FlaggedIffOutside`, `QuartileRangeNeverFlagged`, `ConstantRowHasNoOutliers` |
| `Outliers.FlaggedIffOutside` | outlier_detection.py:72 | with distinct unit names, a unit is flagged for a metric exactly when its value is strictly outside the fences |
| `Outliers.QuartileRangeNeverFlagged` | outlier_detection.py:65-72 | a value within [Q1, Q3] is never flagged |
| `Outliers.QuantileOfConstant` | outlier_detection.py:65-66 | every quantile of a constant row is that constant |
| `Outliers.ConstantRowHasNoOutliers` | outlier_detection.py:63-72 | a constant metric has IQR 0, both fences at the constant, and no outliers |
| `Outliers.UnionOf` | outlier_detection.py:58-73 | definition of `combined_outliers`: the union over the requested metrics; properties in `UnionMembership`, `UnionWithinUnits`, `UnionMonotone`, and the loop `IdentifyOutliers` is proved against it |
| `Outliers.UnionStep` | outlier_detection.py:62-73 | each loop step adds exactly that metric's outliers to the union |
| `Outliers.UnionMembership` | outlier_detection.py:58-79 | a unit is in the result exactly when some requested metric flags it |
| `Outliers.UnionWithinUnits` | outlier_detection.py:72-73 | only units of the table are ever returned |
| `Outliers.UnionMonotone` | outlier_detection.py:58-79 | requesting more metrics never removes an outlier |
| `Outliers.IdentifyOutliers` | outlier_detection.py:58-79 | the loop returns the union of every metric's outliers when all metrics have rows; otherwise it fails with the first metric that has none |
| `Outliers.AscendingUnique` | outlier_detection.py:65-66 | two ascending sequences with the same elements are equal, so the sorted copy is determined by the row |
| `Outliers.ExampleQuartiles` | outlier_detection.py:65-70 | the row 10, 11, 9, 10.5, 50 has Q1 = 10, Q3 = 11 and fences 8.5 and 12.5 |
| `Outliers.FiveUnitExample` | outlier_detection.py:63-72 | over that row only the fifth unit, with value 50, is flagged |

## Left out

- Reading the CSV files and building the summary table: `construct_summary_stats` and `pd.read_csv` are not part of this model. `IdentifyOutliers` takes the finished table as a parameter, with one row per metric and one value per unit (`Aligned`).
- The `print` calls of `identify_outliers` and the `example_*` and `__main__` drivers: they only print.
- `pd.to_datetime` parsing: timestamps arrive already parsed, as integer nanoseconds.
- The extra columns the functions write into the caller's DataFrame (`timestamp_utc`, `time_elapsed`, `prev_sig_value`): these side effects on the argument are not modelled.
- NaN sample values and NaN summary cells: values are reals. pandas would skip NaN in quantiles and never flag it, and a NaN signal value breaks the run collapse.
- Floating-point rounding: quantiles, fences and amplitudes are computed over exact reals.
- `Durations.LongestN`, `Durations.ShortestN`: pandas' default `sort_values` is not stable. The model sorts stably, so it fixes one order among equal total times; the lemmas promise no order among ties. The same holds for `Cycles.RankedCycles` and equal amplitudes.
- `Outliers.Quantile` is only defined for 0 <= q <= 1; the code only asks for 0.25 and 0.75.
- The docstring and printed banner of `identify_outliers` name the upper bound as the "7th %ile"; the code uses the 75th percentile, and so does the model.
