# Population summary, historical series and projection — a Dafny model

This project models the numeric core of a small demographic pipeline for the
state of Jalisco and two of its sub-regions: the Guadalajara metropolitan
zone (ZMG) and the city of Guadalajara (GDL). The pipeline has two scripts.

`Proyecto/src/scripts/abstract.py` summarises three prepared source tables (2015, 2020, 2025):

- `aplicar_filtros` is a declarative row filter: no filter, list membership, or scalar equality.
- The three `generar_resumen_*` functions give one row per configured region. Each row holds the adult male and female sums and their percentage shares, rounded to one decimal.
- `calcular_tasa_crecimiento` is a guarded growth rate.
- `calcular_indices_demograficos` sorts the summary by (region, year) and derives three columns: a growth rate against the region's previous row, the density relative to Jalisco in the same year, and the femininity index.

`Proyecto/src/scripts/aggregate_analysis.py` turns the summary into a series:

- `load_and_clean_master` drops incomplete rows and global z-score outliers.
- `build_historical` reindexes every region onto 2015..2025. It linearly interpolates the three counts and rounds them.
- `project_to_2035` fits one least-squares line per (region, metric) and rounds its values at 2026..2035. It also reports the in-sample R² and MSE.
- `logistic_majority_gender` labels strict male majorities, thresholds regression scores at 0.5 and computes accuracy.

Modules, one concept each:

| module | file | models |
|---|---|---|
| `Wrappers` | wrappers.dfy | `Option`, `Result` |
| `Numeric` | numeric.dfy | rounding to an integer and to one decimal; lexicographic string order (the `groupby` / `sort_values` order) |
| `Filters` | filters.dfy | `aplicar_filtros` over a table of integer cells |
| `Summary` | summary.dfy | the three `generar_resumen_*` functions, the region configurations and the source columns |
| `Indicators` | indicators.dfy | `calcular_tasa_crecimiento`, `calcular_indices_demograficos` |
| `Sequences` | sequences.dfy | order-preserving subsequences and small facts about concatenation |
| `Series` | series.dfy | the (region, year, total, male, female) rows and the sorted distinct regions of a table |
| `Cleaning` | cleaning.dfy | `load_and_clean_master` after the read |
| `Historical` | historical.dfy | `build_historical` |
| `Projection` | projection.dfy | `project_to_2035` |
| `Majority` | majority.dfy | the label, threshold and accuracy of `logistic_majority_gender` |

The imperative parts of the scripts are methods with loops. Each such method
is proved equal to a reference function:

- `ApplyFilters` narrows `sub` one condition at a time.
- `Summarize` appends one row per region.
- `ComputeIndices` walks the sorted rows once.
- `BuildHistorical` and `ProjectTo2035` append one region frame at a time.

The properties are proved about those functions.

Conventions:

- A pandas division by zero gives NaN or inf. Here it is `None`.
- A pandas `KeyError`, or a missing baseline year, is a `Failure`.
- Training points are (year, value) pairs of reals. Squares and products in the least-squares sums are written with the named functions `Numeric.Sq` and `Numeric.Prod`.
- Rounding is half-up (`RoundInt(x) = floor(x + 1/2)`). Python's `round` sends exact halves to the even neighbour instead. The two agree on every other value, and the properties proved about `RoundInt` (the half-unit bound, integers unchanged, order kept) hold for both.

## Model

| member | source | states |
|---|---|---|
| Filters.ApplyFilters | Proyecto/src/scripts/abstract.py:55-65 | Fails with the first filtered column (in dictionary order) the table lacks; `None` filters never fail. Otherwise returns the same schema with exactly the rows satisfying every condition, in input order. |
| Filters.FirstUnknownColumn | Proyecto/src/scripts/abstract.py:58-64 | `None` iff no non-`None` condition names a missing column; otherwise the column of the first such condition. |
| Filters.KeepMatchingIsSubsequence | Proyecto/src/scripts/abstract.py:57-65 | The filtered rows are an order-preserving subsequence of the input, so never more rows. |
| Filters.KeepMatchingMembers | Proyecto/src/scripts/abstract.py:58-64 | A row is kept iff it is an input row satisfying every condition (AND of the conditions). |
| Filters.KeepMatchingCounts | Proyecto/src/scripts/abstract.py:57-65 | A row satisfying every condition occurs in the output exactly as often as in the input, and any other row not at all. |
| Filters.KeepMatchingValid | Proyecto/src/scripts/abstract.py:57-65 | The filtered table keeps the input schema in every row. |
| Filters.KeepMatchingEmptySpec | Proyecto/src/scripts/abstract.py:57-65 | An empty filter dictionary keeps every row. |
| Filters.SelectNoFilter | Proyecto/src/scripts/abstract.py:59-60 | Narrowing by a `None` condition returns the rows unchanged. |
| Filters.KeepMatchingSnoc | Proyecto/src/scripts/abstract.py:57-65 | Filtering by one more condition narrows the previous result by that condition, as the loop does. |
| Filters.NoFilterKeepsAll | Proyecto/src/scripts/abstract.py:59-60 | A condition whose value is `None` leaves the result unchanged. |
| Filters.OneOfKeepsMembers | Proyecto/src/scripts/abstract.py:61-62 | A list value keeps exactly the rows whose column value is in the list. |
| Filters.EqualsKeepsEqual | Proyecto/src/scripts/abstract.py:63-64 | A scalar value keeps exactly the rows whose column equals it. |
| Indicators.GrowthRate | Proyecto/src/scripts/abstract.py:67-71 | 0.0 when the initial value is 0; otherwise applying the rate to the initial value gives back the final value. |
| Indicators.GrowthRateSign | Proyecto/src/scripts/abstract.py:67-71 | For a positive initial value the rate is positive, zero or negative exactly when the value grows, stays or falls. |
| Summary.Share | Proyecto/src/scripts/abstract.py:87-88 | `None` iff the denominator is zero; otherwise within 0.05 of `part / whole * 100`. |
| Summary.FirstMissing | Proyecto/src/scripts/abstract.py:84-85 | `None` iff every summed column exists; otherwise the first missing one in read order, the column whose read raises the KeyError. |
| Summary.Summarize | Proyecto/src/scripts/abstract.py:78-100 | One row per configured region, in configuration order, named after it and tagged with the source year, each equal to the region's reference summary; otherwise the error of the first failing region. |
| Summary.GenerateSummary2015 | Proyecto/src/scripts/abstract.py:73-100 | Three rows (Jalisco, ZMG, GDL) for 2015 with the 2015 filters and columns; otherwise the error of the first region that fails. |
| Summary.GenerateSummary2020 | Proyecto/src/scripts/abstract.py:102-133 | Fails when the table lacks `entidad`; otherwise the three 2020 rows computed on the rows with `entidad == 14`, with the `p_18ymas` sum as denominator, or the error of the first region that fails. |
| Summary.GenerateSummary2025 | Proyecto/src/scripts/abstract.py:135-163 | Three rows (Jalisco, ZMG, GDL) for 2025 with the 2025 filters and columns; otherwise the error of the first region that fails. |
| Summary.ColumnSumNonNegative | Proyecto/src/scripts/abstract.py:84-85 | The sum of a column of non-negative counts is non-negative. |
| Summary.SharesOfSum | Proyecto/src/scripts/abstract.py:84-88 | With a positive male plus female sum, both unrounded shares lie in [0, 100] and add up to exactly 100. |
| Summary.AdultSumSummary | Proyecto/src/scripts/abstract.py:84-97 | In 2015 and 2025 the total is the male plus female sum. Both shares are missing iff that sum is 0. Otherwise the rounded shares lie in [0, 100] and add up to 100 within 0.1. |
| Summary.StateTotalSharesNeedNotSum | Proyecto/src/scripts/abstract.py:110-130 | With the 2020 layout the shares divide by the `p_18ymas` sum: a state table with 50 men, 50 women and 200 adults gives Jalisco a row with shares 25.0 and 25.0, which do not add up to 100. |
| Summary.NestedRegionSum | Proyecto/src/scripts/abstract.py:81-85 | A region whose kept rows all pass a wider filter sums to no more than the wider one. |
| Summary.GdlWithinZmg | Proyecto/src/scripts/abstract.py:18-28 | GDL's districts lie among ZMG's, so GDL's adult counts never exceed ZMG's. |
| Summary.ShareExample | Proyecto/src/scripts/abstract.py:84-97 | 600 men and 400 women give shares of 60.0 and 40.0. |
| Indicators.SortByRegionYear | Proyecto/src/scripts/abstract.py:179 | Sorted by (region, year) and a permutation of the input. |
| Indicators.SortStable | Proyecto/src/scripts/abstract.py:179 | The sort is stable, as pandas' sort on two columns is: the rows sharing a (region, year) keep their input order. |
| Indicators.InsertWithKey | Proyecto/src/scripts/abstract.py:179 | Inserting a row puts it after every row already there with the same (region, year). |
| Indicators.TiedRowsKeepOrder | Proyecto/src/scripts/abstract.py:179-190 | Two Jalisco 2015 rows with totals 10 then 20 stay in that order, so the 2015 baseline is 10 and the second row's growth is 100.0. |
| Indicators.Insert | Proyecto/src/scripts/abstract.py:179 | Inserting into rows sorted by (region, year) keeps them sorted and adds exactly that row. |
| Indicators.LastTotalBefore | Proyecto/src/scripts/abstract.py:182 | `None` iff no earlier row has the region; otherwise the total of the nearest earlier row of that region. |
| Indicators.BaselineTotal | Proyecto/src/scripts/abstract.py:190 | Defined iff some Jalisco row has that year, and then it is the total of the first such row, as `first()` takes. |
| Indicators.ComputeIndices | Proyecto/src/scripts/abstract.py:165-205 | Succeeds iff every non-Jalisco row's year has a Jalisco row and some region has at least two rows. A year without a Jalisco row fails first, naming such a year, as the density at line 190 comes before the rounding at line 201. Otherwise, when no region repeats, every growth is missing and rounding that column fails. On success, one output row per sorted input row (fields unchanged, no helper column). Each output row holds the growth against the previous row of its region, a density of 100.0 for Jalisco and of total / Jalisco total * 100 for the others, and the femininity index, all rounded to one decimal. |
| Indicators.GrowthDefinedIffRepeats | Proyecto/src/scripts/abstract.py:182-187 | Some row gets a growth exactly when some region has two rows. |
| Indicators.RepeatsPermutation | Proyecto/src/scripts/abstract.py:179-182 | Sorting does not change whether some region has two rows. |
| Indicators.RowIndicators | Proyecto/src/scripts/abstract.py:183-203 | One row succeeds iff it is a Jalisco row or its year has a Jalisco row; then its indicators are the reference ones, otherwise the error names its year. |
| Indicators.NoBaselineWitness | Proyecto/src/scripts/abstract.py:190-194 | A sorted row lacking its Jalisco baseline comes from an input row lacking it too, so the input does not have a baseline for every year. |
| Indicators.SameBaselines | Proyecto/src/scripts/abstract.py:179-190 | Sorting does not change which years have a Jalisco row. |
| Indicators.PreviousIsAdjacent | Proyecto/src/scripts/abstract.py:179-182 | In the sorted rows, the previous row of the same region is the adjacent row whenever it has the same region. |
| Indicators.GrowthUndefinedExactlyAtFirstRow | Proyecto/src/scripts/abstract.py:182-187 | The growth is missing exactly at the first row of each region. |
| Indicators.GrowthAcrossGap | Proyecto/src/scripts/abstract.py:182-184 | Growth compares with the previous observed year, not year - 1: 1000 in 2015 and 1200 in 2025, with nothing between, give 20.0. |
| Indicators.GrowthFromZero | Proyecto/src/scripts/abstract.py:69-70 | A zero previous total gives a growth of 0.0. |
| Indicators.FemininityExample | Proyecto/src/scripts/abstract.py:198-203 | 600 men and 400 women give a femininity index of 66.7. |
| Numeric.RoundInt | Proyecto/src/scripts/aggregate_analysis.py:42 | The rounded integer lies within half a unit of its argument. |
| Numeric.RoundTenth | Proyecto/src/scripts/abstract.py:96-97 | Rounding to one decimal moves the value by at most 0.05. |
| Numeric.RoundIntExact | Proyecto/src/scripts/aggregate_analysis.py:42 | Rounding leaves an integer unchanged. |
| Numeric.RoundIntMonotone | Proyecto/src/scripts/aggregate_analysis.py:42 | Rounding preserves order. |
| Numeric.RoundTenthPercent | Proyecto/src/scripts/abstract.py:96-97 | A percentage in [0, 100] stays in [0, 100] once rounded to one decimal. |
| Series.Regions | Proyecto/src/scripts/aggregate_analysis.py:31 | The `groupby` keys: strictly ascending, and exactly the regions present. |
| Series.StrictlySortedUnique | Proyecto/src/scripts/aggregate_analysis.py:31 | Two strictly ascending key lists with the same members are equal, so the `groupby` order is unique. |
| Cleaning.DropIncomplete | Proyecto/src/scripts/aggregate_analysis.py:20 | Never longer than the input; a row is kept iff it comes from an input row with all three counts. |
| Cleaning.DropIncompleteCounts | Proyecto/src/scripts/aggregate_analysis.py:20 | Every copy of a complete input row is kept, duplicates included. |
| Cleaning.DropIncompleteAppend | Proyecto/src/scripts/aggregate_analysis.py:20 | The kept rows keep their input order: those from an earlier part of the table come first. |
| Cleaning.Variance | Proyecto/src/scripts/aggregate_analysis.py:22 | The population variance of the totals is non-negative. |
| Cleaning.SumSquaredDeviations | Proyecto/src/scripts/aggregate_analysis.py:22 | The sum of squared deviations from the mean is non-negative. |
| Cleaning.NoInliersWithoutSpread | Proyecto/src/scripts/aggregate_analysis.py:22-23 | With zero variance no row is kept. |
| Cleaning.KeepInliersCounts | Proyecto/src/scripts/aggregate_analysis.py:22-23 | The z-score mask keeps every copy of an inlier and no copy of any other row. |
| Cleaning.KeepInliersIsSubsequence | Proyecto/src/scripts/aggregate_analysis.py:23 | The z-score mask keeps the surviving rows in their order. |
| Cleaning.KeepInliersMembers | Proyecto/src/scripts/aggregate_analysis.py:22-23 | A row survives iff it is an input row whose squared deviation is below 9 variances (and the variance is positive). |
| Cleaning.CleanedRows | Proyecto/src/scripts/aggregate_analysis.py:20-26 | The cleaned table is never longer than the input. A row is in it iff it comes from a complete row whose total is within three standard deviations of the mean of all complete rows (one global mean, not per region). |
| Cleaning.CleanedCounts | Proyecto/src/scripts/aggregate_analysis.py:20-26 | The cleaned table holds every copy of a complete input row whose total is an inlier of all complete rows, and nothing else. |
| Cleaning.CleanedOrder | Proyecto/src/scripts/aggregate_analysis.py:20-26 | The cleaned rows are an order-preserving subsequence of the complete rows. |
| Cleaning.ConstantTotalsEmptyTable | Proyecto/src/scripts/aggregate_analysis.py:22-23 | When all complete totals are equal (e.g. a single row), every z-score is NaN and no row survives. |
| Historical.Observations | Proyecto/src/scripts/aggregate_analysis.py:33-34 | The reindexed observations are exactly the region's years inside 2015..2025. |
| Historical.LastObservedAtOrBefore | Proyecto/src/scripts/aggregate_analysis.py:37 | The nearest observed year at or before `y`. |
| Historical.NextObservedFrom | Proyecto/src/scripts/aggregate_analysis.py:37 | The nearest observed year from `k` on, or none up to 2025. |
| Historical.Interpolate | Proyecto/src/scripts/aggregate_analysis.py:37 | An observed year keeps its value. |
| Historical.Frame | Proyecto/src/scripts/aggregate_analysis.py:33-43 | A region's frame has 11 rows, one per year 2015..2025, each with its filled counts. |
| Historical.FrameValue | Proyecto/src/scripts/aggregate_analysis.py:34-42 | Each metric of row j of a frame is the filled observation of year 2015 + j, and 2015 is observed. |
| Historical.HistoricalOfAt | Proyecto/src/scripts/aggregate_analysis.py:43-44 | Row 11k + j of the concatenated frames is row j of the k-th region's frame. |
| Historical.BuildHistorical | Proyecto/src/scripts/aggregate_analysis.py:29-44 | The loop's output equals the reference table: every region's frame, concatenated in `groupby` order. |
| Historical.ElevenRowsPerRegion | Proyecto/src/scripts/aggregate_analysis.py:31-44 | 11 rows per region. Row i belongs to region i / 11 with year 2015 + i % 11, so the years ascend and each region's rows are one contiguous block. |
| Historical.ObservedYearsKeepValues | Proyecto/src/scripts/aggregate_analysis.py:34-42 | An observed year keeps its observed counts in the historical table. |
| Historical.TrailingGapRepeatsLast | Proyecto/src/scripts/aggregate_analysis.py:37 | After the last observation, the last observed value is repeated. |
| Historical.GapBetweenNeighbours | Proyecto/src/scripts/aggregate_analysis.py:37 | A value between two observations lies between them. |
| Historical.LerpBetween | Proyecto/src/scripts/aggregate_analysis.py:37 | A linear interpolation at a fraction in [0, 1] lies between its two end values. |
| Historical.ScaledBetween | Proyecto/src/scripts/aggregate_analysis.py:37 | A difference scaled by a fraction in [0, 1] lies between 0 and the difference. |
| Historical.MidpointExample | Proyecto/src/scripts/aggregate_analysis.py:36-42 | 1000 in 2015 and 1200 in 2025 give exactly 1100 in 2020. |
| Historical.FullyObservedUnchanged | Proyecto/src/scripts/aggregate_analysis.py:34-42 | A series observed in all 11 years is returned unchanged. |
| Historical.HistoricalReady | Proyecto/src/scripts/aggregate_analysis.py:29-44 | The built table again has one row per (region, year) and 2015 for every region. |
| Historical.HistoricalRegions | Proyecto/src/scripts/aggregate_analysis.py:31-39 | The built table has exactly the input's regions. |
| Historical.HistoricalIdempotent | Proyecto/src/scripts/aggregate_analysis.py:29-44 | Rebuilding the historical table from itself changes nothing. |
| Historical.FrameRebuilt | Proyecto/src/scripts/aggregate_analysis.py:31-43 | Rebuilding a region's frame from the historical table gives the same frame. |
| Projection.Points | Proyecto/src/scripts/aggregate_analysis.py:50-55 | A region's training points are non-empty iff the region occurs. |
| Projection.SxxNonNegative | Proyecto/src/scripts/aggregate_analysis.py:56 | The spread of the years about any centre is non-negative. |
| Projection.SStotNonNegative | Proyecto/src/scripts/aggregate_analysis.py:59 | The total sum of squares about any centre is non-negative. |
| Projection.SSresNonNegative | Proyecto/src/scripts/aggregate_analysis.py:59-60 | The residual sum of squares of any line is non-negative. |
| Projection.Mse | Proyecto/src/scripts/aggregate_analysis.py:60 | The in-sample MSE is non-negative. |
| Projection.R2 | Proyecto/src/scripts/aggregate_analysis.py:59 | Undefined iff the values are constant; otherwise at most 1. |
| Projection.ProjectedFrame | Proyecto/src/scripts/aggregate_analysis.py:52-58 | 10 rows for 2026..2035, each the rounded prediction of the region's three lines. |
| Projection.ProjectTo2035 | Proyecto/src/scripts/aggregate_analysis.py:47-64 | The loop's output equals the reference projection and diagnostics: each region's 10 rows, and its three fits with R² and MSE, in `groupby` order. |
| Projection.ProjectRegion | Proyecto/src/scripts/aggregate_analysis.py:50-63 | One region's 10 rows and three diagnostics, as in the reference. |
| Projection.PrefixStep | Proyecto/src/scripts/aggregate_analysis.py:50-64 | Appending one more region to the processed prefix appends exactly that region's rows and diagnostics. |
| Projection.TenRowsPerRegion | Proyecto/src/scripts/aggregate_analysis.py:50-64 | 10 rows per region. Row i is region i / 10, year 2026 + i % 10, and each metric is the rounded prediction of that region's own line; each region's rows are one contiguous block. |
| Projection.ResidualSumIs | Proyecto/src/scripts/aggregate_analysis.py:59-60 | The residual sum of a line in terms of the sums of years and values. |
| Projection.FitResidualsSumToZero | Proyecto/src/scripts/aggregate_analysis.py:56-60 | The residuals of the fitted line on its training points sum to zero. |
| Projection.FitThroughMeans | Proyecto/src/scripts/aggregate_analysis.py:56 | The fitted line passes through (mean year, mean value). |
| Projection.FitIntercept | Proyecto/src/scripts/aggregate_analysis.py:56 | The fitted intercept is the mean value minus slope times the mean year. |
| Projection.FitSlope | Proyecto/src/scripts/aggregate_analysis.py:56 | The fitted slope is the covariance over the spread of the years, and 0 when all years are equal. |
| Projection.NormalEquation | Proyecto/src/scripts/aggregate_analysis.py:56 | The fitted slope solves the normal equation: slope times spread equals covariance. |
| Projection.ResidualsCancelThroughMeans | Proyecto/src/scripts/aggregate_analysis.py:56-60 | Any line through (mean year, mean value) has residuals summing to zero. |
| Projection.ZeroSpreadNoCovariance | Proyecto/src/scripts/aggregate_analysis.py:56 | When the years have no spread, the covariance is zero too. |
| Projection.FitIsLeastSquares | Proyecto/src/scripts/aggregate_analysis.py:56 | The fitted line passes through the means and solves the normal equation. |
| Projection.ConstantHistoryProjectsConstant | Proyecto/src/scripts/aggregate_analysis.py:55-57 | A constant history has slope 0, and every rounded prediction is the constant. |
| Projection.LinearHistoryFit | Proyecto/src/scripts/aggregate_analysis.py:55-56 | A history lying exactly on a line, with two distinct years, is fitted by that very line. |
| Projection.RoundedOnLine | Proyecto/src/scripts/aggregate_analysis.py:57 | The rounded prediction of a line lies within half a unit of it. |
| Projection.SxxAtLeastTerm | Proyecto/src/scripts/aggregate_analysis.py:56 | The spread of the years is at least the contribution of each single year. |
| Projection.SxxPositive | Proyecto/src/scripts/aggregate_analysis.py:51-56 | Two distinct training years make the spread positive, so the slope is a true quotient. |
| Projection.SquaresDecompose | Proyecto/src/scripts/aggregate_analysis.py:59 | The total sum of squares splits into the residual part, the cross term and the slope part. |
| Projection.CrossIs | Proyecto/src/scripts/aggregate_analysis.py:59 | The cross term equals 2 * slope * covariance - slope² * spread. |
| Projection.LeastSquaresBelowTotal | Proyecto/src/scripts/aggregate_analysis.py:59-60 | Any line through the means solving the normal equation has residual sum of squares at most the total. |
| Projection.FitResidualsBelowTotal | Proyecto/src/scripts/aggregate_analysis.py:59-60 | For the least-squares line the residual sum of squares never exceeds the total. |
| Projection.R2InUnitInterval | Proyecto/src/scripts/aggregate_analysis.py:59 | The in-sample R² of the fitted line lies in [0, 1]. |
| Projection.HistoricalTrainingSet | Proyecto/src/scripts/aggregate_analysis.py:50-56 | Each region of a built historical table is trained on exactly its 11 yearly rows, so the year spread is positive. |
| Projection.PointsOfHistoricalOf | Proyecto/src/scripts/aggregate_analysis.py:50-55 | A region's points in the concatenated frames are those of its own frame only. |
| Projection.ConstantRegionProjectsConstant | Proyecto/src/scripts/aggregate_analysis.py:50-58 | A region with a constant historical metric gets slope 0 and that constant in every projected year. |
| Projection.PointsFlat | Proyecto/src/scripts/aggregate_analysis.py:50-55 | A region whose metric is constant in the table has constant training points. |
| Projection.LinearRegionExtendsExactly | Proyecto/src/scripts/aggregate_analysis.py:50-58 | A region whose historical metric lies on `a + b * year` is fitted by that line, and every projection is within half a unit of it. |
| Projection.PointsOnLine | Proyecto/src/scripts/aggregate_analysis.py:50-55 | A region whose metric lies on a line in the table has training points on that line. |
| Projection.MeanOfLinear | Proyecto/src/scripts/aggregate_analysis.py:56 | For points on a line, the mean value is the line at the mean year. |
| Projection.SxyOfLinear | Proyecto/src/scripts/aggregate_analysis.py:56 | For points on a line, the covariance is the slope times the spread of the years. |
| Projection.LinearRowsExtend | Proyecto/src/scripts/aggregate_analysis.py:55-57 | A region on a line with positive year spread is fitted by that line, and every rounded prediction lies within half a unit of it. |
| Majority.MajorityLabel | Proyecto/src/scripts/aggregate_analysis.py:69 | The label is 0 or 1, and it is 1 iff men strictly outnumber women. |
| Majority.Labels | Proyecto/src/scripts/aggregate_analysis.py:69 | One label per row. |
| Majority.PredictedClass | Proyecto/src/scripts/aggregate_analysis.py:77 | The class is 0 or 1, and it is 1 iff the score is at least 0.5. |
| Majority.Predictions | Proyecto/src/scripts/aggregate_analysis.py:77 | One class per score. |
| Majority.Matches | Proyecto/src/scripts/aggregate_analysis.py:78 | The number of matches never exceeds the test size. |
| Majority.Accuracy | Proyecto/src/scripts/aggregate_analysis.py:78 | Undefined iff the test set is empty; otherwise in [0, 1]. |
| Majority.TieIsNotMajority | Proyecto/src/scripts/aggregate_analysis.py:69 | A tie is labelled 0. |
| Majority.MatchesAppend | Proyecto/src/scripts/aggregate_analysis.py:78 | Matches of concatenated test sets add up. |
| Majority.MatchesAll | Proyecto/src/scripts/aggregate_analysis.py:78 | The count equals the test size iff every prediction matches. |
| Majority.MatchesNone | Proyecto/src/scripts/aggregate_analysis.py:78 | The count is zero iff no prediction matches. |
| Majority.PerfectAccuracy | Proyecto/src/scripts/aggregate_analysis.py:78 | Accuracy is 1 iff every prediction is right. |
| Majority.ZeroAccuracy | Proyecto/src/scripts/aggregate_analysis.py:78 | Accuracy is 0 iff every prediction is wrong. |
| Majority.ThresholdKeepsLabels | Proyecto/src/scripts/aggregate_analysis.py:77 | A score of exactly 0 or 1 is classified as itself. |
| Majority.ExactScoresArePerfect | Proyecto/src/scripts/aggregate_analysis.py:69-78 | Scores equal to the labels give accuracy 1 on any non-empty test set. |

## Where the code and the design description differ

The model follows the code.

- Growth rate: the design describes it as a change from year - 1. The code compares with the previous row of the same region after sorting, which in the summary is the previous observed year (2015 to 2020 to 2025). `Indicators.GrowthAcrossGap` states this.
- Indicators: the design applies them to the historical plus projected series. The code applies them to the concatenated 2015/2020/2025 summary.
- Zero denominators: the design asks for a per-row policy. The code divides unguarded, giving NaN or inf per row, except for a growth from zero, which gives 0.0. The model keeps the per-row behaviour as `None`. A year with no Jalisco row, however, makes the code raise a `KeyError` for the whole batch, and that is modelled as a `Failure`.
- 2020 shares: their denominator is the `p_18ymas` sum, not the male plus female sum.
- Regions with one observation: the design asks that a region with fewer than two observations be flagged. The code fills the trailing years flat with the last value (`Historical.TrailingGapRepeatsLast`).
- Outlier filter: when every total is equal, the standard deviation is 0 and the filter drops every row (`Cleaning.ConstantTotalsEmptyTable`).

## Left out

- Reading and writing files: every table is a parameter. This covers the CSV reads in `abstract.py` and `aggregate_analysis.py`, the summary file `resumen_final.csv` and the report `generar_informe_analitico`.
- The `main` functions and console output.
- `plot_series`, and the whole of `Proyecto/src/scripts/graph_analysis.py`: chart rendering only.
- `Proyecto/src/scripts/explorer_analysis.py` and `Proyecto/src/scripts/cleaner.py`: pandas wrappers, renaming, CSV I/O and argument parsing.
- `Proyecto/src/config/settings.py` is not part of this model. It holds paths, and its region dictionary duplicates the configurations written out in `Summary`.
- The random 80/20 split and the multivariate regression of `logistic_majority_gender`: library RNG and solver. The test rows and their scores are inputs to `Majority.MajorityAccuracy`, whose properties are stated by `Majority.Accuracy` and the lemmas about it.
- Projection.R2: sklearn's value for a constant series is a library convention. The model leaves R² undefined there.
- Numeric.RoundInt: Python rounds binary floats half to even. The model rounds exact reals half up, so a value exactly halfway between two integers may round the other way.
- Floating point in general: all arithmetic is on exact reals and unbounded integers. NaN and inf become `None`.
- Historical.BuildHistorical: years before a region's first observation stay empty in pandas, and the integer cast then fails. Every region is therefore required to be observed in 2015 with at most one row per year, so that failure is not modelled.
- Indicators.ComputeIndices: the Failure names some year lacking a Jalisco row, the first one met in sorted order. It does not model which exception text pandas produces. An empty summary has no repeated region and fails with `NoGrowthColumn`; the model does not distinguish how pandas fails on an empty frame.
- Cell values are integers, and filters compare integers. Text-valued columns are not modelled.
- The other columns of the summary file are not carried through `load_and_clean_master`, `build_historical` and `project_to_2035`: `PORCENTAJE_HOMBRES`, `PORCENTAJE_MUJERES`, `TASA_CRECIMIENTO`, `DENSIDAD_RELATIVA` and `INDICE_FEMINIDAD`. A row there holds only the region, the year and the three counts. In the source these columns pass through cleaning, and `build_historical` keeps them, NaN in the filled years.
