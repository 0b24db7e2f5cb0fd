# City temperature analysis — a verified model

This project models the analysis engine of a dashboard for per-city daily temperature series. Each row of the data is `(city, timestamp, season, temperature)`. The model covers:

- **Rolling statistics** (`calculate_rolling_stats`): a trailing window of 30 values. Following pandas' default `min_periods = window`, the mean and the sample standard deviation (ddof = 1) are missing at every index before `window - 1`.
- **Anomaly filter** (`detect_anomalies`): the rows strictly outside `mean ± 2·std`, kept in row order, together with both bounds. A comparison against a missing bound is false.
- **Groupings**: by calendar year (the table `analyze_long_term_trend` feeds to its regression) and by (season label, year) in `analyze_city_data`. Each produces one row per distinct key, in pandas' sorted key order. The yearly table carries the mean and the std; the seasonal table carries the mean, the std and the count.
- **The per-city analysis** (`analyze_city_data`), including the `month` column it adds to its argument in place.
- **The multi-city run** (`analyze_all_cities`, `analyze_city_data_for_city`). The table is split by distinct city and each slice is analysed, either by a dict comprehension or by a pool map whose `(city, report)` pairs are turned into a dict.
- **The live-reading check** (`get_current_season`, `check_current_temperature`). It filters the history by the current season's label, returns an error when nothing matches, and otherwise compares `|current - mean|` with `2·std`.

Dafny's reals have no square root, so every standard deviation is carried as its square, the sample variance. `Option` marks missing values: pandas gives NaN for fewer than two values. The band test is stated as `(t - mean)^2 > 4·variance`. `Stats.OutsideBandIffSquareExceeds` proves that this is the same as being strictly outside `[mean - 2s, mean + 2s]` for any `s >= 0` with `s·s == variance`. `AnomalyDetection.DetectAnomalies` keeps the source's signature, with the mean and std series as inputs, and `AnomalyDetection.StdAndVarianceDetectorsAgree` ties it to the variance-based filter that the city report uses.

Modules:

- `Maybe`: the `Option` type.
- `Records`: the row.
- `Stats`: sum, mean and sample variance.
- `RollingStatistics`: the window specification, plus the loop that computes it with a sliding sum.
- `Masks`: boolean-mask selection, the positions `data[mask]` keeps.
- `AnomalyDetection`
- `Grouping`: generic groupby, aggregation and `unique()`.
- `Ordering`: the key orders pandas sorts by, including Python's string order.
- `CityAnalysis`: the report, and the `CityFrame` class whose month column is added in place.
- `MultiCity`
- `CurrentTemperature`

The model raises no typed error for a trend over fewer than two years, because the code has none. Season labels in the history are free strings, compared with the label of the computed season.

## Model

| member | source | states |
|---|---|---|
| Stats.SampleVariance | services/analyze_city_data.py:17 | the sample variance (denominator n - 1) is defined exactly when there are at least two values, and is never negative |
| Stats.ConstantStatistics | services/analyze_city_data.py:16-17 | n equal values have that value as their mean, and sample variance 0 (missing for a single value) |
| Stats.OutsideBandIffSquareExceeds | services/analyze_city_data.py:25-28 | t > m + 2s or t < m - 2s holds exactly when (t - m)^2 > 4v, for s >= 0 with s·s = v |
| Stats.AbsDeviationIffSquareExceeds | services/check_current_temperature.py:40 | abs(t - m) > 2s holds exactly when (t - m)^2 > 4v, for s >= 0 with s·s = v |
| RollingStatistics.RollingShape | services/analyze_city_data.py:16-17 | both rolling series have one entry per input value; the mean is missing exactly at indices below window - 1; the variance is missing there too and, for a window of 1, everywhere; defined variances are >= 0 |
| RollingStatistics.RollingMeanIsWindowAverage | services/analyze_city_data.py:16 | a defined rolling mean at i is the sum of the values i - w + 1 .. i, in row order, divided by w |
| RollingStatistics.RollingIsCausal | services/analyze_city_data.py:16-17 | appending later values never changes an earlier entry of either rolling series (the window trails) |
| RollingStatistics.RollingConstant | services/analyze_city_data.py:16-17 | on a constant series every defined rolling mean is the constant and every defined rolling variance is 0 |
| RollingStatistics.WindowSumSqDev | services/analyze_city_data.py:17 | the loop's result is the sum of squared deviations of the window from the mean |
| RollingStatistics.CalculateRollingStats | services/analyze_city_data.py:12-18 | the sliding-sum loop returns exactly the specified rolling mean and rolling variance series |
| Masks.Positions | services/analyze_city_data.py:27-28 | a boolean mask selects, in strictly increasing order, exactly the row positions where it holds |
| AnomalyDetection.DetectAnomalies | services/analyze_city_data.py:21-29 | the anomalies are at most as many as the rows, and both bounds are aligned with the rows |
| AnomalyDetection.BoundsAroundMean | services/analyze_city_data.py:25-26 | upper = mean + 2·std and lower = mean - 2·std, defined exactly where mean and std both are; lower <= upper when std >= 0 |
| AnomalyDetection.AnomaliesAreRowsOutsideBand | services/analyze_city_data.py:27-28 | the anomalies are the input rows at strictly increasing positions, and a position is among them exactly when its temperature is strictly above its upper bound or strictly below its lower bound |
| AnomalyDetection.MissingBoundNeverFlags | services/analyze_city_data.py:27-28 | a row whose mean or std is missing is never an anomaly |
| AnomalyDetection.AnomaliesByVariance | services/analyze_city_data.py:27-28 | the variance-based filter keeps at most as many rows as it is given |
| AnomalyDetection.StdAndVarianceDetectorsAgree | services/analyze_city_data.py:21-29 | given as std the square roots of the variances, detect_anomalies returns exactly the rows the variance band test keeps |
| AnomalyDetection.NoDeviationNoAnomalies | services/analyze_city_data.py:25-28 | rows that sit on their defined mean are never flagged, since the comparisons are strict |
| Grouping.Select | services/analyze_city_data.py:38 | a key's group is non-empty exactly when some row has that key |
| Grouping.SelectIsMaskedValues | services/analyze_city_data.py:38 | a key's group is exactly the values of the rows the mask key == k selects, in row order |
| Grouping.Unique | services/analyze_city_data.py:102 | unique() holds each value of the column once, and no other value |
| Grouping.GroupByRows | services/analyze_city_data.py:38 | one output row per distinct key, none twice, no other; each holds the count (>= 1), mean and variance of exactly its key's values, in row order |
| Grouping.GroupBySorted | services/analyze_city_data.py:38 | under a strict total order the groups come out in ascending key order |
| Grouping.SelectionsPartition | services/analyze_city_data.py:114 | over duplicate-free keys covering every row, the group sizes add up to the number of rows |
| Grouping.GroupCountsCoverRows | services/analyze_city_data.py:78-80 | the count column adds up to the number of rows grouped |
| Ordering.YearLessIsStrictTotalOrder | services/analyze_city_data.py:38 | the year order is a strict total order |
| Ordering.LexLessTransitive | services/analyze_city_data.py:78 | Python's string order is transitive |
| Ordering.LexLessConnected | services/analyze_city_data.py:78 | any two different strings are ordered one way or the other |
| Ordering.SeasonYearLessIsStrictTotalOrder | services/analyze_city_data.py:78 | the (season label, year) tuple order is a strict total order |
| CityAnalysis.ReportAnomaliesMatchDetector | services/analyze_city_data.py:55-58 | the report's anomalies are what detect_anomalies returns on the rolling mean and the rolling std (any square roots of the rolling variances) |
| CityAnalysis.YearlyTrendsOnePerYear | services/analyze_city_data.py:36-38 | the yearly table has one row per calendar year present in the data, no other, in ascending year order |
| CityAnalysis.YearlyTrendsMeans | services/analyze_city_data.py:37-38 | each year's row holds the mean of exactly that year's temperatures; its group is never empty and the groups together cover every row (through the extra count column, see Left out) |
| CityAnalysis.TemperaturesInYearAreThatYears | services/analyze_city_data.py:37-38 | a year's group holds exactly the temperatures of that year's rows, in row order |
| CityAnalysis.SeasonalStatsOnePerSeasonYear | services/analyze_city_data.py:78-80 | one seasonal row per (season label, year) pair present in the data, no other, ordered by label then year |
| CityAnalysis.SeasonalStatsCounts | services/analyze_city_data.py:78-80 | no seasonal group is empty, and the counts add up to the number of rows |
| CityAnalysis.ConstantSeriesHasNoAnomalies | services/analyze_city_data.py:55-58 | a constant-temperature city has no anomalies |
| CityAnalysis.SpikeWindowStatistics | services/analyze_city_data.py:16-17 | a full window of 29 equal values c followed by c + d has mean c + d/30 and sample variance d²/30, and its last value is outside the band |
| CityAnalysis.SpikeFlaggedOnceWindowIsFull | services/analyze_city_data.py:55-58 | in an otherwise constant series one differing value is an anomaly exactly when its index has a full 30-value window behind it |
| CityAnalysis.CityFrame.AddMonthColumn | services/analyze_city_data.py:77 | the frame gains the month of each row's timestamp as a column; its rows are unchanged |
| CityAnalysis.CityFrame.AnalyzeCityData | services/analyze_city_data.py:47-95 | the step-by-step run returns the specified report of the rows it was given and leaves the frame with its rows unchanged and its month column added |
| MultiCity.DictOfLookup | services/analyze_city_data.py:111 | dict(pairs) holds exactly the keys of the pairs, each mapped to the value of its last pair |
| MultiCity.ParallelMatchesSequential | services/analyze_city_data.py:105-116 | dict of the pool's (city, report) list equals the dict comprehension over the same city list |
| MultiCity.ParallelFlagIrrelevant | services/analyze_city_data.py:98-119 | analyze_all_cities gives the same mapping with parallel set or not |
| MultiCity.AnalyzeAllCitiesMapsEachCity | services/analyze_city_data.py:98-128 | the result's keys are exactly the cities of the table, and each maps to the analysis of exactly that city's rows |
| MultiCity.CitySliceIsCityRows | services/analyze_city_data.py:127 | a city's slice is the table's rows at strictly increasing positions, and a row is among them exactly when it belongs to the city |
| MultiCity.SliceHasOnlyCity | services/analyze_city_data.py:127 | a city's slice holds only that city's rows |
| MultiCity.CitySlicesPartitionTable | services/analyze_city_data.py:102-116 | each city's slice holds only that city's rows, and the slice sizes over the distinct cities add up to the number of rows of the table |
| CurrentTemperature.GetCurrentSeason | services/check_current_temperature.py:4-16 | winter exactly for months 12, 1, 2; spring for 3, 4, 5; summer for 6, 7, 8; autumn for every other month |
| CurrentTemperature.SeasonsAreThreeMonthBlocks | services/check_current_temperature.py:9-16 | on 1..12 the table is the three-month blocks starting in December |
| CurrentTemperature.SeasonsPartitionCalendar | services/check_current_temperature.py:8-16 | every month 1..12 has exactly one season and each season covers three months (autumn 9, 10, 11) |
| CurrentTemperature.SeasonalSliceIsMatchingRows | services/check_current_temperature.py:27 | the seasonal slice is exactly the rows with the season's label, in original order; it is empty exactly when no row carries it |
| CurrentTemperature.SeasonalSliceOfUniformHistory | services/check_current_temperature.py:27 | when every row carries the label, the slice is the whole history |
| CurrentTemperature.CheckCurrentTemperature | services/check_current_temperature.py:19-47 | the result carries the current season; it is the error exactly when no row has that season's label; otherwise difference = current - mean |
| CurrentTemperature.ReadingAgainstSeasonalStd | services/check_current_temperature.py:36-40 | with at least two seasonal rows, is_anomaly holds exactly when abs(current - mean) > 2·std, strictly, for the sample std of the season's temperatures |
| CurrentTemperature.SingleSeasonalRowNeverAnomalous | services/check_current_temperature.py:37-40 | with a single seasonal row the std is NaN, so the reading is never an anomaly and the mean is that row's temperature |
| CurrentTemperature.SummerScenarioAnomaly | services/check_current_temperature.py:19-47 | in July, against summers of 23, 25 and 27 degrees, 30 is an anomaly 5 degrees above the mean of 25 |
| CurrentTemperature.SummerScenarioNormal | services/check_current_temperature.py:19-47 | on the same history 26 is not an anomaly, 1 degree above the mean |
| CurrentTemperature.SummerScenarioNoSpring | services/check_current_temperature.py:30-33 | in April the same history gives the no-data error for spring |

## Left out

- Figures: the matplotlib and seaborn plots (services/analyze_city_data.py:64-75, 82-93) are rendering artifacts. The report keeps the data that feeds them: the rolling series, the anomalies and the two grouped tables.
- `describe()` (services/analyze_city_data.py:52) is a library summary table and is not modelled.
- The linear regression (services/analyze_city_data.py:40-42) is not modelled. Its slope, r and p need square roots and the t-distribution. Only the yearly table it is fitted to is modelled.
- Wall-clock timing, the process pool's scheduling, and the `print`/`getpid` logging are not modelled (services/analyze_city_data.py:103, 107-109, 118, 126). The model covers only the mapping the pool produces, with results in input order, as `executor.map` guarantees.
- The clock read of `get_current_season` (services/check_current_temperature.py:8) is a parameter: the month of today's date.
- Floating point: values are exact reals. IEEE rounding is not modelled, and NaN appears only as the missing value (`None`) of a statistic over too few values.
- Standard deviations are carried as variances (no square root on reals). Lemmas relate them to any non-negative square root.
- CurrentTemperature.CheckCurrentTemperature: `is_anomaly` is computed on the seasonal variance, not on a std. CurrentTemperature.ReadingAgainstSeasonalStd proves it equal to the std test.
- CityAnalysis.ReportAnomaliesMatchDetector: the report carries rolling variances instead of rolling std. The anomalies equal detect_anomalies' only when it is given square roots of those variances.
- RollingStatistics.CalculateRollingStats: the precondition w >= 1 leaves out a window of 0, which pandas accepts and answers with all-missing series. The source only ever uses the default window of 30, so this excludes nothing the code reaches.
- CityAnalysis.YearlyTrends: the yearly table carries a count column beside the mean and the variance, which the source's yearly table (mean and std only) does not have. It comes from the shared group summary and is used only to state that the groups cover every row.
- Timestamps keep only year, month and day. Time of day and time zones play no part in the analysis.
- The copy taken by `analyze_long_term_trend` (services/analyze_city_data.py:36) is implicit: the yearly table is a function of the rows, and the `year` column it adds to the copy is not represented.
- Per-city fault isolation and typed errors for too few years are not added, as the code has none. An exception in one city's analysis is not modelled.
- Pandas drops rows with a missing group key. No key is ever missing here, because every row has a city, a season label and a timestamp.
