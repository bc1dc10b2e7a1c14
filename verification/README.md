# API dashboard analytics, modelled in Dafny

This project models the analytics behind the Flask dashboard in
`api_dashboard_project/app.py`. The dashboard answers four kinds of question
about a table of API request logs:

- `/api/summary`: how many requests match the optional `region`, `status`,
  `method` and `client` filters, which fraction of them failed (status 400 or
  more), and their mean response time.
- `/api/<metric>`: request counts per endpoint, status, region, method or
  client type, ordered by count. There is also a per-timestamp drilldown for
  one endpoint and a mean-response-time series.
- `/api/heatmap`: request counts per region and hour of day over a trailing
  window, for the busiest regions. Each row is 24 wide and comes with its
  total.
- `/api/anomalies`: a per-endpoint z-score test. It compares a recent window
  against a baseline window, both for mean response time and for error rate.
  Response-time anomalies are listed before error-rate ones, each kind by
  z-score descending. The list keeps one entry per endpoint and is cut at a
  limit.

The log table is a sequence of `Records.Record` values:

- The timestamp is in whole seconds and is `None` when the stored text does
  not parse.
- The endpoint, region and response time are optional, since they may be NULL.

The SQL queries and pandas pipelines become filters, groupings and folds over
that sequence. The modules follow the handlers:

| file | module | what it holds |
|---|---|---|
| `wrappers.dfy` | `Wrappers` | `Option`, `Result` |
| `seqs.dfy` | `Seqs` | masks, `head(n)`, first-occurrence de-duplication, a sort with tie order left open |
| `groups.dfy` | `Groups` | `GROUP BY ... COUNT(*)` buckets |
| `status_codes.dfy` | `StatusCodes` | reading a status code, the `>= 400` error test |
| `records.dfy` | `Records` | the log row, the equality filters, hour of day, latest timestamp |
| `stats.dfy` | `Stats` | mean, sample variance and sample standard deviation |
| `metrics.dfy` | `Metrics` | `get_summary` and `get_metric_data` |
| `heatmap.dfy` | `HeatmapBuilder` | `api_heatmap` |
| `windows.dfy` | `AnomalyWindows` | the recent and baseline windows of `api_anomalies` |
| `anomalies.dfy` | `Anomalies` | the two z tests, ranking, de-duplication, and the handler as written |

Floating-point division is modelled by `Anomalies.Score`. A quotient is
finite, an infinity (a non-zero value over zero) or NaN (zero over zero), and
NaN compares false. A descending pandas sort puts `+inf` first, then finite
values, then `-inf`, with NaN last. Dafny's reals have no square root, so the
detector takes the square root as a parameter `sqrt`. The sign facts about
z-scores assume only `Stats.KeepsSign(sqrt)`: `sqrt` is non-negative on
non-negative reals and positive on positive ones. The squaring fact about the
standard deviation assumes `Stats.IsSqrt(sqrt)`, a true square root.

Two parts of `api_anomalies` cannot run as written (see "Findings"):

- `Anomalies.Detect` is the intended detector.
- `Anomalies.DetectAsWritten` is the handler as it stands.

`Metrics.MetricData` and `Metrics.MetricDataAsWritten` split the
`response_time` chart the same way.

## Model

| member | source | states |
|---|---|---|
| Records.Select | api_dashboard_project/app.py:43-57 | a filtered query sees each row exactly as often as the table holds it when the row satisfies every supplied filter, and never otherwise; a NULL region matches no region filter |
| Records.SelectNoFilter | api_dashboard_project/app.py:44-57 | with every filter parameter absent or empty the query sees the whole table, in order |
| Records.SelectConjunction | api_dashboard_project/app.py:109-120 | the filters are ANDed: filtering by region and then by status, method and client gives the same rows as filtering by all four at once |
| Records.HourOfDayShift | api_dashboard_project/app.py:267 | the hour of day ignores whole days and advances by one, modulo 24, when the timestamp moves by an hour |
| Records.MaxTimestamp | api_dashboard_project/app.py:259-261 | the latest valid timestamp is carried by some row and bounds every valid timestamp; it is missing exactly when no row has a valid timestamp |
| StatusCodes.ParseFormat | api_dashboard_project/app.py:367-371 | reading back the text of a stored integer status code gives that code |
| StatusCodes.IsErrorOfCode | api_dashboard_project/app.py:369 | a stored status code counts as an error exactly when it is at least 400 |
| StatusCodes.UnparsableIsNotError | api_dashboard_project/app.py:370-371 | a status that does not read as an integer is never an error |
| Stats.Mean | api_dashboard_project/app.py:354 | the mean is missing (NaN) exactly for no samples, and otherwise times the sample count gives the sum |
| Stats.MeanBounds | api_dashboard_project/app.py:354 | the mean of samples lying in an interval lies in that interval |
| Stats.SampleVariance | api_dashboard_project/app.py:354 | the sample variance is non-negative and times `n - 1` gives the sum of squared deviations from the mean |
| Stats.SampleStd | api_dashboard_project/app.py:354 | the sample standard deviation is missing exactly for fewer than two samples |
| Stats.SampleStdSquares | api_dashboard_project/app.py:354 | with a true square root the standard deviation is non-negative and squares to the sample variance |
| Stats.Fraction | api_dashboard_project/app.py:43 | the error fraction lies in [0, 1] and is errors over total when there are rows |
| Seqs.Where | api_dashboard_project/app.py:347-348 | a boolean mask keeps exactly the elements that satisfy it, with their multiplicities |
| Seqs.Head | api_dashboard_project/app.py:276 | `head(n)` is a prefix: the first `n` elements, or all but the last `-n` for negative `n` |
| Seqs.SortBy | api_dashboard_project/app.py:388 | the sort is ordered and a permutation of its input |
| Seqs.FirstByKeeps | api_dashboard_project/app.py:413-418 | the de-duplication keeps only input elements with unseen endpoints, never two with the same endpoint, and every input endpoint is kept or already seen |
| Seqs.FirstByKeepsEarliest | api_dashboard_project/app.py:415-418 | the entry kept for an endpoint is its earliest occurrence in the input |
| Seqs.FirstByPairwise | api_dashboard_project/app.py:413-418 | the de-duplication keeps the relative order of its input |
| Groups.CountGroups | api_dashboard_project/app.py:273 | grouping gives one bucket per distinct key, each counting the occurrences of its key, and the counts add up to the number of rows |
| Groups.GroupCounts | api_dashboard_project/app.py:273 | every group counts exactly the rows with its key and is never empty |
| Groups.TotalSortBy | api_dashboard_project/app.py:275 | sorting the groups keeps the total number of rows |
| Groups.GroupAndSort | api_dashboard_project/app.py:137 | `GROUP BY ... ORDER BY` gives distinct keys, exactly the keys present, each with its occurrence count, in the requested order |
| Metrics.Summarize | api_dashboard_project/app.py:43-76 | the total is the number of filtered rows, the error rate is errors over total and lies in [0, 1], the average is the mean of the non-NULL response times, and an empty selection gives all zeros |
| Metrics.SummaryWithoutFilters | api_dashboard_project/app.py:43-57 | an unfiltered summary counts every row |
| Metrics.SummaryMatchesBreakdown | api_dashboard_project/app.py:137-150 | the summary total equals the sum of the counts of any breakdown under the same filters |
| Metrics.Breakdown | api_dashboard_project/app.py:137-150 | one entry per distinct column value among the filtered rows, each counting its rows, with non-increasing counts summing to the filtered total |
| Metrics.ByTimestamp | api_dashboard_project/app.py:129 | one bucket per exact timestamp, strictly ascending with NULL first, each counting its rows, and the counts sum to the row count |
| Metrics.Drilldown | api_dashboard_project/app.py:126-135 | the drilldown labels are the strictly ascending timestamps of the filtered rows of that endpoint; each label's count is the number of those rows stamped with it (at least one), and the counts sum to their number |
| Metrics.ResponseTimes | api_dashboard_project/app.py:352-355 | the response times are those of the rows that have one, one per such row and in row order |
| Metrics.ResponseTimeSeries | api_dashboard_project/app.py:140-142 | one point per exact timestamp of the filtered rows, strictly ascending, each holding the mean non-NULL response time of its rows |
| Metrics.MetricData | api_dashboard_project/app.py:126-153 | an unknown metric answers empty; `endpoint`, `status`, `region`, `methods` and `clients` answer the count breakdown of their own column, `endpoint` with an endpoint given answers that endpoint's per-timestamp drilldown instead, and `response_time` answers the mean response-time series |
| Metrics.MetricDataAsWritten | api_dashboard_project/app.py:140-157 | the handler as written answers like the intended one except for `response_time` with a filter set, where it answers empty |
| Metrics.ResponseTimeIgnoresFilters | api_dashboard_project/app.py:142-144 | one matching row with a region filter set: as written the chart is empty, although the intended series is not |
| HeatmapBuilder.HeatWindow | api_dashboard_project/app.py:259-266 | with a valid timestamp, the window keeps exactly the rows stamped no earlier than `hours` hours before the latest, dropping undated rows; with none, it keeps every row |
| HeatmapBuilder.CellOf | api_dashboard_project/app.py:263-270 | each counted row lands in one hour of `0..23`, under its own region label and at the hour it is counted at |
| HeatmapBuilder.HourCount | api_dashboard_project/app.py:263-273 | the cells at a region label and an hour are exactly the rows with that label counted at that hour: the hour of day of their timestamp, or hour 0 for an undated row |
| HeatmapBuilder.MatrixCountsRowsAtHour | api_dashboard_project/app.py:263-291 | each matrix entry is the number of window rows of its region at its hour, and in a window cut at a valid latest timestamp every row is dated, so the entry counts the rows whose timestamp falls in that hour |
| HeatmapBuilder.LabelCount | api_dashboard_project/app.py:270-273 | the cells carrying a region label are exactly the rows of that region, plus the rows without a region for the label `Unknown` |
| HeatmapBuilder.TotalsCountLabelledRows | api_dashboard_project/app.py:270-291 | each listed total counts the window rows of its region, and the `Unknown` total also counts every row whose region is NULL |
| HeatmapBuilder.Ranking | api_dashboard_project/app.py:273-275 | the regions of the window, each once with its row count, counts non-increasing and summing to the window size |
| HeatmapBuilder.RankedHead | api_dashboard_project/app.py:275-276 | the first `top` ranked regions are distinct, have positive counts and are ordered by count |
| HeatmapBuilder.Grid | api_dashboard_project/app.py:278-291 | one 24-wide row per listed region holding its per-hour counts, and a total equal to the row's sum and to the region's count |
| HeatmapBuilder.RowSum | api_dashboard_project/app.py:285-291 | a region's row sums to the number of its rows |
| HeatmapBuilder.BuildHeatmap | api_dashboard_project/app.py:255-297 | hours `0..23`; each row counts its region's window rows per hour; totals are row sums, positive and non-increasing; regions are distinct, at most `top` for `top >= 0`, and none for an empty table |
| HeatmapBuilder.HeatmapRegions | api_dashboard_project/app.py:276 | the listed regions are the head of the ranking |
| HeatmapBuilder.HeatmapTotals | api_dashboard_project/app.py:275-291 | each listed total is the ranked count of its region |
| HeatmapBuilder.TopFillsOrCovers | api_dashboard_project/app.py:276 | for `top >= 0`, either `top` regions are listed or every region of the window is |
| HeatmapBuilder.LeftOutRegionsRankLower | api_dashboard_project/app.py:275-276 | a region of the window left out of the heatmap has no more rows than any listed region |
| HeatmapBuilder.TotalsConserveRows | api_dashboard_project/app.py:273-291 | when every region is listed, the totals add up to the number of rows in the window |
| HeatmapBuilder.UndatedCells | api_dashboard_project/app.py:261-263 | without any valid timestamp every row is counted at hour 0 |
| HeatmapBuilder.UndatedRowsAtHourZero | api_dashboard_project/app.py:261-263 | without any valid timestamp every matrix row is zero after hour 0 |
| AnomalyWindows.Named | api_dashboard_project/app.py:338 | the rows that name an endpoint, with their multiplicities, and nothing else |
| AnomalyWindows.Partition | api_dashboard_project/app.py:344-351 | recent rows are those stamped at or after `latest - minutes`; baseline rows are those in `[latest - lookback, recent start)`, or all rows before the recent start when that span is empty |
| AnomalyWindows.SplitWindows | api_dashboard_project/app.py:338-351 | there are no windows exactly when every row naming an endpoint is undated; otherwise the split point is a timestamp of some named row and no named row is stamped later |
| AnomalyWindows.WindowsDisjoint | api_dashboard_project/app.py:347-351 | no row is both recent and baseline |
| AnomalyWindows.BaselineFallback | api_dashboard_project/app.py:350-351 | the baseline is empty only when no named row is stamped before the recent window |
| AnomalyWindows.RecentHoldsLatest | api_dashboard_project/app.py:340-347 | a non-negative recent window is never empty |
| AnomalyWindows.NegativeWindowIsEmpty | api_dashboard_project/app.py:344-347 | a negative recent window is empty |
| Anomalies.Divide | api_dashboard_project/app.py:361 | a quotient is finite exactly for a non-zero divisor, and then times the divisor it gives the dividend; it is NaN exactly for zero over zero, and otherwise an infinity with the dividend's sign |
| Anomalies.Candidates | api_dashboard_project/app.py:355 | each endpoint of the recent window is scored exactly once |
| Anomalies.Half | api_dashboard_project/app.py:359 | half of a mean is missing exactly when the mean is, and twice it is the mean |
| Anomalies.BaselineMean | api_dashboard_project/app.py:352-358 | the baseline mean is missing only when there are neither baseline nor recent response times; times the number of baseline times it gives their sum, and without baseline times it is the recent mean (its product with the recent count is their sum) |
| Anomalies.BaselineSpread | api_dashboard_project/app.py:359 | a defined non-zero sample deviation is used as is; otherwise the spread is half the baseline mean, missing or zero only when that mean is |
| Anomalies.BaselineSpreadPositive | api_dashboard_project/app.py:359 | with a sign-keeping square root and a positive baseline mean the spread is defined and positive |
| Anomalies.ResponseScore | api_dashboard_project/app.py:354-364 | a response-time anomaly carries the recent mean and count, the (filled) baseline mean, which is the mean of the baseline times when there are any and the recent mean otherwise, and the spread; it is raised exactly when there are at least `min_recent_count` samples, both means and the spread exist, and `abs(z) >= threshold` for `z` the mean difference over the spread |
| Anomalies.ResponseCheck | api_dashboard_project/app.py:352-364 | a flagged endpoint carries the mean of its recent response times and their count (at least `min_recent_count`), the mean of its baseline response times (the recent mean when it has none), the spread of its baseline times, and the z-score that is the mean difference over that spread, which reaches the threshold in absolute value |
| Anomalies.ResponseCheckIsScore | api_dashboard_project/app.py:352-355 | the response-time test of an endpoint scores the response times of its own recent rows against those of its own baseline rows |
| Anomalies.ResponseCheckFlagged | api_dashboard_project/app.py:352-363 | an endpoint with at least `min_recent_count` (and at least one) recent response times is flagged exactly when its baseline spread exists and its z-score reaches the threshold in absolute value |
| Anomalies.ResponseScoreDirection | api_dashboard_project/app.py:361 | with a positive baseline mean the score is finite, and it is positive exactly when the recent mean is above the baseline mean |
| Anomalies.NoBaselineNoResponseAnomaly | api_dashboard_project/app.py:358-363 | with no baseline response times the baseline mean is the recent mean, so no response-time anomaly is raised at a positive threshold |
| Anomalies.NewEndpointNoResponseAnomaly | api_dashboard_project/app.py:357-363 | an endpoint without baseline response times has no response-time anomaly at a positive threshold |
| Anomalies.ErrorShare | api_dashboard_project/app.py:367-375 | the mean of `is_error` is the number of error rows over the number of rows (0 for no rows), in [0, 1] |
| Anomalies.BinomialSpreadPositive | api_dashboard_project/app.py:379 | with a sign-keeping square root the binomial spread is positive, since the variance is floored at `1e-6` |
| Anomalies.ErrorScore | api_dashboard_project/app.py:376-383 | an error-rate anomaly is raised exactly when there are at least `min_recent_count` recent rows and `z_err >= threshold`, where `z_err` is the rate difference over the spread (IEEE division); it carries the rates in percent and the recent count |
| Anomalies.ErrorCheck | api_dashboard_project/app.py:372-383 | the error-rate test of one endpoint: the recent rate is the error share of its recent rows, a missing baseline rate is 0, a flagged endpoint has at least one and at least `min_recent_count` recent rows, its count is the number of its recent rows when it has any, a present baseline rate is the error share of its baseline rows, and both rates lie in [0, 100] percent |
| Anomalies.ErrorCheckIsScore | api_dashboard_project/app.py:374-381 | for an endpoint with recent rows, the error-rate test scores the error share of its recent rows against that of its baseline rows (0 without any), over its number of recent rows |
| Anomalies.ErrorCheckFlagged | api_dashboard_project/app.py:374-382 | an endpoint with at least `min_recent_count` (and at least one) recent rows is flagged exactly when its error z-score, over the binomial spread of the baseline rate and its recent count, reaches the threshold |
| Anomalies.ErrorAnomalyMeansMoreErrors | api_dashboard_project/app.py:380-382 | at a positive threshold and a positive spread a raised error-rate anomaly has a recent rate above its baseline rate |
| Anomalies.ErrorCheckMeansMoreErrors | api_dashboard_project/app.py:372-382 | at a positive threshold an endpoint flagged for errors has more recent errors than baseline ones, as a rate |
| Anomalies.Check | api_dashboard_project/app.py:363-383 | the anomaly of a kind found for an endpoint is of that kind and names that endpoint |
| Seqs.Collect | api_dashboard_project/app.py:363 | the boolean mask keeps one result for each candidate whose test raises, in candidate order, and nothing else |
| Anomalies.Sweep | api_dashboard_project/app.py:388 | the anomalies found among the candidates are a reordering of the raised tests, each as often as it is raised, by z-score descending |
| Anomalies.Flagged | api_dashboard_project/app.py:387-411 | the anomalies of one kind are exactly the raised tests of the recent endpoints, one per endpoint, by z-score descending |
| Anomalies.Bound | api_dashboard_project/app.py:419-420 | the output cap is `limit`, but at least one, because the length test follows the append |
| Anomalies.Report | api_dashboard_project/app.py:413-420 | the report takes entries from the ranked list, with at most one per endpoint and at most the cap |
| Anomalies.Deduplicate | api_dashboard_project/app.py:413-420 | the de-duplication loop returns the first entry per endpoint, cut at the cap |
| Anomalies.Detect | api_dashboard_project/app.py:334-422 | the intended detector: at most the cap of anomalies, one per endpoint, each a raised test of a recent endpoint; none without a timestamped named row |
| Anomalies.DetectOrder | api_dashboard_project/app.py:387-411 | reported anomalies come response time first, each kind by z-score descending |
| Anomalies.ReportOrder | api_dashboard_project/app.py:413-420 | the report keeps any order the ranked list has |
| Anomalies.ReportEarliest | api_dashboard_project/app.py:415-418 | the entry reported for an endpoint is its earliest ranked entry |
| Anomalies.ReportCovers | api_dashboard_project/app.py:419-420 | a report shorter than its cap names every endpoint of the ranked list |
| Anomalies.ReportPrefersFirst | api_dashboard_project/app.py:410-418 | an endpoint present among the response-time anomalies is reported with a response-time entry |
| Anomalies.ResponseTimeWins | api_dashboard_project/app.py:410-418 | an endpoint is reported for its error rate only when its response time is not anomalous |
| Anomalies.DetectComplete | api_dashboard_project/app.py:413-420 | when fewer anomalies than the cap are reported, every endpoint with an anomaly of either kind is reported |
| Anomalies.DetectAsWritten | api_dashboard_project/app.py:334-374 | the handler as written succeeds, with no anomalies, exactly when there are no windows to split; otherwise it raises at line 359 or, with an empty recent window, at line 373 |
| Anomalies.AsWrittenAgreesOnlyWithoutWindows | api_dashboard_project/app.py:334-374 | the handler as written agrees with the intended detector exactly when no named row has a valid timestamp |
| Anomalies.AsWrittenLosesAnomalies | api_dashboard_project/app.py:359-374 | whenever the intended detector reports an anomaly, the handler as written raises |
| Anomalies.OneRequestCrashes | api_dashboard_project/app.py:359 | one timestamped request with default parameters already makes the spread fallback raise |
| Anomalies.NegativeWindowCrashes | api_dashboard_project/app.py:372-374 | with a negative `minutes` nothing is recent, and the grouping raises on the missing `is_error` column |

## Left out

- Flask routing, `request.args` parsing, the HTTP 400 answers for parameters
  that do not convert, and `jsonify` (app.py:38-41, 100-104, 242-246,
  312-319). Parameters enter as Dafny values: filters as strings, where empty
  means "not given", and the anomaly parameters as `Anomalies.Params`.
- The CSV-to-SQLite bootstrap and `get_connection` (app.py:12-28), the
  `rowid` fallback queries (app.py:144, 252, 329), and the database-error
  answers (app.py:65-67, 154-157, except the `response_time` case in
  "Findings"). These are storage I/O; the log table is an input sequence.
- The `LIMIT 500000` and `LIMIT 200000` most-recent caps (app.py:250, 324).
  The input is taken to be the rows after the cap.
- The distinct-value list endpoints (app.py:167-224). They are plain
  `SELECT DISTINCT` queries with no logic of their own.
- The front end, `api_performance_dashboard/static/js/charts.js`. It is
  rendering and event wiring.
- Presentation: rounding to 2 or 3 decimals, the `* 100` scaling of the
  summary error rate, and `or 0` of a zero result (app.py:78-82, 392-407).
  `Metrics.Summarize` returns the exact fraction and mean.
- `Metrics.Summarize`: a database failure answering zeros is not modelled.
- Floating point: statistics are exact reals. IEEE rounding is not modelled;
  division by zero is (`Anomalies.Score`).
- `Stats.SampleStd`: the square root is a parameter. Its value is
  characterised only when `Stats.IsSqrt` holds (`Stats.SampleStdSquares`).
- `Anomalies.BinomialSpread`: it carries no contract of its own. Its
  positivity is `Anomalies.BinomialSpreadPositive`, under `Stats.KeepsSign`.
- `Seqs.FirstBy`: it carries no contract of its own. Its facts are the
  lemmas `Seqs.FirstByKeeps`, `Seqs.FirstByKeepsEarliest` and
  `Seqs.FirstByPairwise`.
- `StatusCodes.ParseStatus`: it reads an optional sign and decimal digits, so
  one classification stands for both SQLite's `CAST(... AS INTEGER)` and
  Python's `int(x)`. Both agree on stored integer codes
  (`StatusCodes.ParseFormat`). They differ on texts no status column holds:
  SQLite reads a numeric prefix such as `"404x"`, and Python accepts
  surrounding blanks and `_` separators.
- `Records.Record`: response times are real or NULL. SQLite's cast of a
  non-numeric text to `0.0` is not modelled. Status codes are stored text and
  are never NULL.
- `Metrics.ByTimestamp`: SQL groups and orders timestamps by their stored
  text. The model uses the parsed instant, assuming one canonical text format
  in which text order is time order. Unparsable texts, which SQL would keep
  apart, share the one `None` group here.
- `Metrics.Breakdown`, `HeatmapBuilder.Ranking` and `Anomalies.Sweep` leave
  the order among equal counts or equal z-scores open. `ORDER BY COUNT(*)`
  and pandas' default sort do not fix it either.
- `HeatmapBuilder.BuildHeatmap`: for a negative `top`, `head(top)` drops the
  last `-top` regions. The contract bounds the number of regions only for
  `top >= 0`; the negative case is stated by `Seqs.Head`.
- Time: timestamps are whole seconds and hours of day are taken in UTC.
  Time zones and sub-second parts are not modelled.
- HeatmapBuilder.HeatWindow: timestamps and the window start are unbounded
  integers. pandas holds them as 64-bit nanosecond counts: instants outside
  roughly the years 1677 to 2262 become `NaT` when parsed, and
  `pd.Timedelta(hours=...)` raises for `hours` beyond about 2.56 million in
  absolute value, which ends the request with HTTP 500. Neither limit is
  modelled.
- AnomalyWindows.Partition: the same 64-bit nanosecond range is not modelled.
  `pd.Timedelta(minutes=...)` raises for `minutes` beyond about 153 million
  and `pd.Timedelta(hours=...)` for `lookback_hours` beyond about 2.56 million
  in absolute value, which ends the request with HTTP 500; here every window
  bound exists.

## Findings

| source | as written | input that shows it | evidently intended | confidence | as-written member | corrected member |
|---|---|---|---|---|---|---|
| api_dashboard_project/app.py:142-144 | the `response_time` query holds the `?` placeholders of the filters but runs without their values, so with any filter set both attempts fail and the handler answers `{"labels": [], "counts": []}` | one row `(t=0, /a, GET, eu, web, 200, 5.0 ms)` and `region=eu` | the mean response time per timestamp of the filtered rows | not executed | Metrics.MetricDataAsWritten, Metrics.ResponseTimeIgnoresFilters | Metrics.MetricData, Metrics.ResponseTimeSeries |
| api_dashboard_project/app.py:359 | `Series.replace(0, <Series>)` passes a Series as the value for a scalar `to_replace`; pandas rejects that with `ValueError` on any non-empty frame, and the frame is non-empty whenever some endpoint is recent | one row `(t=0, /a, GET, eu, web, 500, 5.0 ms)` with the default parameters | replace a zero deviation by half the baseline mean | not executed | Anomalies.DetectAsWritten, Anomalies.OneRequestCrashes | Anomalies.BaselineSpread, Anomalies.BaselineSpreadPositive |
| api_dashboard_project/app.py:372-374 | `is_error` is added to `df` after `recent_df` and `baseline_df` were copied from it, so grouping them by `is_error` raises `KeyError`; it is reached only when line 359 does not raise, that is with an empty recent window | the same row with `minutes=-1` | classify every windowed row with `is_error_val` and test its error rate | not executed | Anomalies.DetectAsWritten, Anomalies.NegativeWindowCrashes | Anomalies.ErrorCheck, Anomalies.ErrorCheckMeansMoreErrors |
