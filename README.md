# Insight engine of the bed-sensor backend, in Dafny

The backend turns a resident's daily bed-sensor readings (time in bed, time at
rest, low and high activity, all in seconds) into three insights. This project
models those three analyzers over the window of `(date, value-or-missing)`
samples they fetch, and proves what they compute.

- **Trend** (`TrendService`). The baseline is the mean of the last (up to) 28
  readings and the recent level is the mean of the last 7; missing readings
  are skipped. Their difference is put into words with a one-minute noise
  floor, and all three numbers are formatted as `"Xh Ymin"`.
- **Anomaly** (`AnomalyService`). Gaps are filled forward and then backward,
  in place, on an array. The population mean and variance are taken, and
  every row whose z-score reaches the threshold in magnitude is reported with
  its date and formatted filled value. A column without spread gives no
  result.
- **Change point** (`ChangePointService`). The same gap fill runs first. The
  signal is standardised, or only centred when its standard deviation is not
  positive. It is handed to a PELT search, and the breakpoints are turned
  into "last index of a segment" values with the final boundary dropped.
  Each index gets its ISO date and its raw reading formatted.

Shared modules:
- `Common`: samples, windows, the three outcomes of an analyzer call
  (`UnknownMetric`, `NoResult`, `Found`) and decimal numerals.
- `PyFloat`: Python's float `//`, `%` and `int()`.
- `Format`: the one reference duration formatter. Each service file's own
  copy is proved equal to it.
- `Stats`: sums, means, the population variance and pandas' skip-missing
  mean.
- `Series`: `ffill().bfill()` as a function, with its properties.

Readings are `Option<real>`: a missing value (NaN or NULL) is `None`. Seconds
are exact reals, so `//` and `%` are floors of exact quotients. The fetch from
the database becomes a parameter: the window `w`, with the precondition
`IsWindow(w, limit)` (at most `limit` rows, oldest first). An unknown metric
key, which makes the repository raise before fetching, becomes the outcome
`UnknownMetric`. `None`, which the router turns into a 404, becomes
`NoResult`.

The change-point analyzer takes two functions as parameters. `sqrt` stands
for the square root in numpy's `std`, and `pelt` for the ruptures search.
Nothing is assumed about either unless a lemma says so. The anomaly analyzer
needs no square root: for sigma = sqrt(variance) > 0 and t >= 0,
|x - mu| / sigma >= t holds exactly when (x - mu)^2 >= t^2 * variance
(`ZScoreTest`).

## Model

| member | source | states |
|---|---|---|
| Format.FormatDuration | app/services/trend_service.py:71-89 | The reference formatter. It gives "N/A" exactly for a missing value. A present value's rendering starts with a digit, so it can never be "N/A". |
| Format.SplitBounds | app/services/trend_service.py:83-84 | minutes < 60, and 3600·hours + 60·minutes <= abs(s) < 3600·hours + 60·minutes + 60. |
| Format.SplitUnique | app/services/trend_service.py:83-84 | Any hours/minutes pair meeting those bounds is the canonical split. |
| Format.PythonSplitAgrees | app/services/trend_service.py:83-84 | int(x // 3600) and int((x % 3600) // 60), with Python's float operators, are the canonical hours and minutes of x >= 0. |
| Format.FormatIgnoresSign | app/services/trend_service.py:80-82 | f(-s) = f(s) = f(abs(s)): the sign is never shown. |
| Format.SplitIgnoresSign | app/services/trend_service.py:82-84 | Hours and minutes of -s equal those of s. |
| Format.FormatShape | app/services/trend_service.py:85-89 | Both parts nonzero give "{h}h {m}min", hours only gives "{h}h", no hours gives "{m}min", and under a minute gives "0min". |
| Format.HoursOnlyRendering | app/services/trend_service.py:87-88 | A whole number h < 10 of hours renders as "{h}h", and the trend phrase for it is "{h}h" too. |
| Format.FormatExamples | app/services/trend_service.py:74-79 | The documented examples: 9000 → "2h 30min", 3600 → "1h", 120 → "2min". Also 0 → "0min", -9000 → "2h 30min", missing → "N/A". |
| Format.FormatDurationParses | app/services/trend_service.py:85-89 | Inverse: parsing a present value's rendering gives back its (hours, minutes). |
| Format.SameRendering | app/services/trend_service.py:83-89 | Two present durations render alike exactly when their magnitudes hold the same number of whole minutes. |
| Format.SpanDigitsOfNumeral | app/services/trend_service.py:86 | A numeral followed by a non-digit is read up to its end. |
| Format.NumeralThen | app/services/trend_service.py:86 | A numeral followed by a non-digit splits off exactly, and reads back as its number. |
| Format.ParseNumeral | app/services/trend_service.py:86 | Parsing a rendering that starts with a numeral continues after that numeral with its value. |
| Format.ParseBoth | app/services/trend_service.py:85-86 | "{h}h {m}min" parses back to (h, m). |
| Format.ParseHoursOnly | app/services/trend_service.py:87-88 | "{h}h" parses back to (h, 0). |
| Format.ParseMinutesOnly | app/services/trend_service.py:89 | "{m}min" parses back to (0, m). |
| Format.ParseHoursMinutes | app/services/trend_service.py:85-89 | Every rendering of an hours/minutes pair parses back to that pair. |
| Format.HoursMinutes | app/services/trend_service.py:85-89 | Each of the three shapes starts with a digit. |
| PyFloat.FloorDiv | app/services/trend_service.py:83 | Float `x // d` is a whole number q with q <= x/d < q + 1. |
| PyFloat.Mod | app/services/trend_service.py:84 | Float `x % d` is what is left after x // d whole divisors: x == d * (x // d) + r, with 0 <= r < d for d > 0 and d < r <= 0 for d < 0 (the remainder takes the divisor's sign, unlike a Euclidean remainder). |
| PyFloat.Int | app/services/trend_service.py:83 | `int()` truncates toward zero: the result has the sign of x and a magnitude at most abs(x) and above abs(x) - 1. |
| Common.NatToString | app/services/trend_service.py:86 | The f-string of a whole number: nonempty, digits only, no leading zero except "0" itself. |
| Common.ParseNatToString | app/services/trend_service.py:86 | Reading a rendered numeral back gives the number. |
| Common.NatToStringInjective | app/services/trend_service.py:86 | Different numbers render differently. |
| Common.ZeroPad | app/services/change_point_service.py:99 | Left-pads with zeros to the width: the string is kept as a suffix and everything before it is '0'. Used by the ISO rendering of `str(date)`. |
| Common.IsoDate | app/services/change_point_service.py:99 | `str(date)` for a year below 10000 and month and day below 100: ten characters "YYYY-MM-DD" with dashes at 4 and 7, whose digit fields read back as the year, the month and the day. |
| Common.ReplaceUnderscores | app/services/trend_service.py:67 | Same length; every '_' becomes ' ', and every other character is kept. |
| TrendService.FormatSecondsHMin | app/services/trend_service.py:71-89 | The trend file's copy, written with Python's operators, equals Format.FormatDuration on every input. |
| AnomalyService.FormatSecondsHMin | app/services/anomaly_service.py:36-54 | The anomaly file's copy equals Format.FormatDuration on every input. |
| ChangePointService.FormatSecondsHMin | app/services/change_point_service.py:10-24 | The change-point file's copy equals Format.FormatDuration on every input. |
| Stats.MeanSkipNa | app/services/trend_service.py:34-35 | pandas' `mean()`: missing exactly when every value is missing. |
| Stats.Present | app/services/trend_service.py:34-35 | The present values: empty exactly when every value is missing. |
| Stats.PresentOfUnwrapped | app/services/trend_service.py:34-35 | Without gaps, the present values are all the values. |
| Stats.MeanBounds | app/services/trend_service.py:34-35 | A mean lies within any bounds that hold of every value. |
| Stats.MeanConstant | app/services/trend_service.py:34-35 | The mean of n copies of c is c. |
| Stats.SumAppend | app/services/trend_service.py:34-35 | The sum of a concatenation is the sum of the sums. |
| Stats.SumAllButOne | app/services/anomaly_service.py:92 | All values c except one give the sum (n-1)·c + xs[k]. |
| Stats.PopVariance | app/services/anomaly_service.py:93 | The population variance (ddof = 0) is never negative. |
| Stats.VarianceZeroIffConstant | app/services/anomaly_service.py:93-96 | The variance is zero exactly when all values are equal, so sigma = 0 means a constant column. |
| Stats.VariancePositive | app/services/anomaly_service.py:93-96 | Two different values give a positive variance. |
| Stats.VarianceOfConstant | app/services/anomaly_service.py:93-96 | A constant column has variance zero. |
| Stats.SumDeviations | app/services/change_point_service.py:77-80 | Deviations from the mean sum to zero. |
| Series.GapFillKeepsPresent | app/services/anomaly_service.py:74-78 | A present value is kept. |
| Series.GapFillFromBefore | app/services/anomaly_service.py:75 | A missing value with a present value before it takes the nearest such value. |
| Series.GapFillFromAfter | app/services/anomaly_service.py:76 | A missing value with nothing present before it takes the nearest present value after it. |
| Series.GapFillMissing | app/services/anomaly_service.py:78-82 | After filling, a position is missing exactly when the whole column was missing. |
| Series.GapFillAllMissing | app/services/anomaly_service.py:80-82 | An all-missing column stays all missing, at the same length. |
| Series.GapFillComplete | app/services/anomaly_service.py:78 | One present value anywhere leaves no gap. |
| Series.GapFillFrom | app/services/anomaly_service.py:78 | Every filled value is one of the column's present values. |
| Series.GapFillConstant | app/services/anomaly_service.py:78 | The filled column is constant exactly when the column's present values all agree. |
| Series.LastPresentIsNearest | app/services/anomaly_service.py:75 | The forward-carried value is the present value at the largest index up to i. |
| Series.NextPresentIsNearest | app/services/anomaly_service.py:76 | The backward-carried value is the present value at the smallest index from i on. |
| TrendService.ComputeBaselineLast7 | app/services/trend_service.py:25-36 | Fewer than 7 values give a missing pair. Otherwise: the baseline is the skip-missing mean of the last min(28, n) values and the recent level that of the last 7; the recent level is missing exactly when those 7 are. |
| TrendService.Difference | app/services/trend_service.py:122 | last7 - baseline, missing when either side is; the result plus the baseline gives back last7. |
| TrendService.FormatDescription | app/services/trend_service.py:52-68 | A missing diff gives "insufficient data". Under 60 s either way gives "≈ no change". Otherwise "{metric with '_' → ' '} {verb} by {phrase}": the verb is "increased" exactly when diff > 0, and the phrase is "{h}h and {m} minutes", "{h}h" or "{m} minutes" for the magnitude. |
| Format.ChangePhraseInjective | app/services/trend_service.py:61-66 | The three wordings "{h}h and {m} minutes", "{h}h" and "{m} minutes" never coincide for different (hours, minutes): equal phrases exactly when the magnitudes are equal. |
| TrendService.DescriptionMagnitude | app/services/trend_service.py:58-60 | A change of at least a minute never reads "0 minutes", and the stated hours and minutes are abs(diff) rounded down to the minute. |
| TrendService.DescriptionSymmetric | app/services/trend_service.py:57-68 | Opposite changes d and -d are described alike except for the verb. |
| TrendService.ComputeTrend | app/services/trend_service.py:93-139 | An unknown metric is refused, and fewer than 7 rows give no result (both directions). Otherwise the response holds the formatted baseline, recent level and difference (recent minus baseline), and the description of the difference. |
| TrendService.MeanOfComplete | app/services/trend_service.py:34-35 | With no missing value, the skip-missing mean is the plain mean. |
| TrendService.SteadyWindow | app/services/trend_service.py:121-131 | A window of one repeated value c reports c as both levels, "0min" as the difference, and "≈ no change". |
| TrendService.DeclineMeans | tests/system/test_insights_edge_cases.py:43-64 | 21 nights at 8h then 7 at 4h: baseline 25200 s, recent 14400 s. |
| TrendService.DeclineRenderings | app/services/trend_service.py:129-131 | 25200, 14400 and -10800 s render as "7h", "4h" and "3h". |
| TrendService.DeclineDescription | app/services/trend_service.py:126 | A -10800 s change of time_in_bed reads "time in bed decreased by 3h". |
| TrendService.DeclineExample | tests/system/test_insights_edge_cases.py:95-102 | The decline window's trend is exactly ("7h", "4h", "3h", "time in bed decreased by 3h"). |
| AnomalyService.ForwardFill | app/services/anomaly_service.py:75 | In place on the array: the new contents are `ffill()` of the old contents. |
| AnomalyService.BackwardFill | app/services/anomaly_service.py:76 | In place on the array: the new contents are `bfill()` of the old contents. |
| AnomalyService.FillGaps | app/services/anomaly_service.py:78 | In place on the array: the new contents are `ffill().bfill()` of the old contents. |
| AnomalyService.AnomalyIndices | app/services/anomaly_service.py:104-108 | The mask's indices: strictly increasing and within the window. An index is present exactly when its value passes the test. |
| AnomalyService.ZScoreTest | app/services/anomaly_service.py:102-105 | For sigma > 0 with sigma² = variance and t >= 0, the squared test holds exactly when abs((x - mu) / sigma) >= t. |
| AnomalyService.ThresholdMonotone | app/services/anomaly_service.py:99-105 | A value flagged under a threshold is flagged under every smaller one. |
| AnomalyService.Description | app/services/anomaly_service.py:115 | "no anomalies" exactly for a count of 0, otherwise "{n} anomalies detected". |
| AnomalyService.AgreeIffNoSpread | app/services/anomaly_service.py:92-96 | For a filled column without gaps: sigma = 0 exactly when the present readings all agree, and a single row always agrees. |
| AnomalyService.Assemble | app/services/anomaly_service.py:99-125 | The assembled response meets Reports. The indices are those passing the test: strictly increasing and within the window. Dates and formatted filled values line up one to one, the count is the number of indices, and the description is worded from the count. |
| AnomalyService.ComputeAnomalies | app/services/anomaly_service.py:57-125 | An unknown metric is refused. Otherwise there is no result exactly when the present readings all agree. That case covers an empty window, an all-missing window, sigma = 0 and a single row. A result meets Reports. |
| AnomalyService.ReportedFields | app/services/anomaly_service.py:108-125 | A response that meets Reports has its fields lined up as described above. |
| AnomalyService.SingleAnomaly | app/services/anomaly_service.py:105-108 | When only index k passes the test, the indices are exactly [k]. |
| AnomalyService.OutlierStatistics | tests/system/test_insights_edge_cases.py:17-40 | The outlier fixture (29 nights of 28800 s and 7200 s on night 15) has mean 28080 and variance 15033600. |
| AnomalyService.OutlierTest | app/services/anomaly_service.py:104-105 | Against those statistics, 7200 passes and 28800 fails, under threshold 1.0 and under 3.0. |
| AnomalyService.OutlierFlags | app/services/anomaly_service.py:104-108 | On the fixture's column, exactly index 15 is flagged, under either threshold. |
| AnomalyService.OutlierColumn | app/services/anomaly_service.py:78 | The fixture has no gaps, so filling leaves its column unchanged. |
| AnomalyService.OutlierIndices | app/services/anomaly_service.py:104-114 | A response on the fixture that meets Reports flags [15] and counts 1. |
| AnomalyService.OutlierStrings | app/services/anomaly_service.py:111-115 | 7200 s renders "2h"; one anomaly is worded "1 anomalies detected". |
| AnomalyService.OutlierFields | app/services/anomaly_service.py:117-125 | Those fields assemble into the expected response. |
| AnomalyService.OutlierReport | app/services/anomaly_service.py:104-125 | Any response on the fixture that meets Reports is (1, [15], [date of night 15], ["2h"], "1 anomalies detected"). |
| AnomalyService.OutlierExample | tests/system/test_insights_edge_cases.py:86-92 | The whole analyzer on the fixture returns exactly that response, under either threshold. |
| ChangePointService.Signal | app/services/change_point_service.py:61 | With one reading present, the signal is exactly `ffill().bfill()` of the value column (Series.GapFill, whose fill rule the Series lemmas state), has no gaps, has the window's length, and keeps each present reading in place. |
| ChangePointService.Standardise | app/services/change_point_service.py:71-80 | Same length. When std > 0, each z·std + mean gives back the value; otherwise each z + mean does. |
| ChangePointService.StandardisedSumsToZero | app/services/change_point_service.py:76-80 | Whichever branch is taken, the standardised signal sums to zero. |
| ChangePointService.SumDivided | app/services/change_point_service.py:77 | Dividing every term by d divides the sum by d. |
| ChangePointService.ConstantStandardisesToZero | app/services/change_point_service.py:79-80 | A constant signal standardises to all zeros, whatever the square root returns. |
| ChangePointService.SearchInput | app/services/change_point_service.py:61-85 | The array fitted by the search has the window's length. With a reading present it is the standardised signal. A window with no reading gives all missing (NaN). |
| ChangePointService.SegmentEnds | app/services/change_point_service.py:94 | `[b - 1 for b in bkps if 0 <= b - 1 < n]`: no longer than bkps, and every element in 0..n-1. |
| ChangePointService.SegmentEndsMembers | app/services/change_point_service.py:94 | i is kept exactly when i + 1 is a breakpoint and 0 <= i < n. |
| ChangePointService.SegmentEndsIncreasing | app/services/change_point_service.py:94 | Increasing breakpoints give increasing segment ends. |
| ChangePointService.DropFinal | app/services/change_point_service.py:96 | `[i for i in ends if i < n - 1]`: no longer than its input, and every element is one of its inputs and below n - 1. |
| ChangePointService.DropFinalMembers | app/services/change_point_service.py:96 | i is kept exactly when it is an input below n - 1. |
| ChangePointService.DropFinalIncreasing | app/services/change_point_service.py:96 | The filter keeps order. |
| ChangePointService.ChangePointIndices | app/services/change_point_service.py:93-96 | Every reported index lies in 0..n-2. |
| ChangePointService.ChangePointIndicesSpec | app/services/change_point_service.py:93-96 | i is reported exactly when i + 1 is a breakpoint and 0 <= i < n - 1. So n - 1 is never reported, and increasing breakpoints give increasing indices. |
| ChangePointService.IndicesCount | app/services/change_point_service.py:94-96 | The number of indices is the number of breakpoints b with 1 <= b <= n - 1. |
| ChangePointService.InteriorOfValid | app/services/change_point_service.py:90-96 | For search output of the assumed shape (strictly increasing, in 1..n, ending at n), all but the last breakpoint are interior. |
| ChangePointService.SegmentEndsInRange | app/services/change_point_service.py:94 | Breakpoints all in 1..n are each kept, minus one. |
| ChangePointService.DropFinalOfLast | app/services/change_point_service.py:96 | When only the last end is n - 1, only it is dropped. |
| ChangePointService.ValidBreakpointsReported | app/services/change_point_service.py:90-96 | For search output of the assumed shape, the indices are exactly the breakpoints before the last, each minus one, in order, and there are one fewer of them than breakpoints. |
| ChangePointService.DescriptionInjective | app/services/change_point_service.py:102 | The sentence "Detected {k} change points using PELT (l2) over last {n} days." determines both k and n: equal sentences exactly when both counts are equal. |
| ChangePointService.ComputeChangePoints | app/services/change_point_service.py:39-112 | An unknown metric is refused, and fewer than 2 rows give no result (both directions). Otherwise the indices are those derived from the search's breakpoints on the standardised signal, each in 0..n-2. They carry their row's ISO date and formatted raw reading ("N/A" for a missing one), and the description is "Detected {k} change points using PELT (l2) over last {n} days.". |
| ChangePointService.ChangePointsOfValidSearch | app/services/change_point_service.py:90-108 | With search output of the assumed shape, a result is returned with one change point per breakpoint but the last, and breakpoint b gives index b - 1. |

## Left out

- Common.IsoDate: the shape and read-back are stated for years below 10000 and months and days below 100; a Python `date` never lies outside that range, while `Date` uses unbounded naturals, and a wider year would render with more digits, as `str()` would for the number.
- The ruptures PELT search (`rpt.Pelt(model="l2").fit(...).predict(pen=1)`) is a library call. It is the parameter `pelt`, applied to the standardised signal and the penalty 1. The commented-out penalty heuristic is not modelled.
- The square root behind numpy's `std` is the parameter `sqrt`. The anomaly analyzer avoids it by comparing squares.
- IEEE double rounding is not modelled: values are exact reals. NaN is modelled only as "missing", and the NaN produced by an all-missing change-point window is carried through as missing values.
- `pd.to_numeric(..., errors="coerce")` in the anomaly analyzer is left out. The column already holds numbers, so it is the identity, and the all-missing check after it is the same check as the one before it.
- The database query in `app/repository/insights_repository.py` is left out. Its contract is kept as the precondition `IsWindow`: at most `limit` rows, oldest first. Its refusal of an unknown metric key is the outcome `UnknownMetric`.
- The HTTP routers, the application wiring and the None → 404 mapping are left out. So are the ORM models, the CSV import, the residents service, the `print` calls and the test fixtures. The response schemas appear only as the datatypes `TrendRead`, `AnomalyRead` and `ChangePointRead`.
- `records_to_df` is left out: the window is already the (date, value) table it builds.
- `str(date)` is modelled as the ISO rendering "YYYY-MM-DD" of a year/month/day triple. Calendar validity of dates is not modelled.
- AnomalyService.ComputeAnomalies takes the threshold as a parameter. The constant the code passes is `AnomalyService.Threshold` (1.0); the module documentation states 3.0 (`AnomalyService.DocumentedThreshold`). The outlier lemmas cover both.
- ChangePointService.ComputeChangePoints says nothing about which breakpoints PELT returns. The step-change test (a break must be found in the decline data) would need the search itself.
- The change-point response holds its description as a plain string: the optional `str | None` field is always set by the analyzer.

Where the code and its comments disagree, the model follows the code:
- The anomaly threshold is 1.0 in the code and 3.0 in the module documentation; both are covered, as said above.
- No rows give no result (`None`), although the anomaly analyzer's documentation promises an empty result with zero anomalies.
- The trend description's minutes read "{m} minutes" as in the code, not "30min" as in the documentation example.
