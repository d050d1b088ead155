# Monthly macro-series pipeline, modelled in Dafny

The script `main.py` downloads five FRED series. These are CPI (`CPIAUCSL`),
the federal funds rate (`FEDFUNDS`), the Nasdaq composite (`NASDAQCOM`),
VIX (`VIXCLS`) and the University of Michigan consumer sentiment index
(`UMCSENT`). The script then shapes them into one monthly table and averages
that table by calendar year before asking a text model for a report.
This project models the shaping. It has four stages, and each pandas call is
spelled out as an operation on sequences.

1. `fetch_monthly` runs `resample("ME").last().ffill()`. This is module
   `Resampling`. Raw observations are bucketed by calendar month, and each month
   keeps the last observation that has a value. Months with no value take
   the value of the nearest earlier month. Months before the first value stay
   missing.
2. `pct_change(periods=12, fill_method=None) * 100` is module `Transform`. It
   compares each month with the position twelve earlier. On the gap-free
   resampled index, that position is the same month one year before.
3. `pd.concat(..., axis=1).dropna()` is module `Alignment`. This is an outer
   join on the month index followed by dropping incomplete rows, so a month
   survives exactly when all five columns have a value there.
4. The yearly loop over `end_year - 4 .. end_year` is module `Yearly`. Each
   year that has rows gets every column's mean over those rows. Years without
   rows are skipped.

Module `Scenarios` states what the stages give on small concrete inputs.
Module `Pipeline` ties the stages together in the order `main` runs them. It
also models the two aborts: a missing essential series (CPI, federal funds
rate, Nasdaq), and a table that `dropna` leaves empty. Both are `Failure`
values rather than `sys.exit(1)`. The downloads and the current year are
parameters.

Months are integers `year * 12 + (month - 1)` (`Calendar`). A monthly series is
a sequence of `Point(month, value)`, where `value: Option<real>` and `None`
stands for NaN.

## Model

| member | source | states |
|---|---|---|
| Calendar.MonthIndexRoundTrip | main.py:22-23 | A month bucket label decodes back to the year and month of the timestamp it was built from |
| Calendar.MonthIndexInjective | main.py:22-23 | Two timestamps land in the same month bucket exactly when they share year and month |
| Calendar.TwelveBackIsYearBefore | main.py:57 | Twelve months back is the same calendar month of the previous year |
| Resampling.LastIndex | main.py:23 | Among the observations of a month that have a value, the position chosen is the latest by date, ties going to the later input position; none exactly when the month has no value |
| Resampling.MonthLast | main.py:23 | `.last()` gives a month the value of its unique last non-missing observation, and is missing exactly when no observation of that month has a value |
| Resampling.MonthEndLast | main.py:23 | The month-end index runs gap-free from the month of the earliest timestamp to the month of the latest; each month holds its `.last()` value; empty input gives an empty index |
| Resampling.FetchMonthly | main.py:16-25 | No series or an empty one gives an empty monthly series, and only then; anything else is resampled and forward-filled |
| Resampling.ForwardFillSpec | main.py:23 | `ffill` keeps index and length; a position is missing afterwards exactly when nothing at or before it had a value, otherwise it holds the nearest earlier value |
| Resampling.ForwardFillIdempotent | main.py:23 | Filling a filled series again changes nothing |
| Resampling.ResampleIndex | main.py:22-23 | The resampled index is empty exactly for empty input; otherwise it is gap-free and spans from the earliest to the latest timestamp's month |
| Resampling.ResampleMissing | main.py:23 | A resampled month is missing exactly when no observation with a value falls in it or an earlier month, so the left edge is never filled |
| Resampling.ResampleCarried | main.py:23 | A resampled month with a value holds the last value of the latest month at or before it that had one, and conversely that observation is exactly the value the month holds |
| Transform.PercentChange | main.py:57-58 | A change is defined exactly when both values exist and the base is non-zero, and applying it to the base gives back the current value |
| Transform.PctChange | main.py:57-58 | The change keeps index and length; the first `periods` positions are missing; later positions are defined exactly when both ends have values and the base is non-zero, and they invert back to the current value |
| Transform.YearOverYearAligned | main.py:57 | On a gap-free monthly index, the value twelve positions back is the same calendar month of the previous year |
| Transform.PctChangeContiguous | main.py:57-58 | The change keeps a gap-free index gap-free |
| Transform.PctChangeSign | main.py:57-58 | Against a positive base, the change is positive exactly when the value rose |
| Alignment.ValueAt | main.py:60-69 | Aligning a column on a month reads the value at that month's label, or missing when the column has no such label |
| Alignment.Join | main.py:60-71 | A month is a row of the joined table exactly when every column has a value there; each cell equals the column's value unchanged; rows ascend strictly by month |
| Alignment.EmptyColumnEmptiesJoin | main.py:60-71 | A column with no points leaves the joined table empty |
| Yearly.RowsOfYearMembers | main.py:84 | A row is selected for a year exactly when it is a table row whose month falls in that year |
| Yearly.MeanBounds | main.py:86 | A column mean lies within any bounds that hold for all of that column's values |
| Yearly.YearTotals | main.py:84-86 | The count of a year's rows and every column's total over exactly those rows |
| Yearly.AverageOfYear | main.py:84-86 | A year gets an entry exactly when it has rows, and the entry holds each column's arithmetic mean over those rows |
| Yearly.YearlyAverages | main.py:79-86 | The result lists exactly the years of `end_year - 4 .. end_year` that have rows, in ascending order, each with every column's mean over that year's rows |
| Pipeline.ChangeColumnsByName | main.py:57-69 | Columns 0 and 2 of the table are inflation and the Nasdaq return, and each is the twelve-month change of its resampled download (CPI, Nasdaq composite) |
| Pipeline.LevelColumnsByName | main.py:60-69 | Columns 1, 3 and 4 are the federal funds rate, VIX and consumer sentiment, each its resampled download unchanged |
| Pipeline.BuildTable | main.py:52-74 | The run stops as missing-essential exactly when the CPI, federal funds or Nasdaq download is absent or empty. It stops as empty-table exactly when those exist but no month has all five values. Otherwise the table is non-empty and ascending, it holds exactly the complete months with their values, and every row has one cell per indicator |
| Pipeline.Analyze | main.py:45-86 | The run fails exactly when building the table fails, with the same reason; on success it returns that table, five cells per row, and its yearly averages |
| Pipeline.AuxiliaryEmptyAborts | main.py:60-74 | An empty VIX or sentiment series does not trip the essential check, but the run then stops at the empty-table check |
| Pipeline.YearOverYearAt | main.py:57 | A year-over-year change found at a month relates the values at that month and the same month a year earlier |
| Pipeline.InflationIsYearOverYear | main.py:57-71 | The inflation cell of a row is the percent change of resampled CPI from the same month of the previous year |
| Pipeline.NasdaqReturnIsYearOverYear | main.py:58-71 | The Nasdaq-return cell of a row is the percent change of the resampled Nasdaq composite from the same month of the previous year |
| Scenarios.JoinExample | main.py:60-71 | Joining a column with January and February to one with only February keeps one row, February, with both values |
| Scenarios.CpiSpan | main.py:23 | CPI observed in January and February of 2020 and 2021 resamples to the fourteen consecutive months between them |
| Scenarios.CpiForwardFilled | main.py:23 | In that series, March to December 2020 take February 2020's value |
| Scenarios.CpiYearOverYear | main.py:57 | In that series, the January 2021 change compares with January 2020 and is 5 percent |

## Left out

- Downloading from FRED (`Fred.get_series`, main.py:18 and 34) and the API-key check (main.py:30-32). The downloads are a parameter of type `Downloads`. `None` stands for `get_series` returning None. An exception raised by `get_series` is not caught by `main` and is not modelled.
- Gemini configuration and the call to it (main.py:36-43, 129-143). This is an external text service.
- The prompt text and the `metrics_str` rendering (main.py:88-127). This is float-to-text formatting with `:.2f`. The fixed indicator order is kept as `Pipeline.Indicators`. The `%` suffix for every indicator except VIX and sentiment (main.py:104-107) is not modelled.
- Writing the report (`save_analysis_to_txt` in utils.py, and the fallback writer at main.py:146-156). This is filesystem I/O with a clock-based file name.
- config.py only loads environment variables.
- Logging, and `sys.exit`, which becomes a `Failure` result.
- `pd.Timestamp.now().year` (main.py:79) becomes the `endYear` parameter.
- Floating point. Values are exact reals, so sums, means and percent changes carry no rounding.
- Time of day. A timestamp is a date, and `day` only orders observations inside a month. The pandas resampler sorts the index with a stable sort. The model follows that: the latest day wins, and a tie goes to the later input position.
- Transform.PercentChange: a zero base gives a missing value. pandas gives `inf` or `-inf` there, which `dropna` keeps, and `NaN` for `0/0`. The model does not carry infinities through the join and the means.
- Pipeline.Analyze: the log line with the table's date range (main.py:76) is not modelled.

Choices where the code's behaviour is kept:
- Months before the first value stay in the resampled series as missing values, since `ffill` has nothing to carry into them (main.py:23).
- The first twelve positions of a change stay as missing values; they disappear only at `dropna` (main.py:57-71).
- `PctChange` takes any `periods: nat`; the code passes only 12 and has no check on the lag.
- `pd.concat` of no columns raises, so `Join` requires at least one column. The code always passes five.
