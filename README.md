# Stock change analysis — a verified model

This project models the analysis logic of `stock-change-strategy.py`, a small
Streamlit app. The app takes a comma-separated list of stock tickers and a
threshold in percent. For each ticker it takes five years of monthly Open/Close
prices and computes every month's change `(Close - Open) / Open * 100`. It counts
the months whose change is strictly larger than the threshold in magnitude, and
it picks a signed "peak" change. Then it builds a table of one row per ticker that
had data, sorts the table by that count, and lists the tickers that never
exceeded the threshold.

Four modules follow the program's structure:

- `ChangeAnalysis` (`analysis.dfy`) is `calculate_threshold_exceeds`. It uses pure
  functions over a series of `Period(open, close)` bars of exact `real` prices.
  The peak is characterised on its own by `IsPeak`: it is a month's change, no
  change has a larger magnitude, and among the changes of largest magnitude it is
  the least. So a fall wins a tie with a rise of the same size.
- `TickerParsing` (`tickers.dfy`) is line 26: `split(',')` and `strip()` with
  Python's whitespace set. Empty pieces are kept. It proves round trips between
  splitting and joining, and that stripping removes exactly the surrounding
  whitespace.
- `ResultTable` (`results.dfy`) holds the `Summary` row, the sort by exceed count
  and the zero-count filter. The sort is stated as "ordered by count and a
  permutation of its input" and nothing more.
- `Orchestrator` (`orchestrator.dfy`) is the run block. `RunAnalysis` is a method
  with a loop whose invariant ties the rows and warnings built so far to the
  processed prefix of the tickers. `Tabulate` then gives the "no valid data" error
  or the sorted table and its never-exceeded rows.

The market-data fetch is not modelled. `fetched[i]` is the series the data
service returned for `tickers[i]`.

Two points where a reader might expect something else from the code:

- For monthly changes of +2 %, +3 % and -1 %, the code reports a peak of +3.0,
  because |3| > |-1|; a reader might expect -1.0 here (`SmallMovesExample`).
- `sort_values` uses a quicksort, which is not stable. So no order is promised
  for rows with equal counts; input order in particular is not.

## Model

| member | source | states |
|---|---|---|
| ChangeAnalysis.PercentChange | stock-change-strategy.py:13 | the change is the percent move that carries the open to the close (`close == open * (1 + change/100)`), and for a positive open it is positive exactly when the close is above the open |
| ChangeAnalysis.Changes | stock-change-strategy.py:13 | the `Monthly_Change` column has one entry per month, and each entry is the percent move that carries that month's open to its close |
| ChangeAnalysis.CountExceeding | stock-change-strategy.py:14 | the summed boolean column `abs() > threshold` is at most the number of months |
| ChangeAnalysis.CountIsNumberOfExceedingPositions | stock-change-strategy.py:14 | the sum equals the number of positions whose change is strictly above the threshold in magnitude |
| ChangeAnalysis.CountZeroIffNoneExceeds | stock-change-strategy.py:14 | the count is 0 exactly when no change exceeds the threshold |
| ChangeAnalysis.CountFullIffAllExceed | stock-change-strategy.py:14 | the count equals the number of months exactly when every change exceeds the threshold |
| ChangeAnalysis.MaxOf | stock-change-strategy.py:15 | the column maximum is one of the changes and no change is larger |
| ChangeAnalysis.MinOf | stock-change-strategy.py:16 | the column minimum is one of the changes and no change is smaller |
| ChangeAnalysis.PeakIsUnique | stock-change-strategy.py:17-20 | the peak characterisation (largest magnitude, least among equal magnitudes) picks at most one value |
| ChangeAnalysis.Analyze | stock-change-strategy.py:10-20 | an empty series gives an absent peak and a count of 0 for any threshold; a peak is present exactly when the series has data; the count never exceeds the number of months |
| ChangeAnalysis.ExceedCountIsNumberOfExceedingMonths | stock-change-strategy.py:14 | the returned count is the number of months whose percent change is strictly above the threshold in magnitude |
| ChangeAnalysis.PeakHasLargestMagnitude | stock-change-strategy.py:15-20 | the returned peak is a month's change, its magnitude is at least every change's, and it is the least of the changes of that magnitude |
| ChangeAnalysis.PeakIsMaxOrMin | stock-change-strategy.py:15-20 | the peak is the maximum or the minimum, and it is the maximum rather than the minimum exactly when the maximum's magnitude is strictly larger |
| ChangeAnalysis.TieGoesToTheFall | stock-change-strategy.py:17-20 | when a rise and a fall of the same size are the largest moves, the fall is reported |
| ChangeAnalysis.ZeroCountIffQuiet | stock-change-strategy.py:14 | a series has count 0 exactly when every month moved by at most the threshold |
| ChangeAnalysis.SmallMovesExample | stock-change-strategy.py:13-20 | changes of +2 %, +3 %, -1 % against 10 % give count 0 and peak +3.0 |
| TickerParsing.Split | stock-change-strategy.py:26 | `split(',')` yields the number of commas plus one pieces, none of which holds a comma |
| TickerParsing.JoinSplit | stock-change-strategy.py:26 | joining the pieces with commas gives back the input |
| TickerParsing.SplitJoin | stock-change-strategy.py:26 | splitting comma-free pieces joined by commas gives back those pieces, empty ones included |
| TickerParsing.Strip | stock-change-strategy.py:26 | `strip()` leaves text that neither starts nor ends with whitespace, is a contiguous middle of the input, and drops only whitespace before and after that middle |
| TickerParsing.StripPadded | stock-change-strategy.py:26 | any trimmed text padded with whitespace on both sides strips back to itself |
| TickerParsing.StripIdempotent | stock-change-strategy.py:26 | stripping twice is stripping once |
| TickerParsing.ParseTickers | stock-change-strategy.py:26 | the ticker list has one entry per comma plus one, each comma-free and without surrounding whitespace |
| TickerParsing.ParsedTickerIsPiece | stock-change-strategy.py:26 | the i-th ticker is the i-th comma-separated piece with only its surrounding whitespace removed |
| TickerParsing.ParseJoined | stock-change-strategy.py:26 | parsing a comma-joined list of whitespace-padded tickers gives exactly those tickers, empty ones kept |
| TickerParsing.ParseKeepsEmptyPiece | stock-change-strategy.py:26 | " AAPL ,, MSFT" parses to "AAPL", "", "MSFT" |
| ResultTable.SortByCount | stock-change-strategy.py:53 | the sorted table is non-decreasing by exceed count and a permutation of the results |
| ResultTable.NeverExceeded | stock-change-strategy.py:59 | the `count == 0` mask keeps no more rows than the table has, and every kept row has count 0 |
| ResultTable.NeverExceededKeepsZeroRows | stock-change-strategy.py:59 | the filter keeps each zero-count row exactly as many times as the table holds it and drops every row with a positive count |
| ResultTable.NeverExceededIsPrefix | stock-change-strategy.py:59 | in a table sorted by count the zero-count rows are a prefix, and every later row has a positive count |
| ResultTable.NeverExceededMembers | stock-change-strategy.py:59 | a row is listed as never exceeding exactly when it is in the table with count 0 |
| Orchestrator.RoundHalfEven | stock-change-strategy.py:42 | the whole number chosen is within 0.5 of its argument, and on an exact tie it is even |
| Orchestrator.Round2 | stock-change-strategy.py:42 | `round(x, 2)` is a whole number of hundredths within 0.005 of x, and on an exact tie the number of hundredths is even |
| Orchestrator.Summarize | stock-change-strategy.py:40-44 | a row carries the ticker, the analysis count and `round(peak, 2)` of the analysis peak: a whole number of hundredths within 0.005 of the peak |
| Orchestrator.Entry | stock-change-strategy.py:37-46 | one loop pass yields no row exactly when the series is empty, and otherwise the ticker's summary row |
| Orchestrator.Collected | stock-change-strategy.py:34-46 | the loop appends at most one row per ticker |
| Orchestrator.Skipped | stock-change-strategy.py:36-46 | the loop warns at most once per ticker |
| Orchestrator.PositionsWhereAreExact | stock-change-strategy.py:36-46 | the positions of tickers with (or without) data are listed in ascending order and none is missed |
| Orchestrator.CollectedFollowsTickers | stock-change-strategy.py:36-46 | the k-th row is the summary of the k-th ticker whose series is not empty, so rows follow input order and tickers without data are dropped |
| Orchestrator.SkippedFollowsTickers | stock-change-strategy.py:36-46 | the k-th warning names the k-th ticker whose series is empty |
| Orchestrator.RowOrWarningPerTicker | stock-change-strategy.py:36-46 | every ticker gets either a row or a warning |
| Orchestrator.NothingCollectedIffNoData | stock-change-strategy.py:36-48 | no row is collected exactly when every ticker's series is empty |
| Orchestrator.Tabulate | stock-change-strategy.py:48-66 | "no valid data" exactly when no row was collected; otherwise the table is sorted by count and a permutation of the rows, and the never-exceeded rows are its zero-count rows, a prefix of it |
| Orchestrator.RunAnalysis | stock-change-strategy.py:34-66 | the loop's warnings are the tickers without data in order, and the report tabulates the rows collected in ticker order |

## Left out

- The data fetch (`fetch_stock_data`, lines 5-8) calls an external market-data service. Its result for each ticker is an input (`fetched`), so network failures that would abort the loop are not modelled.
- The Streamlit I/O is presentation only and is not modelled: the title, the input widgets, the button, the subheaders, the tables and the message texts. The per-ticker warning is modelled as the list of warned tickers. The error is modelled as the `NoValidData` report. The "all exceeded" message is the case where the never-exceeded rows are empty.
- Floating point is not modelled: prices and changes are exact reals. NaN and infinity are left out, and so is pandas' NaN-skipping in `max` and `min`. Every open price must be non-zero (the `NonZeroPrice` type of `Period.open`), so the division by zero at line 13 is excluded.
- Orchestrator.Round2: rounds the exact real value half-to-even. Python's `round` works on the binary float, which can round a decimal tie such as 2.675 downwards.
- The DataFrame machinery is not modelled: the `Monthly_Change` column added to the caller's frame (its only reader is the analysis itself), `reset_index`, and the column name built from the threshold with an f-string (line 43).
- The never-exceeded table keeps whole rows. The projection to the Ticker and count columns at line 62 is display only.
- ResultTable.SortByCount: promises no order among rows with equal counts, because the library's default quicksort does not. The model's own insertion sort has some order for equal counts, but nothing states or uses it.
