# Gold monitor dashboard: trailing-change model

A Dafny model of the computational core of the gold-monitor Streamlit page
(`app.py`). The page fetches five daily series (gold price, US dollar index,
nominal 10-year rate, 10-year inflation expectation, real 10-year rate) into
one pandas frame. For each metric with data it shows a card: the latest
value, the lookback count `days_back` (at most thirty observations), the
percent change against the value that many observations earlier, and the
date of the latest observation. The absolute change is computed only as an
input to the percent and is not displayed. Below the cards is a table of the
thirty most recent rows, newest first.

The model pulls that logic out of the rendering loop into pure functions:

- `Wrappers`: `Option` (a NaN cell, a missing reference value) and `Result`.
- `PySeq`: the Python/pandas primitives the page uses. These are `min`,
  positional `iloc` with negative offsets (an out-of-range read is an
  `IndexError`), `tail(n)`, and reversal.
- `Series`: a frame column as dated points, and `dropna` with its
  characterisation by the positions that hold values.
- `Change`: the card computation `ComputeChange`, which yields a `Trailing`
  record: latest value, `days_back`, reference value, change and guarded
  percent change. The card displays the latest value, `days_back` and the
  percent; the reference value and change are intermediate results. The module also holds the properties of that computation.
- `Dashboard`: the frame as dated rows (a column missing from a row's cell
  map is NaN), the five metrics, the per-metric card guard, the card loop,
  and the recent table `df.tail(30).sort_index(ascending=False)`.

Python floats are modelled as Dafny `real`. Dates are day numbers.

## Model

| member | source | states |
|---|---|---|
| `Series.Dropna` | app.py:121 | the result is no longer than the input; `Series.DropnaIsPresent` fixes its contents |
| `Series.DropnaIsPresent` | app.py:121 | `dropna` keeps exactly the cells holding a value, in their original order: its k-th observation is the cell at the k-th present position (same date, same value) |
| `Series.Present` | app.py:121 | the present positions are strictly increasing, in range, each holds a value, and every position holding a value is among them |
| `Series.DropnaEmpty` | app.py:121-122 | the series is empty after `dropna` exactly when every cell of the column is NaN |
| `Series.DropnaLast` | app.py:121-123 | the last observation after `dropna` is a cell of the column with that date and value, and every later cell is NaN |
| `Series.DropnaKeepsOrder` | app.py:121 | on a date-ascending column, the observations after `dropna` are date-ascending too |
| `Series.DropnaIdempotent` | app.py:121 | dropping missing points again changes nothing |
| `Series.DropnaAppend` | app.py:121 | `dropna` of a concatenation is the concatenation of the `dropna`s |
| `PySeq.Min` | app.py:126 | `min(a, b)` is at most both arguments and equal to one of them |
| `PySeq.ILoc` | app.py:128 | `iloc[i]` succeeds exactly when `-len <= i < len` and otherwise raises an `IndexError`; the position and length it carries are the model's own payload, since pandas' message names neither |
| `PySeq.ILocNegativeIsReversed` | app.py:128 | `s.iloc[-k]` for `1 <= k <= len` is element `k-1` of the reversed series, that is `s[len-k]` |
| `PySeq.Tail` | app.py:158 | `tail(n)` has `min(n, len)` elements and is a suffix of the input |
| `PySeq.Reverse` | app.py:158 | the reversal has the same length and element `i` is input element `len-1-i` |
| `PySeq.ReversePermutes` | app.py:158 | reversal keeps the multiset of elements |
| `Change.Percent` | app.py:130 | with a non-zero reference, `pct * previous == change * 100`; with a zero reference, the percent is 0 |
| `Change.ComputeChange` | app.py:123-133 | `current` is the last element; `days_back` is at most 30 and at most `len-1` and equals one of them, and is 30 when `len > 30`; `days_back == 0` iff `len == 1`, and then there is no reference and change and percent are 0; otherwise the reference is element `len-1-days_back`, change is `current - previous`, and the percent follows the zero guard |
| `Change.ReferenceInRange` | app.py:123-128 | both `iloc[-1]` and `iloc[-days_back-1]` are in range; they read positions `len-1` and `(len-1)-days_back`, exactly `days_back` apart, and return the current and reference values |
| `Change.ZeroReference` | app.py:129-130 | a zero reference gives a zero percent change for any latest value |
| `Change.PercentRoundTrip` | app.py:129-130 | with a non-zero reference, growing it by the percent change gives back the current value |
| `Change.PercentSign` | app.py:129-130 | the percent change is positive exactly when the value rose from a positive reference or fell from a negative one |
| `Change.PercentScales` | app.py:130 | the guarded percent does not depend on the unit: scaling change and reference by the same non-zero factor leaves it unchanged, and a zero reference stays zero |
| `Change.OnlyWindowMatters` | app.py:126-130 | once a series has more than 30 points, prepending older history leaves the card's numbers unchanged |
| `Change.GoldMonthScenario` | app.py:123-130 | for 31 points from 1900 to 2000: current 2000, 30 days back, reference 1900, change 100, percent 100/19 |
| `Change.NegativeReferenceScenario` | app.py:128-130 | from a reference of -5 to a current value of -3 the change is +2 and the percent change is -40 |
| `Dashboard.ColumnAscending` | app.py:120-121 | a frame whose dates ascend gives every column ascending dates, so `Series.DropnaKeepsOrder` applies to each card's series |
| `Dashboard.Column` | app.py:120-121 | the column has one point per frame row, with the row's date, and holds a value exactly where the row has a cell for that name |
| `Dashboard.CardFor` | app.py:119-123 | a metric gets a card iff its column exists and has at least one value; the card's current value and latest date come from the last row that has a value for the metric, and every later row has none |
| `Dashboard.WindowOverPresent` | app.py:121-128 | after `dropna`, the lookback is `min(30, n-1)` over the `n` cells that hold a value, and the reference is the present cell that many present positions before the last |
| `Dashboard.CardForTrailing` | app.py:121-133 | a card's lookback counts the rows holding a value for the metric, not frame rows; its reference is the value in the row that many such rows before the last (none when there is one such row); change and percent agree with current and reference under the zero guard |
| `Dashboard.Picked` | app.py:119-122 | the positions at which the loop body yields a result are in range, strictly increasing, each yields a result, and every position that yields one is listed |
| `Dashboard.FilterMap` | app.py:119-122 | the collected results are exactly the loop body's results at the picked positions, one each, in position order |
| `Dashboard.Cards` | app.py:110-133 | the k-th card is the card of the k-th metric that has data: as many cards as such metrics, in metric order, none skipped or repeated |
| `Dashboard.CardsNamed` | app.py:119-123 | the k-th card carries the name and unit of the k-th metric with data |
| `Dashboard.MetricsDistinct` | app.py:110-116 | the five metrics have pairwise distinct column names |
| `Dashboard.PageCards` | app.py:110-133 | the page's cards, over the five metrics: at most five, each names one of the listed metrics with its unit, and no metric has two cards |
| `Dashboard.RecentDesc` | app.py:158 | the recent table has `min(30, rows)` rows, and row `i` is frame row `len-1-i` (the last rows, newest first) |
| `Dashboard.RecentIsSortedTail` | app.py:158 | on a date-ascending frame, the recent table is strictly date-descending and holds exactly the rows of `tail(30)` |
| `Dashboard.DescendingUnique` | app.py:158 | two strictly date-descending tables holding the same rows are equal, so a descending sort has only one possible outcome |
| `Dashboard.RecentIsSortIndex` | app.py:158 | on a date-ascending frame, any date-descending arrangement of `tail(30)` equals the recent table, so reversal is exactly `sort_index(ascending=False)` |

## Left out

- Data fetching (`fetch_data`, app.py:21-73): network calls to the FRED and Yahoo Finance clients, the collection of error strings, and the one-hour `st.cache_data` cache. This is I/O and a foreign-library cache.
- Page layout, markdown, metric widgets, the sidebar key input and the `st.stop` on an empty frame (app.py:13-17, 77-103, 107-116, 136-152, 176-196). This is UI. The five metrics are kept as `Dashboard.Metrics`, without their emoji, and `Dashboard.PageCards` is the card loop over them.
- Number and date formatting (`:.2f`, `:+.2f`, `.date()`, app.py:141, 147, 151, 159) and the CSV download (app.py:165-172). These are presentation and library formatting.
- IEEE floating-point rounding of the change and percent change: values are exact reals.
- How pandas aligns the fetched series into one frame. The frame is taken as given, as dated rows.
- Dashboard.RecentDesc: models `sort_index(ascending=False)` as reversal of the tail. This is exact when the frame's dates strictly ascend, as they do for frames of dated series aligned by pandas (`Dashboard.RecentIsSortIndex`). An unsorted index is not modelled.
