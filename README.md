# Financial KPI Forecast: data loading and cleaning

This project models, in Dafny, the loading half of the Streamlit app `app.py`: the logic
that takes a raw price table from one of three data modes and reduces it to the clean
`(ds, y)` series the forecaster is fitted on.

- **Demo dataset.** The built-in table must have the columns `Date`, `Ticker` and `Close`.
  Its distinct tickers are offered in order of first appearance. The rows of the chosen
  ticker are kept and projected to `Date` and `Close`.
- **Upload CSV.** The three-column per-ticker layout is tried first. Then the two-column
  `Date`/`Close` layout is tried. Any other table stops the run.
- **Live quotes.** An empty frame from the quote feed stops the run. Multi-level column
  labels are flattened into `_`-joined, stripped names. The first numeric column whose name
  contains `Close` becomes the price column. If there is none, the run stops.
- **Cleaning.** Dates and prices are coerced, and an unparseable value becomes missing.
  Rows with a missing field are dropped. The survivors keep their order and are renumbered
  from 0. Live data passes through cleaning twice. The model proves that the second pass
  changes nothing.

Modules:

- `Frames`: cells, tables and the library coercions.
- `Subsequences`: mask selection as increasing positions.
- `Shapes`: layout resolution.
- `Tickers`: the ticker list, the selection, and the filter and projection.
- `LiveFeed`: the feed's frame, flattening, and the price-column scan.
- `Cleaning`: coercion and dropping of incomplete rows.
- `Pipeline`: one run of the script, as the method `PrepareSeries`.
- `Examples`: small worked tables.

Facts about the code that a reader might expect otherwise:

- There is no stop for an empty series after cleaning. An empty series goes on to the
  forecaster, and only the catch-all handler reports its failure.
- There is no stop for a series too short to fit.
- Cleaning neither sorts nor de-duplicates dates.
- Demo mode stops when the demo file does not exist.
- Upload mode stops whenever `Date` or `Close` is missing.

## Model

| member | source | states |
|---|---|---|
| `Frames.ToDatetime` | app.py:110 | a missing cell coerces to no date; an already-parsed timestamp coerces to itself |
| `Frames.ToNumeric` | app.py:111 | a missing cell coerces to no number; an already-numeric cell coerces to itself |
| `Shapes.ResolveShape` | app.py:60-68 | per-ticker iff Date, Ticker and Close are all columns (so it wins over the two-column test); single-series iff Date and Close are columns and Ticker is not; unrecognized iff Date or Close is missing |
| `Tickers.Unique` | app.py:50 | the ticker list holds exactly the values of the Ticker column, each once, ordered by first appearance in the data |
| `Tickers.UniqueCharacterized` | app.py:61 | any listing of the column's values in first-appearance order is the ticker list, so the list is determined by those promises |
| `Tickers.Selected` | app.py:51 | the selection box yields a ticker iff the list is non-empty, and the ticker it yields is one of the listed ones |
| `Tickers.TickerColumn` | app.py:50 | the k-th entry is the k-th row's `Ticker` cell, missing when the row has none |
| `Tickers.Matches` | app.py:52 | the row mask `data["Ticker"] == selected_ticker`: a row matches iff a ticker is selected, it is not the missing value, and the row's `Ticker` cell equals it, so a missing (NaN) ticker matches no row, itself included, and no selection (`None`) matches nothing |
| `Tickers.NothingSelectsNoRows` | app.py:52 | with no selection, or with the missing value selected, the per-ticker frame is empty |
| `Tickers.Project` | app.py:52 | the `[["Date", "Close"]]` projection of one row: its `Date` and `Close` cells, missing when absent |
| `Tickers.SelectTicker` | app.py:52 | the per-ticker frame is never longer than the table |
| `Tickers.SelectTickerExact` | app.py:63 | the per-ticker frame is exactly the rows whose Ticker equals the selection, in their original order, each reduced to Date and Close |
| `Tickers.SelectedTickerHasRows` | app.py:50-52 | a listed ticker other than the missing value selects at least one row |
| `Tickers.ProjectAll` | app.py:65 | the two-column layout keeps every row, each reduced to Date and Close |
| `LiveFeed.Quotes.Empty` | app.py:74 | `data.empty`: the frame has no rows or no columns |
| `LiveFeed.Strip` | app.py:80 | the stripped name is an infix of the input, with only whitespace cut from each end and no whitespace at either end of the result |
| `LiveFeed.StripKeeps` | app.py:80 | a name without whitespace at its ends is unchanged by stripping |
| `LiveFeed.StripIdempotent` | app.py:80 | stripping twice equals stripping once |
| `LiveFeed.Join` | app.py:80 | a one-level label joins to that level itself |
| `LiveFeed.SplitJoin` | app.py:80 | splitting a `_`-joined label at `_` gives back its levels when no level contains `_` |
| `LiveFeed.Flatten` | app.py:79-80 | flattening keeps the number and order of columns; the i-th name is the i-th tuple joined by `_` and stripped |
| `LiveFeed.FlattenRecoverable` | app.py:80 | a tuple whose levels contain neither `_` nor whitespace can be read back from its flattened name |
| `LiveFeed.FlattenCanCollide` | app.py:80 | two different tuples can flatten to the same name |
| `LiveFeed.ColumnNames` | app.py:79-80 | after the flattening step there is one name per column |
| `LiveFeed.Contains` | app.py:85 | Python's `"Close" in col`: the substring occurs somewhere in the name |
| `LiveFeed.ContainsIff` | app.py:85 | `Contains(s, sub)` holds iff `sub` is a prefix of some suffix `s[i..]` |
| `LiveFeed.SoleName` | app.py:85 | no other column carries the same name, so `data[col]` is one column; a duplicated name selects a sub-frame, which is not of a numeric dtype |
| `LiveFeed.IsPriceColumn` | app.py:85 | the scan's test: the name contains `Close`, it is the only column with that name, and the column's dtype is numeric |
| `LiveFeed.FirstPriceColumn` | app.py:83-88 | the result is the earliest column whose name contains "Close" and whose data is numeric; no earlier column passes; none is found iff no column passes |
| `LiveFeed.FindPriceColumn` | app.py:83-90 | the loop returns the earliest passing column with no earlier one passing, or none when no column passes |
| `LiveFeed.PriceRows` | app.py:93-96 | row k pairs the k-th Date index entry with the k-th cell of the price column |
| `Cleaning.Usable` | app.py:110-112 | a row survives `dropna(subset=["ds", "y"])` iff its date coerces to a timestamp and its price to a number |
| `Cleaning.Coerce` | app.py:110-111 | a surviving row becomes its coerced timestamp and coerced number |
| `Cleaning.Clean` | app.py:109-112 | the cleaned series is no longer than its input |
| `Cleaning.AsPairs` | app.py:94-98 | after the first pass the frame holds the parsed timestamps and numbers, one row per observation |
| `Cleaning.CleanKeepsExactlyUsable` | app.py:110-112 | the k-th cleaned row is the coerced k-th input row whose date and price both parse; there are as many cleaned rows as such input rows |
| `Cleaning.CleanDropsOnlyUnusable` | app.py:112 | cleaning keeps the full length iff every row's date and price parse |
| `Cleaning.CleanOfParsed` | app.py:109-112 | a frame of parsed timestamps and numbers passes cleaning unchanged |
| `Cleaning.CleanIdempotent` | app.py:109-112 | cleaning the cleaned live series again (after lines 94-97) changes nothing |
| `Pipeline.TickerSeries` | app.py:50-52 | the series of the three-column layout: the table's distinct tickers, the picked one, its rows projected to Date and Close, then cleaned (lines 109-112); no longer than the table |
| `Pipeline.PrepareSeries` | app.py:43-112 | the stop reason for each mode: missing demo file, demo without the three columns, no upload, upload without Date/Close, empty feed, no numeric Close column, Date clash on reset_index. Otherwise the series is the cleaned rows of the selected ticker, of the two-column table, or of the first price column (cleaned once, because the second pass is a no-op). In every mode the series is no longer than its source |
| `Examples.TickerListOfThree` | app.py:50 | a Ticker column reading `a, a, b` lists `a, b` |
| `Examples.DemoTwoTickers` | app.py:49-52 | a demo table with two rows of `a` and one of `b`: picking `a` yields its two observations in order |
| `Examples.UnparseablePriceDropped` | app.py:64-112 | a two-column upload whose only price does not parse cleans to an empty series, without a stop of its own |
| `Examples.LiveCloseColumn` | app.py:83-88 | with columns `ZZZ_Open`, `ZZZ_Close`, `ZZZ_Volume`, the scan picks `ZZZ_Close` when it is numeric and finds nothing when it is not |

## Left out

- The Streamlit interface is not modelled: widgets, messages, the sidebar, the logo and the footer. `st.stop()` is modelled as returning an `Error` value. The mode, the picked ticker position and the symbol are fields of `Config`. `st.selectbox` only returns a listed option. `Tickers.Selected` takes the first option for a position outside the list only so that it is total in the abstract position.
- The existence check on the demo file is not modelled as I/O. `Sources.demoFile` is absent when the file does not exist.
- `pd.read_csv` is not modelled. Tables arrive already read, with one value per cell.
- `yf.download` is a network call. It is the function `Sources.download` from symbol to frame. The frame's index is taken to be named `Date`.
- `pd.to_datetime` and `pd.to_numeric` on raw text and numbers are the uninterpreted functions in `Parsers`.
- The model coerces each cell on its own. pandas may infer one date format from a column's first values and apply it to the whole column, so that per-column behaviour is not captured.
- Prices are reals. `astype(float)` and floating-point rounding are not modelled.
- Whether a column has a numeric dtype is a flag on each live column.
- A duplicated column name selects a sub-frame, whose type is not a numeric dtype. The scan therefore skips such a column.
- Prophet fitting, prediction, the 30-day horizon, the Plotly chart and the forecast preview (app.py:114-137) are not modelled. They are a floating-point library and rendering.
- The catch-all handler at app.py:139-140 is `Error.Unexpected`. Only the `Date` clash in `reset_index` raises it in the model. Other exceptions are not modelled: a non-string level in `'_'.join`, or Prophet failing on an empty or too-short series.
- Renaming `Date`/`Close` to `ds`/`y` is not modelled as a separate step. The two-column frame is positional (`Pair`), so the rename moves no cell.
- The in-place assignment `data.columns = ...` is modelled as replacing the frame value. No other reference to the frame exists, so no aliasing is lost.
