# Stock profit/loss tracker: position valuation

A model of the valuation pipeline of the Stock P/L Tracker, a single-page
app. The user gives a ticker, a buy date, a share count and a buy price. The
app fetches the daily price history for the ticker since the buy date and
reports these figures against the latest price:

- the purchase value;
- the current value;
- the profit and the profit percentage;
- the portfolio value and the profit on every trading day.

The model covers four things:

- the filter applied to the fetched table;
- the choice of the price column (`Close`, then `Adj Close`);
- the summary arithmetic, including the zero-purchase-value guard;
- the two derived series, which are aligned to the price series' rows.

Prices are exact `real`s. A missing quote (NaN in the data frame) is `None`.
Trading days are opaque `Date` values. A table is its row index plus a map
from column name to a column with one entry per row.

Modules:

- `Wrappers`: `Option`.
- `PriceData`: tables, series, the fetch filter and the column choice.
- `Valuation`: the latest price, the summary, the derived series and the
  date of the latest-data row.
- `Tracker`: one render pass, and how it ends (`NoTicker`, `Unavailable`,
  `NoClosePrices`, `LatestPriceMissing` or `Valued`).

The source's own comments (stock-tracker.py:28 and stock-tracker.py:42)
present the adjusted close as an alternative to `Close`, and lines 45-46 read
`Adj Close` when there is no `Close` column. But `fetch_history` already discards every table
without `Close` (stock-tracker.py:29), so lines 45-49 never run. The model
keeps the column choice as written, and `Tracker.AdjustedCloseNeverUsed`
proves that the fallback is dead.

## Model

| member | source | states |
|---|---|---|
| `PriceData.AcceptFetched` | stock-tracker.py:29-31 | A fetched table is passed on exactly when the provider did not fail, the table has a `Close` column and it has at least one row; a table that is passed on is the provider's table unchanged and is not empty |
| `PriceData.SelectPriceSeries` | stock-tracker.py:43-49 | A price series exists exactly when `Close` or `Adj Close` is a column; `Close` is preferred and `Adj Close` is used only without it; the series keeps the table's row index and has one entry per row |
| `Valuation.DropMissing` | stock-tracker.py:53 | Dropping missing entries keeps exactly the quoted prices, is no longer than the column, and is empty exactly when every entry is missing |
| `Valuation.DropMissingAppend` | stock-tracker.py:53 | Dropping missing entries distributes over concatenation, so the quoted prices stay in row order with their repetitions |
| `Valuation.LastPresent` | stock-tracker.py:53 | Gives the row that holds a price with no price on any later row, or nothing exactly when every entry is missing |
| `Valuation.LatestPrice` | stock-tracker.py:53 | The last element after dropping missing entries; absent (pandas raises) exactly when every entry is missing; otherwise one of the quoted prices |
| `Valuation.LatestPriceIsLastPresent` | stock-tracker.py:53 | The latest price is the price on the last quoted row |
| `Valuation.PurchaseValue` | stock-tracker.py:52 | Non-negative when shares and buy price are (both inputs have a minimum of 0); zero exactly when the share count or the buy price is zero |
| `Valuation.ProfitPercent` | stock-tracker.py:56 | Zero when the purchase value is zero; otherwise the percentage times the purchase value is 100 times the profit |
| `Valuation.ProfitPercentSign` | stock-tracker.py:56 | With a positive purchase value, the percentage is positive exactly when the profit is, and negative exactly when the profit is |
| `Valuation.ProfitPercentIsPriceChange` | stock-tracker.py:52-56 | With positive shares and buy price, the percentage is the relative change from buy price to latest price, whatever the share count |
| `Valuation.ValueSeries` | stock-tracker.py:59 | Same length as the price series; each entry is the share count times that row's price, and is missing exactly where the price is |
| `Valuation.ProfitSeries` | stock-tracker.py:60 | Same length as the value series; each entry is that row's value less the purchase value, and is missing exactly where the value is |
| `Valuation.Summarize` | stock-tracker.py:52-56 | Fails exactly when every price is missing; otherwise purchase value = shares × buy price, latest price = last quoted price, current value = shares × latest price, profit = current value − purchase value, and the percentage obeys the zero guard |
| `Valuation.Valuate` | stock-tracker.py:52-60 | Fails exactly when every price is missing; otherwise the value and profit series have the price series' index and length, are the pointwise product and difference, and carry the summary of the position against that price column |
| `Valuation.SummaryIsSeriesAtLatest` | stock-tracker.py:53-60 | On the last quoted row, the price is the latest price, the value series holds the current value and the profit series holds the summary profit |
| `Valuation.ProfitSeriesIsPriceGain` | stock-tracker.py:52-60 | On a quoted row the profit is shares × (price − buy price); on an unquoted row the value and the profit are missing as well |
| `Valuation.ExampleValuation` | stock-tracker.py:52-56 | Ten shares bought at 130 and last quoted at 150 give purchase value 1300, current value 1500, profit 200 and percentage 200/13 |
| `Valuation.LatestRowDateAsWritten` | stock-tracker.py:87 | The date the latest-data row carries as written is one of the series' dates (the last row's) |
| `Valuation.LatestRowDateAsWrittenIsCorrectIff` | stock-tracker.py:87 | For every series: when the last row has a price, the as-written date equals the corrected date; when the last row has none but an earlier row does and no date repeats, the two differ |
| `Valuation.LatestRowDateAsWrittenMislabels` | stock-tracker.py:87 | With a missing last quote, the row as written pairs the last date with the price of an earlier date |
| `Valuation.LatestRowDate` | stock-tracker.py:87 | Corrected date: present exactly when a latest price exists, and it is the date of the last quoted row |
| `Tracker.Run` | stock-tracker.py:35-60 | A blank ticker ends the pass before any fetch; the pass is unavailable exactly when the fetched table is rejected; it is valued exactly when the ticker is not blank, the table is accepted and some `Close` entry has a price; a valued report is the valuation of the `Close` column for the given shares and buy price, on the fetched table's row index |
| `Tracker.AdjustedCloseNeverUsed` | stock-tracker.py:29-49 | No pass ends for want of a price column, and a valued pass always reads the `Close` column |
| `Tracker.LatestPriceMissingIff` | stock-tracker.py:39-53 | A pass fails at the latest-price lookup exactly when the table was accepted but every `Close` entry is missing |

## Findings

| source | as written | input that shows it | evidently intended | confidence | as-written member | corrected member |
|---|---|---|---|---|---|---|
| stock-tracker.py:87 | The latest-data row is dated `price_series.index[-1]`, the last row, but its price is the last non-missing price (line 53) | Close = [100.0, NaN] on days D0, D1: the row reads "D1, 100.0", but 100.0 is the price on D0 and D1 has no price | Date the row at the last quoted row, where the price it shows was taken | medium (a trailing missing quote must occur in the provider's data); not executed | `Valuation.LatestRowDateAsWritten`, `Valuation.LatestRowDateAsWrittenMislabels`, `Valuation.LatestRowDateAsWrittenIsCorrectIff` | `Valuation.LatestRowDate` |

## Left out

- The page layout, input widgets, metrics, the latest-data table, error and info messages and the download button (lines 7-21, 62-67, 84-93, 102-104). These are presentation only. The one exception is the date on the latest-data row (line 87): it is modelled on its own, under "Findings", and the valuation report carries no date. The ticker, the share count and the buy price are parameters of `Tracker.Run`, and the terminal `Outcome` stands for the message shown.
- The provider call, its exception handling and the 30-minute result cache (lines 23-33). This is network I/O in an outside library. The provider's answer is a parameter of `Tracker.Run`; `None` stands for an exception.
- The buy date and today's date (lines 16, 36). The buy date is a user input (only its default comes from the clock) and today's date comes from the clock; both only choose what the provider returns, so the model takes the provider's answer in their place.
- The two charts (lines 69-82) and the currency and percentage formatting (lines 64-67, 93). These are rendering only.
- The CSV export (lines 95-101). It is a thin wrapper over a library serialiser whose quoting and float format are not visible, so the export round-trip is not modelled.
- Ticker normalisation with `upper()` and `strip()` (line 15). It is a Unicode-aware builtin. `Tracker.Run` takes the ticker already normalised.
- IEEE floating point: prices and amounts are exact reals. Rounding and NaN arithmetic are not modelled, apart from a missing quote propagating through the derived series.
- The strictly increasing date order of the index is not assumed or used. The valuation works by row position.
