# COT report indicators — a Dafny model

This project models the core of a Commitment of Traders (COT) dashboard.
The `COTAnalyzer` object holds a table with one row per weekly report. Each
row has a date (`Fecha`), a closing price (`Cierre`), open interest (`OI`)
and long/short counts for three trader categories: Non-Commercial (NC),
Commercial (Com) and Retail. The analyzer enriches the table once, in place,
with derived columns. Per category it adds the net position, the long share,
the short share and their spread. It adds a trailing 156-row rolling
minimum and maximum of the net Commercial position and of open interest,
with the stochastic index built from them. It adds the Commercial long and
short counts as percentages of open interest. The chart builder then keeps
the rows whose date lies in the chosen range, both ends included. A missing
bound defaults to the earliest or latest date. From the kept rows it takes
the series of the chart.

Modelling choices:

- Counts and open interest are `int`. Percentages and indices are exact
  `real`s. Where pandas produces NaN, +inf or -inf (a division by zero), the
  model has `None` (`Wrappers.Option`).
- Dates are day ordinals (`int`), already normalised to midnight.
- The table is the class field `data` (input columns, one `Record` per row)
  plus the field `derived` (appended columns, one `Derived` per row).
  `Pipeline.Derive` specifies the appended columns as a function of the
  input columns. `CreateAdditionalColumns` fills an array row by row, using
  `Rolling.RollingExtrema`, the loop that computes the trailing window
  extremes, and is proved equal to `Derive`.
- The window length is the named constant `Pipeline.Window` (156). The
  rolling functions take the window length as a parameter.
- The date filter (`Chart.Select`, `Chart.FilterByDate`) is a pure
  function over the row sequence.

Files: `wrappers.dfy` (Option), `indicators.dfy` (per-row formulas),
`rolling.dfy` (rolling minimum and maximum), `pipeline.dfy` (derived
columns and their properties), `chart.dfy` (date filter and chart series),
`analyzer.dfy` (the `COTAnalyzer` class).

## Model

| member | source | states |
|---|---|---|
| Indicators.PercentSpec | COTReport_8.0.py:29-30 | a percentage `part / whole * 100` is defined iff `whole != 0`; then it times `whole` is `100 * part`; for `0 <= part <= whole` it lies in [0, 100] |
| Indicators.CategorySpec | COTReport_8.0.py:28-51 | net = long - short exactly; the three percentages are defined iff long + short != 0; then long share + short share = 100, spread = long share - short share = net as a percentage of long + short; with non-negative counts both shares lie in [0, 100] |
| Indicators.StochasticInRange | COTReport_8.0.py:67-68 | for low <= x <= high and low < high the index is defined and lies in [0, 100], 0 at low and 100 at high |
| Indicators.Percent | COTReport_8.0.py:29-30 | no contract; `part / whole * 100`, None for a zero `whole`; characterised by `PercentSpec` (also used at lines 38-39, 47-50, 93 and 96) |
| Indicators.Minus | COTReport_8.0.py:31 | no contract; the difference of two percentage columns, undefined if either is; characterised by `CategorySpec` |
| Indicators.Category | COTReport_8.0.py:28-31 | no contract; the four columns of one category (the same formulas at lines 37-40 and 46-51); characterised by `CategorySpec` |
| Indicators.Stochastic | COTReport_8.0.py:67-68 | no contract; the stochastic index (also at lines 82-83); characterised by `StochasticDefined` and `StochasticInRange` |
| Indicators.StochasticDefined | COTReport_8.0.py:67-68 | the index is undefined iff a bound is undefined or high = low; otherwise it times (high - low) is 100 times (x - low) |
| Indicators.StochasticExample | COTReport_8.0.py:67-68 | net 500 in a window from -1000 to 2000 gives an index of exactly 50 |
| Rolling.SeqExtremaSpec | COTReport_8.0.py:61-64 | the minimum of a window is one of its values and no greater than any of them; the maximum is one of its values and no smaller than any of them |
| Rolling.ExtendSlice | COTReport_8.0.py:61-64 | proof helper of the window scan in `WindowExtrema`: extending a slice by one value extends its minimum and maximum by that value |
| Rolling.RollingMin | COTReport_8.0.py:61 | no contract; the rolling minimum at a row (also at line 76); characterised by `RollingBounds` |
| Rolling.RollingMax | COTReport_8.0.py:64 | no contract; the rolling maximum at a row (also at line 79); characterised by `RollingBounds` |
| Rolling.RollingBounds | COTReport_8.0.py:61-64 | rolling lowest/highest are undefined iff the row index is below w - 1; from there on they are attained inside the w values ending at the row, bound all of them, and bracket the row's own value |
| Rolling.WindowExtrema | COTReport_8.0.py:61-64 | one scan of a row's window returns exactly its minimum and maximum |
| Rolling.RollingExtrema | COTReport_8.0.py:61-64 | the computed lowest and highest columns have one entry per row and equal the rolling minimum and maximum at every row |
| Pipeline.NetComColumn | COTReport_8.0.py:61-64 | the "Posiciones Netas Com" series the Commercial window runs over has one entry per row; its entries are stated by `RollingColumns` |
| Pipeline.OIColumn | COTReport_8.0.py:76-79 | the "OI" series the open-interest window runs over has one entry per row; its entries are stated by `RollingColumns` |
| Pipeline.RollingColumns | COTReport_8.0.py:61-79 | entry k of the net Commercial series is row k's Com Long - Com Short, the same as its derived net column, and entry k of the OI series is row k's OI |
| Pipeline.Assemble | COTReport_8.0.py:28-96 | no contract; the derived columns of one row from its record and its rolling bounds; characterised by the `Derive*` lemmas |
| Pipeline.DeriveRow | COTReport_8.0.py:25-96 | no contract; the derived columns of row i of the table; characterised by the `Derive*` lemmas |
| Pipeline.Derive | COTReport_8.0.py:25-99 | the derived columns have exactly one entry per input row |
| Pipeline.DeriveCategories | COTReport_8.0.py:28-51 | for NC, Com and Retail, on every row the columns are `Category` of the row's counts: net = long - short; long share, short share and spread are each defined iff long + short != 0; then the shares add up to 100, the spread is their difference and equals the net as a percentage of long + short |
| Pipeline.DeriveComIndex | COTReport_8.0.py:61-68 | Lowest/Highest Com are undefined on the first 155 rows and afterwards are the min/max of the 156 net Commercial positions ending at the row and bracket its net position; the index is defined iff the row is at index 155 or later and Lowest < Highest, and then lies in [0, 100] and times (Highest - Lowest) is 100 times (net - Lowest); over the table's own rows, Lowest and Highest are each Com Long - Com Short of some row among the 156 ending at the row, and every such row's net lies between them |
| Pipeline.DeriveOIIndex | COTReport_8.0.py:76-83 | the same guarantees as for the Commercial index, over the OI column: undefined bounds on the first 155 rows, then min/max of the trailing 156 OI values bracketing the row's OI; the index is defined iff the range is not flat, lies in [0, 100] and times (Highest - Lowest) is 100 times (OI - Lowest); Lowest and Highest are each the OI of some row among the 156 ending at the row, and every such row's OI lies between them |
| Pipeline.DeriveOIRatios | COTReport_8.0.py:93-96 | CL/OI and CS/OI are undefined iff OI = 0; otherwise they times OI are 100 times Com Long and Com Short |
| Pipeline.DerivePrefix | COTReport_8.0.py:25-99 | no look-ahead: deriving any prefix of the table gives the same derived columns for its rows as deriving the whole table |
| Chart.StartBound | COTReport_8.0.py:103-106 | no contract; the given start date or else the earliest date, undefined for an empty table; characterised by `DefaultBoundsKeepAll` |
| Chart.EndBound | COTReport_8.0.py:108-111 | no contract; the given end date or else the latest date, undefined for an empty table; characterised by `DefaultBoundsKeepAll` |
| Chart.InRange | COTReport_8.0.py:114-117 | no contract; the mask start <= Fecha <= end, false when a bound is undefined; used by the filter lemmas |
| Chart.Select | COTReport_8.0.py:118 | no contract; the rows passing the mask; characterised by `SelectKeepsOrder`, `SelectMembership` and `SelectAppend` |
| Chart.FilterByDate | COTReport_8.0.py:103-118 | no contract; the filter with defaulted bounds; characterised by `DefaultBoundsKeepAll` and `SingleDay` |
| Chart.MinFecha | COTReport_8.0.py:104 | the default start date is a date of the table no later than any other |
| Chart.MaxFecha | COTReport_8.0.py:109 | the default end date is a date of the table no earlier than any other |
| Chart.KeptIndicesIncrease | COTReport_8.0.py:114-118 | the kept positions are positions of the table, in strictly increasing order |
| Chart.KeptIndicesExact | COTReport_8.0.py:114-118 | a position is kept iff its row's date passes start <= Fecha <= end |
| Chart.SelectAtKept | COTReport_8.0.py:118 | the filtered table has one row per kept position, and its j-th row is the table's row at the j-th kept position |
| Chart.SelectKeepsOrder | COTReport_8.0.py:114-118 | the j-th kept row is the row at the j-th kept position; kept positions strictly increase; a position is kept iff its date passes start <= Fecha <= end |
| Chart.SelectMembership | COTReport_8.0.py:114-118 | a row is in the filtered table iff it is in the table and start <= Fecha <= end |
| Chart.SelectAppend | COTReport_8.0.py:114-118 | filtering `a + b` gives the filtered `a` followed by the filtered `b` |
| Chart.SelectAll | COTReport_8.0.py:114-118 | when every row passes the mask the whole table is kept unchanged |
| Chart.SelectEmptyRange | COTReport_8.0.py:114-118 | a start after the end keeps no row: the chart is empty |
| Chart.DefaultBoundsKeepAll | COTReport_8.0.py:103-118 | with both bounds absent (so defaulted to the earliest and latest date) every row is kept, in order |
| Chart.SingleDay | COTReport_8.0.py:114-118 | start = end = d keeps exactly the rows dated d |
| Chart.BuildChart | COTReport_8.0.py:118-147 | the date, Cierre, net NC and net Com series are aligned: each has one entry per filtered row, taken from that row |
| Analyzer.COTAnalyzer.constructor | COTReport_8.0.py:9-13 | the new analyzer holds the given rows and their derived columns, and satisfies `Valid()`: derived == Derive(data) |
| Analyzer.COTAnalyzer.CreateAdditionalColumns | COTReport_8.0.py:25-99 | leaves the input columns, row count and row order unchanged and sets the derived columns to `Derive` of the input |
| Analyzer.COTAnalyzer.PlotDataOneGraph | COTReport_8.0.py:101-147 | returns the chart series of the enriched table filtered to the given or default date range; every point has the date, closing price and NC and Com long minus short of one row of the table |

## Left out

- Reading the CSV file (`pd.read_csv`) and the `file_path` field: file I/O. The constructor takes the rows already read.
- The pandas display settings: configuration of a library, no effect on the data.
- The debug `print` of the ratio columns: output only.
- The `"{:.2f}%"` string formatting of the percentage, index and ratio columns: floating-point rendering. The model keeps these columns numeric. The spread is computed before formatting, as in the source.
- The `strftime('%d %b %y')` date labels: library date formatting. The chart's x series holds the day ordinals.
- `pd.to_datetime` and `datetime.combine` parsing and time-of-day normalisation: dates are already normalised day ordinals.
- Plotly trace styling and layout (names, colours, titles, axis placement, hover mode): a thin wrapper over the plotting library. `ChartData` keeps only the four aligned series.
- `main` and the Streamlit widgets: UI and file system.
- The difference between NaN, +inf and -inf: all three are `None`.
- IEEE-754 rounding: percentages and indices are exact reals.
- 64-bit integer overflow in the net positions: counts are unbounded integers.
- A missing input column: pandas raises `KeyError` at the first access (COTReport_8.0.py:28 onward). `Record` has a fixed schema, so the model has no such case.
- Missing values in the input: the model assumes every count and OI cell is present. In pandas a blank cell makes its column float with NaN, and the rolling bounds of every row whose 156-row window holds that cell are then NaN; the model does not capture this.
- The algorithm pandas uses for rolling extremes: `Rolling.RollingExtrema` scans each window in full. Only its results are modelled.
