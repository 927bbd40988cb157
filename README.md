# Gender pay gap dashboard — table logic in Dafny

This project models the two pieces of table logic under the charts of a
small Streamlit dashboard about the gender pay gap in Europe:

* **Cleaning** (`missing_data.py`): the raw table (Country, Year, GDP,
  Urban_population, one column per economic sector) is grouped by Country,
  each country's column means are computed once, and then a nested loop over
  rows and columns overwrites every missing cell in place with the mean of
  the same column over the same country's rows.
* **Filtering and shaping** (`main.py`): the inclusive year-range view, the
  year-range-and-country view, the sector columns offered for selection
  (column 5 onward, because the cleaned file carries a leading index column),
  the latest-year slice, its transposition into (Sector, Pay_gap) bars, the
  rule that highlights the largest and smallest bar, the trailing moving
  averages for windows 3, 5 and 7 and the melt into (Year, Variables, Values)
  rows.

Missing values (pandas' NaN) are `None` of `Optional.Option`; numbers are
exact `real`s.

Files:

* `option.dfy` — `Optional.Option`.
* `stats.dfy` — `Stats`: sum, mean, max, min and the NaN-skipping `Present`.
* `missing_data.dfy` — `MissingData`: the raw table as `RawRow`s (a country
  and its numeric cells in column order), the group means, the cleaned table
  `Imputed` as a function, and the in-place loop `FillMissing` over an
  `array<RawRow>`, proved to produce exactly `Imputed` of the old contents.
* `dashboard.dfy` — `Dashboard`: `Record`, the views, the latest-year
  slice, the transpose and the highlight predicate.
* `moving_average.dfy` — `MovingAverage`: the rolling mean, the loop that
  builds the three moving-average columns, the melt and the trend-chart table.

Three points of the code that shape the model:

* The "Key Metrics" section (main.py:118-121) writes a heading and lays out
  two empty columns; it computes no metric, so nothing is modelled for it.
* The moving averages (main.py:93) roll over the view's rows in table order;
  nothing sorts the rows by Year first, and the model keeps table order.
* Naming the columns of the transposed latest-year slice (main.py:60-62)
  gives two labels, which fails unless the transposed frame has exactly two
  columns, that is unless the slice has exactly one row.
  `Dashboard.Transpose` returns `None` for every other slice, the empty one
  included.

## Model

| member | source | states |
|---|---|---|
| `Stats.Mean` | missing_data.py:12 | the mean is undefined exactly when there are no observations; otherwise mean times count equals the sum |
| `Stats.MeanBetweenMinAndMax` | missing_data.py:12 | a mean of observations lies between their smallest and largest value |
| `MissingData.CountryRows` | missing_data.py:12 | a row is in country c's group if and only if it is a row of the table from c |
| `MissingData.CountryRowsCounts` | missing_data.py:12 | the group holds every row of country c exactly as often as the table does, and no row of another country |
| `MissingData.CountryRowsAppend` | missing_data.py:12 | the group keeps table order: the group of two concatenated tables is the first table's group followed by the second's |
| `MissingData.GroupMean` | missing_data.py:12 | a country's mean for a column is defined if and only if some row of that country has an observed value there |
| `MissingData.CountryMeans` | missing_data.py:12 | the means table has one entry per country of the table and one mean per column, each the country's group mean |
| `MissingData.FillRow` | missing_data.py:17-21 | filling a row keeps its country, its width and every observed cell, and leaves a cell missing exactly when it was missing and the country has no observed value in that column |
| `MissingData.FillRows` | missing_data.py:15-21 | the filled table has one row per raw row, and row i is raw row i filled on its own from the source table's group means |
| `MissingData.Imputed` | missing_data.py:15-21 | cleaning keeps the number and order of rows, every row's country and width, and every observed cell |
| `MissingData.FillMissing` | missing_data.py:12-21 | the nested in-place loop, with means taken before the first write, leaves the array equal to `Imputed` of its old contents |
| `MissingData.FillCells` | missing_data.py:17-21 | the loop over one row's columns overwrites each missing cell with that column's country mean and changes no observed cell and no other row |
| `MissingData.ImputedMissingCell` | missing_data.py:19-21 | a missing cell becomes its own country's mean for its column, and stays missing exactly when that country has no observed value there |
| `MissingData.ImputedWithinOwnCountryRange` | missing_data.py:12-21 | a filled value lies between a value observed in the same country's column and another one observed there |
| `MissingData.ImputedOwnCountry` | missing_data.py:12-21 | two raw tables that agree on country c's rows give the same cleaned rows for c, whatever the other countries hold |
| `MissingData.ImputedComplete` | missing_data.py:12-21 | if every country has an observed value in every column, no cell is missing after cleaning |
| `MissingData.ImputedKeepsGroupMean` | missing_data.py:12-21 | cleaning leaves every country's column mean unchanged |
| `MissingData.FillColumnKeepsMean` | missing_data.py:20-21 | filling a column's missing cells with that column's mean does not change its mean |
| `MissingData.ImputeIdempotent` | missing_data.py:12-21 | cleaning a cleaned table changes nothing |
| `MissingData.OwnCountryScenario` | missing_data.py:12-21 | with A = {x, missing} and B = {p, q}, A's missing cell becomes x, A's own mean, whatever B holds (x = 10, p = 30, q = 20 gives 10, not the overall mean 20) |
| `MissingData.ScenarioMeanOfA` | missing_data.py:12 | in that table, A's group mean for the sector column is x |
| `Dashboard.SectorNames` | main.py:30-33 | the selectable sectors are exactly the column names from position 5 on, in order |
| `Dashboard.YearView` | main.py:23 | a row is kept if and only if lo <= Year <= hi, both ends included |
| `Dashboard.YearViewAppend` | main.py:36 | the year view keeps the table's row order |
| `Dashboard.YearViewOutsideData` | main.py:23 | a range holding none of the table's years gives an empty view |
| `Dashboard.CountryView` | main.py:39 | a row is kept if and only if its Country is the selected one |
| `Dashboard.YearCountryView` | main.py:39 | a row is kept if and only if its Year lies in the range, both ends included, and its Country is the selected one |
| `Dashboard.YearCountryViewIsCountryOfYearView` | main.py:36-39 | the combined mask gives exactly the year view's rows of the selected country, in the same order, so every row of it is in the year view |
| `Dashboard.MaxYear` | main.py:57 | the largest Year is undefined for no rows and otherwise is some row's Year and no smaller than any row's Year |
| `Dashboard.LatestSlice` | main.py:57 | a row is in the slice if and only if it is a row of the view whose Year equals the view's largest Year |
| `Dashboard.YearViewCounts` | main.py:57 | the year view holds every row in range exactly as often as the table does, and no row out of range |
| `Dashboard.LatestSliceCounts` | main.py:57 | the slice holds every view row carrying the largest Year exactly as often as the view does, and no other row |
| `Dashboard.LatestSliceIsYearView` | main.py:57 | for a non-empty view the slice is the year view of the largest Year alone, so it keeps the view's row order |
| `Dashboard.LatestSliceProperties` | main.py:57 | the slice holds exactly the view's rows carrying the largest Year, and is non-empty if and only if the view is |
| `Dashboard.SelectionScenario` | main.py:36-57 | years 2019-2020 and country B give B's two rows in order, and the latest-year slice is B's 2020 row |
| `Dashboard.Transpose` | main.py:60-62 | the transpose succeeds if and only if the slice has exactly one row |
| `Dashboard.TransposeRoundTrip` | main.py:60-62 | a one-row slice with N sector cells gives N bars whose names are the sector column names and whose values are the row's cells, in column order |
| `Dashboard.MaxGap` | main.py:73 | the largest pay gap is missing only when every bar's is, and otherwise is some bar's value that no bar exceeds |
| `Dashboard.MinGap` | main.py:74 | the smallest pay gap is missing only when every bar's is, and otherwise is some bar's value that no bar goes below |
| `Dashboard.TopIff` | main.py:73 | a present bar value equals the maximum if and only if no bar's value exceeds it |
| `Dashboard.BottomIff` | main.py:74 | a present bar value equals the minimum if and only if no bar's value is below it |
| `Dashboard.HighlightedIff` | main.py:72-74 | a bar is highlighted if and only if its value is present and no bar's value exceeds it or no bar's value is below it |
| `Dashboard.SomeBarHighlighted` | main.py:72-74 | when any bar has a value, some bar is highlighted |
| `Stats.Max` | main.py:73 | the maximum is one of the values and no value exceeds it |
| `Stats.Min` | main.py:74 | the minimum is one of the values and no value is below it |
| `MovingAverage.WindowMean` | main.py:93 | the average at row i is defined only once the window reaches back w rows, and is then the sum of the window's values divided by w |
| `MovingAverage.RollingMean` | main.py:93 | the moving-average column has one entry per row, and the first w-1 rows have none |
| `MovingAverage.RollingMeanDefinedIff` | main.py:93 | from row w-1 on, the average is defined if and only if all w window values are present, and is then their sum divided by w |
| `MovingAverage.WindowMeanOfFullWindow` | main.py:93 | a window of w present values averages to their sum over w |
| `MovingAverage.RollingMeanSlides` | main.py:93 | moving the window one row down changes the average by the entering minus the leaving value, over w |
| `MovingAverage.RollingMeanExample` | main.py:93 | a complete series a, b, c, d with window 3 gives no value, no value, (a+b+c)/3, (b+c+d)/3 |
| `MovingAverage.MaName` | main.py:90 | a moving-average column name is "ma" followed by decimal digits |
| `MovingAverage.MaNameRoundTrip` | main.py:90 | the digits after "ma" read back as the window length, so different lengths give different column names |
| `MovingAverage.MaNames` | main.py:83-90 | the added columns are named ma3, ma5 and ma7 |
| `MovingAverage.MovingAverageColumns` | main.py:83-95 | the loop yields one column per window length 3, 5, 7 in that order, each named for its length and equal to the rolling mean with that window |
| `MovingAverage.Melt` | main.py:102-104 | the melted table has one row per (variable, table row) pair |
| `MovingAverage.MeltAt` | main.py:102-104 | row i of variable j's block carries table row i's Year, variable j's name and its value at row i, missing values kept |
| `MovingAverage.TrendChartData` | main.py:98-104 | n view rows give 4n long rows: the sector's own values, then ma3, ma5 and ma7, each block in row order with the row's Year |

## Left out

* Reading and writing CSV files (missing_data.py:4, 27; main.py:11). The step
  from the cleaned `RawRow` table to the dashboard's `Record`s, including the
  index column that `to_csv` adds, is not modelled.
* Every Streamlit call: sidebar, sliders, select boxes, title, columns, tabs
  (main.py:14-20, 26-27, 33, 43, 118-137). The selections are plain inputs;
  the widgets offer only years, countries and sectors present in the data.
* Chart construction and styling with Plotly and Altair (main.py:47-52,
  65-78, 107-114); only the highlight condition's logic is kept. The scatter
  chart consumes the year view, which is modelled.
* IEEE floating point: means are exact reals, NaN is `None`.
* A row without a Country: `RawRow.Country` is a string, so every row has one;
  the source would fail on the lookup at missing_data.py:20.
* `MissingData.FillMissing` requires a rectangular table (every row has the
  same columns), which every data frame is.
* A missing Year is filled like any numeric column by the cleaning pass and
  may become a non-integer; the dashboard's `Record.Year` is an integer.
* The frame copy at main.py:91 and the index alignment of `pd.concat`
  (main.py:98): all series come from the same view, so alignment is by row.
