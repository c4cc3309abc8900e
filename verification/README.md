# Trading-desk analytics script, modelled in Dafny

`Test.py` builds a table of closing prices for six securities (META, AMZN, AAPL,
NFLX, GOOGL, TSLA) over the business days of 1–24 April 2025. It blanks out one
TSLA price and then prints several reports:

- a volatility ranking;
- rankings of order counts, fill ratios and execution ratios;
- a chart of hourly orders;
- the dates with missing prices and the dates with zero or negative prices.

This project models the computations under that plumbing:

- **Stable top-five rankings** (`ranking.dfy`, module `Ranking`).
  `sorted(table.items(), key=value, reverse=...)` is modelled as a functional insertion sort with a direction flag. Its result is proved to be:
  - sorted;
  - a permutation of the table;
  - *stable*: for every value, the entries holding that value appear in table order.

  Sortedness and stability together pin the result down uniquely. `enumerate(sorted[:5], 1)` becomes `Top`. It has `min(5, n)` lines ranked 1, 2, …. Those lines are the first entries of the sort, and no entry left out should have been listed ahead of a shown one.
- **The script's three fixed tables** (`orders.dfy`, module `Orders`). The sorted order of each table is proved, including the execution ties: AMZN/TSLA at 0.97 and META/GOOGL at 0.98 stay in dictionary order both ascending and with `reverse=True`. The printed top five of the order counts and of the fill ratios are stated as well.
- **Dropping missing prices, returns and variance** (`volatility.dfy`, module `Volatility`):
  - `dropna()` keeps the surviving prices in date order.
  - Each return relates two consecutive survivors, across any missing dates between them.
  - Compounding the returns from the first price rebuilds the prices, and the returns of a compounded series are the original returns.
  - The variance (mean squared deviation) is non-negative, and zero exactly when all returns are equal.
  - The volatility ranking prints the first entries of the stable sort of the variances, and every column it leaves out is at least as volatile as every column it shows.
- **The gap and invalid-price scanner** (`series.dfy`, `gapscan.dfy`, modules `Series` and `GapScan`):
  - The missing-date list of a column is exactly its missing dates, in date order.
  - The invalid list is exactly the present prices that are `<= 0`, so a missing price is never invalid.
  - A column with nothing to report prints no line, and the lines come in column order, at most one per column.
  - `ScanSeries` is a loop that collects both lists in one pass.
- **The injected gap** (`pipeline.dfy`, module `Pipeline`). `price_df.loc['2025-04-15', 'TSLA'] = np.nan` is applied to any complete 6×18 table. Afterwards:
  - the missing report is the single line for TSLA at 2025-04-15;
  - TSLA keeps 17 prices and the others 18;
  - TSLA's surviving dates skip only 15 April. When its prices have returns, its tenth return grows the price of 14 April into that of 16 April.
- **Hour labels** (`hours.dfy`, module `HourLabels`):
  - The label rule of the chart's x-axis can be read back to the hour, so distinct hours get distinct labels. Midnight would be labelled "0 AM", not "12 AM".
  - `range(9, 16)` yields exactly "9 AM" … "3 PM".

Shared definitions:

- `market.dfy` (module `Market`) holds the six symbols and the calendar constants. There are 18 business days, and 2025-04-15 is day index 10.
- `options.dfy` holds `Option`.

A price series is a `seq<Option<real>>`, with `None` for NaN. Dates are business-day indices. Values are mathematical reals.

The source comments disagree with the code in two places, and the model follows the code:

- The comment above the hour labels says "9 AM to 4 PM", but the comprehension over `range(9, 16)` gives 9 AM to 3 PM. This matches the seven hourly values per security.
- The comment on the price generation says "30 days", but the business-day range has 18.

The code raises no error when fewer than two prices survive or when a price is zero. numpy would produce NaN or infinity. The model states these situations as preconditions instead of inventing an error path.

## Model

| member | source | states |
|---|---|---|
| Series.MissingDates | Test.py:127 | the missing-date list is strictly increasing and a date is in it exactly when the column has no price there |
| Series.InvalidDates | Test.py:133 | the invalid list is strictly increasing and holds exactly the dates with a present price `<= 0` (NaN compares false) |
| Series.PresentDates | Test.py:76 | the dates surviving `dropna()` are strictly increasing, in range, and exactly the dates with a price |
| Series.MissingPresentPartition | Test.py:76 | missing and surviving dates together account for every date of the column |
| Series.IncreasingDeterminedByMembers | Test.py:127 | a date list in index order is determined by which dates it contains |
| Ranking.Insert | Test.py:87 | inserting into a sorted list keeps it sorted and adds exactly the one entry |
| Ranking.InsertTies | Test.py:87 | the inserted entry goes ahead of the entries it ties with |
| Ranking.Sort | Test.py:87 | `sorted` returns the same entries, ordered by value in the chosen direction, with each group of equal values in table order |
| Ranking.SortedTiesUnique | Test.py:93 | two sorted lists whose groups of equal values agree are the same list |
| Ranking.SortIsTheStableSort | Test.py:119 | a list is the result of the sort if and only if it is sorted and keeps every tie group in table order |
| Ranking.TiesKeepPositions | Test.py:113 | two tied entries appear in their tie group in table order |
| Ranking.TiesComeInOrder | Test.py:113 | the tie group of a list lists its entries in the order the list does |
| Ranking.TiedEntriesKeepOrder | Test.py:119 | of two tied entries, the one earlier in the table comes earlier in the sorted list |
| Ranking.Enumerate | Test.py:89 | `enumerate(s, start)` numbers the entries of `s` consecutively from `start` |
| Ranking.Top | Test.py:95 | the printed ranking has `min(5, n)` lines, ranked 1, 2, …, listing the first entries of the sort |
| Ranking.TopIsSortedSelection | Test.py:89 | the printed lines are sorted and drawn from the table without repetition |
| Ranking.TopDrawsFromTable | Test.py:115 | every printed entry is an entry of the table |
| Ranking.LeftOutIsTail | Test.py:121 | the entries not printed are those of the sorted list past the fifth |
| Ranking.TopLeavesOutOnlyLater | Test.py:95 | no entry left out should precede any printed one |
| Ranking.TopLeavesOut | Test.py:89 | exactly `n - min(5, n)` entries are left out; one of the script's six |
| Orders.OrdersSort | Test.py:93 | the order counts sort, largest first, to AAPL, TSLA, AMZN, GOOGL, META, NFLX |
| Orders.TopOrders | Test.py:93-96 | the printed top five by order count are AAPL, TSLA, AMZN, GOOGL, META; NFLX is not printed |
| Orders.FillsSort | Test.py:113 | the fill ratios sort, lowest first, to NFLX, AMZN, TSLA, GOOGL, META, AAPL |
| Orders.TopFills | Test.py:113-116 | the printed five lowest fill ratios are NFLX, AMZN, TSLA, GOOGL, META; AAPL is not printed |
| Orders.TopExecutions | Test.py:119-122 | the printed five best execution ratios are NFLX, AMZN, TSLA, META, GOOGL, tied pairs in dictionary order; AAPL is not printed |
| Orders.ExecutionsSort | Test.py:119 | the execution ratios sort to NFLX, AMZN, TSLA, META, GOOGL, AAPL, tied pairs in dictionary order |
| Orders.ReversedExecutionsSort | Test.py:61-68 | with `reverse=True` the execution ratios sort to AAPL, META, GOOGL, AMZN, TSLA, NFLX, so ties keep dictionary order in both directions |
| Orders.ExecutionGroups | Test.py:61-68 | the execution table's groups of equal ratios, in dictionary order |
| Volatility.DropMissing | Test.py:76 | `dropna()` yields one price per surviving date, in date order |
| Volatility.Ratio | Test.py:77 | one period's return is the rate that grows the earlier price into the later one |
| Volatility.Returns | Test.py:77 | one return per consecutive pair of prices, each carrying the earlier price to the later one |
| Volatility.Compound | Test.py:77 | compounding returns from a start price yields one price more than returns, each grown from the previous |
| Volatility.CompoundReturns | Test.py:77 | compounding a series' returns from its first price rebuilds the series |
| Volatility.ReturnsCompound | Test.py:77 | the returns of a compounded series are the returns it was compounded from |
| Volatility.CompoundUnique | Test.py:77 | a price series is determined by its first price and its returns |
| Volatility.Mean | Test.py:78 | the mean times the count is the sum |
| Volatility.SquaredDeviations | Test.py:79 | every squared deviation is non-negative and zero exactly at the mean |
| Volatility.Variance | Test.py:79 | the variance is non-negative |
| Volatility.VarianceZeroIffConstant | Test.py:79 | the variance is zero if and only if all returns are equal |
| Volatility.VarianceOf | Test.py:74-81 | the squared volatility of a column is non-negative |
| Volatility.ReturnsSpanSurvivors | Test.py:76-77 | each return links two consecutive surviving dates with only missing dates between them |
| Volatility.OneGapOneReturnLess | Test.py:76-77 | a column with one missing date keeps one price fewer and, when its survivors have returns, one return fewer |
| Volatility.Variances | Test.py:81 | the volatility table lists every column, in table order, with its squared volatility |
| Volatility.LowestVolatility | Test.py:87-90 | the volatility ranking has `min(5, n)` lines ranked from 1, non-negative and ascending, listing the first entries of the stable sort of the columns' variances |
| Volatility.LowestVolatilityIsLowest | Test.py:87-89 | every column left out of the volatility ranking has a variance at least that of every column shown |
| GapScan.Report | Test.py:126-129 | a report holds a line for a column exactly when its scan is non-empty, with that scan's dates |
| GapScan.ReportColumn | Test.py:127-129 | one column prints one line with its dates if it has any, and nothing otherwise |
| GapScan.ReportAppend | Test.py:126 | the report of two runs of columns is the first run's report followed by the second's, so lines come in column order |
| GapScan.MissingReport | Test.py:126-129 | every missing-price line has a non-empty date list that is exactly its security's missing dates, and every security with a missing date has a line |
| GapScan.InvalidReport | Test.py:132-135 | every invalid-price line has a non-empty date list that is exactly its security's present prices `<= 0`, and every security with one has a line |
| GapScan.MissingReportExact | Test.py:128-129 | a security's missing-price line lists exactly its missing dates, and it gets a line if and only if it has any |
| GapScan.MissingNeverInvalid | Test.py:133-135 | a date on which a security has no price is never on its invalid-price line |
| GapScan.ScanSeries | Test.py:124-135 | one pass over a column collects exactly its missing and its invalid dates |
| Pipeline.InjectGap | Test.py:71 | the assignment blanks exactly one cell, leaving the table's shape and every other cell as they were |
| Pipeline.BlankMissing | Test.py:71 | blanking a date adds it to the missing dates and changes no other |
| Pipeline.BlankInvalid | Test.py:71 | blanking a date removes it from the invalid dates and changes no other |
| Pipeline.ReportSingle | Test.py:128 | when one column alone has something to report, the report is its one line |
| Pipeline.ReportEmpty | Test.py:134 | when no column has anything to report, nothing is printed |
| Pipeline.GapReport | Test.py:124-129 | after the gap is injected into a complete table, the missing report is one line: TSLA on 2025-04-15 |
| Pipeline.GapSurvivors | Test.py:76 | after the gap, TSLA keeps 17 prices and every other security 18 |
| Pipeline.GapReturnSpansGap | Test.py:76 | after the gap, TSLA's surviving dates are every date but 2025-04-15, so its tenth and eleventh survivors are 14 and 16 April |
| Pipeline.GapReturnAcrossGap | Test.py:76-77 | when TSLA's prices after the gap have returns, there are 16 of them and the tenth grows the price of 14 April into that of 16 April |
| HourLabels.Decimal | Test.py:40 | `str(n)`: non-empty digits without a leading zero |
| HourLabels.DecimalRoundTrip | Test.py:40 | parsing the decimal form of a number gives the number back |
| HourLabels.HourLabel | Test.py:40 | a label is the hour itself followed by " AM" before noon (so midnight is "0 AM"), "12 PM" at noon, and `h - 12` followed by " PM" after noon |
| HourLabels.MidnightLabel | Test.py:40 | midnight is labelled "0 AM", not "12 AM" |
| HourLabels.HourLabelRoundTrip | Test.py:40 | every hour of the day can be read back from its label |
| HourLabels.HourLabelInjective | Test.py:40 | distinct hours of the day get distinct labels |
| HourLabels.Hours | Test.py:40 | seven labels, the i-th reading back as hour 9 + i |
| HourLabels.HoursAreNineToThree | Test.py:39-40 | the labels are "9 AM", "10 AM", "11 AM", "12 PM", "1 PM", "2 PM", "3 PM" |

## Left out

- Random price generation (`Test.py:7`, `Test.py:17-24`): seeded random numbers, with `cumsum`, in floating point. The price table is a parameter. The scenario lemmas take any complete 6×18 table.
- The pandas business-day calendar (`Test.py:13`) and the date labels printed in the reports. Dates are business-day indices, so 2025-04-15 is index 10.
- Volatility.LowestVolatility: ranks variances rather than their square roots (`Test.py:80`). The square root is strictly increasing on non-negative reals, so order and ties are the same. The printed percentages are left out.
- Floating-point arithmetic: values are exact reals. Division and the mean are exact, and `float` rounding is not modelled. Order counts are integers in the source and reals here.
- All printing and number formatting (`Test.py:83-85`, `Test.py:90`, `Test.py:96`, `Test.py:116`, `Test.py:122`, `Test.py:129`, `Test.py:135`).
- The matplotlib chart (`Test.py:99-110`) and the hourly order counts it plots (`Test.py:41-48`). Only the x-axis labels are modelled.
- The unused `StandardScaler` import (`Test.py:4`).
- Volatility.Returns: requires every price but the last to be non-zero. The script does not check this; numpy would produce infinity or NaN.
- Volatility.VarianceOf: requires at least two surviving prices. The script does not check this; numpy would produce NaN for the mean of an empty array.
- Pipeline.InjectGap: requires the date to be inside the column. With a label outside the index, pandas would enlarge the table instead.
- The volatility values of the script's run: they depend on the random prices.
