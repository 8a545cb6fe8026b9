# Sales dashboard aggregations, modelled in Dafny

This project models the data layer of `app.py`, a sales dashboard for a
store's transaction history. Each transaction row has these columns:

- customer;
- gender;
- optional location;
- product category;
- quantity;
- average price;
- date;
- month;
- discount percentage.

The model covers:

- the derived `Total_price` column;
- the revenue sum `calculer_chiffre_affaire`;
- the per-gender frequency ranking `frequence_meilleure_vente` and the "top 10" chart built on it;
- the month-over-month indicator `indicateur_du_mois` and the two figures that read it;
- the weekly revenue curve;
- the table of the 100 most recent sales;
- the location dropdown;
- the callback `update_charts`, which redraws everything for the selected locations.

Everything in this layer computes values from a data frame, so the model is
made of datatypes, functions and lemmas.

Three behaviours of `app.py` shape the model:

- The sorts at app.py:34, 121 and 245 use pandas' default sort, which is not stable. The model promises no order among equal keys.
- `groupby('Sexe')` at app.py:32 sorts its keys, so the ranking lists genders in ascending order, not in order of first appearance.
- The month figures at app.py:88-89 and 105-106 raise when the current or the previous month has no rows: an IndexError when only one of them has rows, a KeyError when neither has, because the grouping then returns an empty frame and `df_plot[1]` becomes a column lookup. The model of the callback returns `None` then.

Modules:

- `Dataset`: the transaction record, `Total_price` with its three-decimal
  rounding of the discount factor (round half to even), and the calendar.
  A date is a day number counted from 1970-01-01. `WeekEnd` gives the
  Sunday that closes a day's week, which is the bucket label of pandas'
  weekly frequency.
- `Order`: shared sequence machinery.
  - `Take` is `head`/`iloc[:n]`; `DropLast` is `[:-1]`.
  - The string order is Python's code-point comparison.
  - The sorted distinct keys are the index of a `groupby`.
  - `SortByKey` is `sort_values`: a permutation ordered by an integer key, with no promise about ties.
  - `Unique` is `unique()`: distinct values in order of first appearance.
- `Selection`: the row masks, including `isin` for the location filter.
  They are a `Criterion` datatype interpreted by `Where`.
- `Revenue`, `Ranking`, `MonthIndicator`, `WeeklySeries` and `RecentSales`:
  one module per aggregation.
- `Dashboard`: the figures and the table of one row set, the callback, and the dropdown options.

## Model

| member | source | states |
|---|---|---|
| Dataset.RoundHalfEven | app.py:18 | the result is within one half of its argument, and a tie goes to the even integer |
| Dataset.Round3 | app.py:18 | the result is within 0.0005 of its argument and has at most three decimals |
| Dataset.DiscountFactorExact | app.py:18 | a discount given to a tenth of a percent loses nothing to the rounding: the factor is exactly 1 - d/100 |
| Dataset.DiscountFactorInUnit | app.py:18 | a discount between 0 and 100 percent gives a factor between 0 and 1 |
| Dataset.TotalPriceNonNegative | app.py:18 | a row with non-negative quantity and price and a discount within 0..100 has a non-negative Total_price |
| Dataset.WeekEnd | app.py:70 | a day's weekly bucket is labelled with the Sunday on or after that day, less than a week later |
| Order.Take | app.py:34 | `iloc[:n]` / `head(n)` keeps exactly the first min(n, length) elements |
| Order.DropLast | app.py:70 | `[:-1]` keeps every element but the last, and an empty series stays empty |
| Order.StrLtIrreflexive | app.py:31-32 | no gender precedes itself in the ascending order of the groups |
| Order.StrLtTransitive | app.py:31-32 | the order of the group keys is transitive |
| Order.StrLtTotal | app.py:31-32 | any two distinct group keys are ordered one way or the other |
| Order.SortedDistinctInts | app.py:44 | the group index is strictly increasing and holds exactly the values present |
| Order.SortedDistinctStrs | app.py:24-32 | the gender and category index is strictly ascending and holds exactly the values present |
| Order.SortByKey | app.py:34 | `sort_values` returns a permutation of its input, ordered by the key in the requested direction |
| Order.TakeSorted | app.py:34 | the first n elements of a sorted sequence are still sorted and are drawn from it |
| Order.TakeSortedSplit | app.py:34 | after sorting and cutting, every element left out ranks after every element kept |
| Order.Unique | app.py:190 | `unique()` lists each value present exactly once |
| Order.UniqueOrder | app.py:190 | `unique()` lists the values in the order of their first appearance |
| Order.IncreasingWithinTwo | app.py:42-44 | a strictly increasing index drawn from two months has at most two entries |
| Selection.Where | app.py:42 | a mask keeps only rows of its input that satisfy it, and never more rows than it was given |
| Selection.WhereCount | app.py:240 | a mask keeps every copy of each matching row and no other row |
| Selection.WhereIsSubsequence | app.py:240 | a mask keeps the rows in their original order |
| Selection.WhereEmpty | app.py:42 | a mask selects nothing exactly when no row satisfies it |
| Selection.WhereMonthOfWindow | app.py:48 | grouping the two-month window by one of its months gives all the rows of that month |
| Selection.FilterByLocation | app.py:236-240 | with no or an empty selection the rows are left as they are; otherwise only rows whose location is selected remain |
| Selection.FilterByLocationSpec | app.py:236-240 | the filter keeps, in order, every copy of each selected row, and a row without a location is never selected |
| Revenue.RevenueAppend | app.py:20-21 | the revenue of two row sets together is the sum of their revenues, and no rows give 0 |
| Revenue.RevenueNonNegative | app.py:20-21 | well-formed rows never give a negative revenue |
| Ranking.CategoriesSpec | app.py:24-31 | the crosstab has a cell for (g, c) exactly when some row has gender g and category c |
| Ranking.GendersSpec | app.py:31-32 | a gender is a group exactly when some row has it, and a gender without rows has no category |
| Ranking.TallyDistinct | app.py:24-31 | the crosstab holds each (gender, category) row once |
| Ranking.BlockShape | app.py:33-35 | a gender's block has min(top, its number of categories) pairs of that gender with distinct categories, each with its exact row count, ordered by count |
| Ranking.BlockKeepsAllWhenFew | app.py:33-35 | a gender with at most `top` categories keeps all of them |
| Ranking.BlockDropped | app.py:33-35 | a pair cut from a gender's block ranks after every pair kept |
| Ranking.RankingGroups | app.py:23-37 | the entries of a gender in the result are exactly its block, and a gender without rows has none |
| Ranking.RankingPerGender | app.py:23-37 | per gender: min(top, n) entries that are observed pairs with distinct categories and exact nonzero counts, ordered by count, all kept when n <= top, and each dropped pair ranks after every kept one |
| Ranking.RankingOrder | app.py:23-37 | every entry carries the exact nonzero row count of its pair, and genders come in ascending order |
| Ranking.EntriesOfMember | app.py:37 | an entry belongs to a gender's part of the result exactly when it is in the result with that gender |
| Ranking.BestSellerMissingFromChartAsWritten | app.py:52-53 | with `ascending=True` and more than 10 categories, a gender's strict best seller is missing from the top-10 chart |
| Ranking.BestSellerInTopTenChart | app.py:52-53 | in descending order a gender's strict best seller is always in the top-10 chart |
| MonthIndicator.PreviousMonth | app.py:40 | the previous month differs from the current one; for 1..12 it is in 1..12 and the current month follows it cyclically |
| MonthIndicator.WindowMonthsSpec | app.py:42-44 | the window's months are strictly ascending, at most two, and exactly the current and previous months that have rows |
| MonthIndicator.MonthCountsSpec | app.py:41-46 | count mode: at most two entries, ascending months; each entry is the current or previous month with its exact row count, present exactly when it has rows |
| MonthIndicator.MonthRevenuesSpec | app.py:47-50 | revenue mode: the same months, each with the exact revenue of its rows |
| MonthIndicator.MonthCountsSize | app.py:41-50 | both series have one entry for each of the two months that has rows |
| MonthIndicator.IndicatorNeedsBothMonths | app.py:88-89 | positions 0 and 1 exist exactly when both the current and the previous month have rows (both modes) |
| MonthIndicator.IndicatorShowsCurrentMonth | app.py:88-91 | for February through December the figure shows the current month's value, the previous month's as reference, and the current month's name (both modes) |
| MonthIndicator.JanuaryShowsDecember | app.py:40-45 | for January the ascending order puts December last, so the figure shows December's value against January's |
| MonthIndicator.CalendarOrderShowsCurrentMonth | app.py:105-108 | in calendar order the figure shows the current month against the previous one for every month, January included |
| MonthIndicator.CalendarOrderAgreesAfterJanuary | app.py:41-46 | calendar order and ascending order give the same series from February through December |
| WeeklySeries.PointsSpec | app.py:70 | there is one point per listed week, carrying the exact revenue of that week's rows |
| WeeklySeries.BucketsSpec | app.py:70 | the weekly buckets are strictly ascending and are exactly the weeks holding a row; there are none exactly when there are no rows |
| WeeklySeries.WeeklyChartSpec | app.py:70 | the curve has one point fewer than the buckets (none for no rows), in ascending week order, each the revenue of a week holding rows |
| WeeklySeries.LastWeekDropped | app.py:70 | the dropped week is the latest week of the rows, and no point of the curve belongs to it |
| WeeklySeries.PointsCons | app.py:70 | adding one row adds its price to the listed week holding it |
| WeeklySeries.PointsPartition | app.py:70 | weeks covering every row add up to the revenue of all the rows |
| WeeklySeries.WeeklyRevenueTotal | app.py:70 | before the cut the weekly revenues add up to the total revenue |
| WeeklySeries.SeriesTotalDropLast | app.py:70 | cutting the last point of a non-empty series removes exactly that point's revenue |
| WeeklySeries.WeeklyChartTotal | app.py:70 | the curve plus the revenue of the latest week is the total revenue |
| RecentSales.ProjectAllMembers | app.py:243 | a line is in the column selection exactly when some row of the selection projects to it |
| RecentSales.MostRecentSpec | app.py:243-245 | the table holds min(limit, rows) lines drawn from the rows, newest first, and no row left out is newer than a row shown |
| RecentSales.MostRecentKeepsAllWhenFew | app.py:121-124 | with at most `limit` rows the table shows every row |
| RecentSales.MostRecentFrom | app.py:243-245 | every line of the table is the projection of one of the rows |
| Dashboard.UpdateCharts | app.py:236-238 | with no location selected, the callback gives the charts of the whole dataset, the same ones computed at start-up |
| Dashboard.UpdateChartsSpec | app.py:236-254 | the charts exist exactly when the selected rows hold December and November; the figures then show December's revenue and sales against November's, titled "December", beside the weekly curve, the `ascending=True` top-10 chart and the table of the selected rows |
| Dashboard.EmptySelectionFails | app.py:240-250 | a selection matching no row makes the callback fail |
| Dashboard.TableFromSelection | app.py:243-245 | every line of the callback's table comes from a row at a selected location |
| Dashboard.PresentLocations | app.py:190 | `dropna()` keeps exactly the known locations |
| Dashboard.PresentLocationsOrder | app.py:190 | `dropna()` keeps the known locations in row order: a row's location sits between those of the rows before it and those of the rows after it, and a row without one adds nothing |
| Dashboard.LocationOptionsSpec | app.py:190 | the dropdown lists each known location once, in the order it first appears among the rows |

## Left out

- Reading `data.csv`, the column selection at load, `fillna(0)` on CustomerID and `to_datetime` parsing are not modelled. A row arrives as a `Transaction` whose date is a day number; a missing date (NaT) is left out; an unparseable one makes the load raise, since `to_datetime` keeps its default `errors='raise'`.
- Floating point is not modelled. Prices and totals are exact reals. Only the three-decimal rounding of the discount factor is modelled, as round half to even on exact values.
- `Dataset.WeekEnd` ignores the time of day. `WeeklySeries` lists only weeks that hold rows. A week with no rows between the first and the last, which the weekly grouper may show as a zero point, is not modelled.
- `Order.SortByKey`: both sorts in the source are pandas' default unstable sort. The model sorts stably but its contract promises no order among equal counts or equal dates, so which pairs or rows survive a cut among ties is left open.
- Rows with a missing gender or category, which pandas drops from the crosstab, are not modelled. Gender and category are plain strings.
- The year is ignored, as in the source: `Month` is the only month key, and transactions from different years in the same month are counted together.
- `MonthIndicator.MonthLabel` requires a month in 1..12. The source's `month_name[0]` is an empty string, negative months from -13 to -1 index from the end of the list, and values outside -13..12 raise. Neither month 0 nor negative months are modelled. The dashboard only passes 12.
- `MonthIndicator.IndicatorOf`: the figures read `df_plot[1]` and `df_plot[0]` and raise when the series is shorter. `IndicatorOf` requires two entries, and `Dashboard.Render` returns `None` for a failing callback.
- A negative `top` is not modelled: `top` is a `nat`.
- Plotly and Dash are not modelled: layout, colours, sizes, titles other than the indicator's month name, page size, and the in-table filtering and sorting. The location of a row without one is shown as None in the table.

## Findings

| source | as written | input that shows it | evidently intended | confidence | as-written member | corrected member |
|---|---|---|---|---|---|---|
| app.py:53 | the chart titled as the 10 best sales calls the ranker with `ascending=True`, so each gender keeps its 10 least frequent categories | a gender with 11 categories, one of them bought more often than each of the others: that category is not in the chart | keep the default descending order, so that each gender's 10 most frequent categories are shown | medium, not executed | Ranking.BestSellerMissingFromChartAsWritten | Ranking.BestSellerInTopTenChart |
| app.py:40-44 | for `current_month = 1` the months are sorted by number, so December (12) lands at position 1 and January at position 0 | rows in January and December, `current_month = 1`: the figure shows December's value with January as its reference | show January against December, the month before it | low (the dashboard only uses 12), not executed | MonthIndicator.JanuaryShowsDecember | MonthIndicator.CalendarOrderShowsCurrentMonth |
