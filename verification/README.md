# Air-crash dashboard query layer, in Dafny

A model of the data pipeline behind the Dash dashboard in `app.py`. Every
callback reads the crash table, maps English month names to numbers, drops
rows missing a required column, rebuilds a calendar `Date`, applies the three
widget filters (year range, fatality range, operator selection) and derives
one view from the result: the map points, the four KPI cards, the yearly
trend, the per-country totals and the table of the twenty most recent
crashes. At start-up the layout derives the operator dropdown's options and
the bounds and decade marks of the two range sliders from the table.

The model is purely functional, as the source is: every pandas step (`map`,
`dropna`, boolean masks, `groupby().agg()`, `sort_values`, `head`) becomes a
function over `seq<RawRow>` or `seq<Record>`.

- `Optional`, `Seqs`, `Order`: missing values, boolean masks (`Keep`) and
  subsequences, string and integer orders, sorted-distinct lists, min and max.
- `Calendar`: Gregorian dates with leap years, the range a pandas nanosecond
  timestamp can hold, `strftime("%Y-%m-%d")`, and the proof that the string
  order of formatted dates is the chronological order.
- `Records`: raw rows, the month table, the row-level `dropna`, the date
  rebuild (an impossible date keeps the row and leaves its date missing) and
  the column totals.
- `Filtering`: the range masks and the optional operator mask.
- `Kpis`: count, total, exact average and worst crash, with zero defaults.
- `Grouping`: a generic `groupby` (sum of fatalities, count of non-missing
  Aircraft) over any strictly totally ordered key, proved to be the grouping
  its rows determine.
- `Recent`: projection, a sort newest-first with missing dates last, and the
  top twenty.
- `Layout`: the start-up frame, operator options, slider bounds and marks.
- `Dashboard`: the five views of one query and the lemmas tying them together.
- `Examples`: worked instances (three crashes over three years; an impossible
  date that still counts).

Where the design description and the code differ, the model follows the code:

- A non-existent date (31 April, 29 February of a common year) does not drop
  the row. `errors='coerce'` makes the date missing and no later `dropna`
  removes it, so the row still counts on the cards, in the trend and in the
  country view, and sorts last in the table.
- Negative fatality counts are not rejected. The comparisons between the country
  view and the KPI totals that need non-negative counts say so in their `requires`.
- `Total_Crashes` is `count` on `Aircraft`: rows with a missing Aircraft add
  their fatalities but no crash. The country view's crash count equals the KPI
  count exactly when every filtered row has both a country and an Aircraft.
- `sort_values` uses its default, unstable sort. The contracts promise no order
  among rows with the same date.

## Model

| member | source | states |
|---|---|---|
| `Calendar.DaysInMonth` | app.py:131-135 | the month length is 28..31, and 29 exactly for February of a leap year |
| `Calendar.ToDatetime` | app.py:131-135 | the assembled date is present exactly when (year, month, day) is a real Gregorian day inside the pandas timestamp range, and then carries those three numbers |
| `Calendar.FormatDate` | app.py:136 | `%Y-%m-%d` of a representable date is ten characters with dashes at positions 4 and 7 |
| `Calendar.DigitsOrder` | app.py:368 | zero-padded numbers of one width compare as strings as they compare as numbers, and print equal only when equal |
| `Calendar.FormatDateOrder` | app.py:368-371 | comparing two formatted dates as strings is comparing the dates chronologically, and distinct dates print differently |
| `Records.MonthNumber` | app.py:120-125 | a month cell maps to a number exactly when it is one of the twelve names, and the number is that name's position 1..12 |
| `Records.MonthNumberOfName` | app.py:120-124 | each of the twelve names maps to its own position in the year |
| `Records.ToRecord` | app.py:125-135 | a kept row keeps its year, day, fatalities, operator, aircraft, location and country, gets its month number, and has a date exactly when the day exists |
| `Records.Normalize` | app.py:125-135 | never longer than the input; every usable row appears converted, and every output record comes from a usable input row |
| `Records.NormalizeKeepsUsableInOrder` | app.py:125-135 | the normalised frame is the usable rows, an order-preserving subsequence of the input, each converted in place |
| `Records.NormalizeWithCountry` | app.py:297 | the country view's stricter `dropna` equals masking the shared normalised rows on a present country |
| `Records.CountAircraft` | app.py:264 | the Aircraft count is at most the number of rows, and equal to it exactly when no row lacks an Aircraft |
| `Records.SumPartition` | app.py:209 | splitting rows by any mask splits the fatality total and the Aircraft count into the two parts' totals |
| `Filtering.Filter` | app.py:139-145 | a record is kept exactly when its year and fatalities lie in the inclusive ranges and, if operators are selected, its operator is one of them |
| `Filtering.FilterIsOneMask` | app.py:139-145 | the two successive masks are one mask, and the result is an order-preserving subsequence of the input |
| `Filtering.FilterCommutes` | app.py:297-312 | filtering commutes with any other row mask |
| `Filtering.FilterIgnoresDate` | app.py:193-206 | changing a record's date never changes how many records pass the filter |
| `Kpis.WorstCrash` | app.py:211 | the worst crash is the fatality count of a filtered row and at least every filtered count |
| `Kpis.ComputeKpis` | app.py:208-211 | count is the number of filtered rows, total their fatality sum; with no rows the average and worst are 0, otherwise average times count is the total, the worst is attained and maximal, and the average never exceeds the worst |
| `Kpis.AverageAtMostWorst` | app.py:210-211 | over a non-empty selection the average never exceeds the worst crash |
| `Grouping.GroupBy` | app.py:262-265 | there are never more groups than keyed rows, and the group totals add up to the fatality sum and Aircraft count of the keyed rows |
| `Grouping.GroupByIsGrouping` | app.py:262-265 | the groups are in strictly ascending key order, and each key's group is present exactly when some row carries that key, with that key's Aircraft count and fatality sum |
| `Grouping.GroupsAreExpected` | app.py:315-318 | every listed group has at least one row, and its crash count is at most its number of rows |
| `Grouping.KeyListed` | app.py:262 | every row with a key has a group for that key |
| `Recent.Project` | app.py:368-373 | a table row shows the record's formatted date (missing when the date is), operator, aircraft, location and fatalities |
| `Recent.SortNewestFirst` | app.py:371 | the sorted rows are a permutation of the input, newest date string first and missing dates last |
| `Recent.RecentCrashes` | app.py:368-373 | the table holds min(20, n) rows, newest first, taken from the filtered rows' projections, and no row left out is newer than a row shown |
| `Recent.HeadIsNewest` | app.py:371-373 | the first n rows of a newest-first list stay newest first, and no row after the cut is newer than a row before it |
| `Recent.RecentRowsComeFromFiltered` | app.py:373 | every table row is the projection of some filtered record |
| `Recent.NewestFirstIsChronological` | app.py:368-371 | for dated rows, the table's order is the calendar order |
| `Recent.MissingDatesLast` | app.py:371 | a row without a date never precedes a dated row |
| `Layout.StartupFrame` | app.py:16 | the start-up frame keeps exactly the rows with Latitude, Longitude, Year and Fatalities_air present |
| `Layout.OperatorOptions` | app.py:54 | the options are strictly ascending and are exactly the operators present on rows of the start-up frame |
| `Layout.OperatorOptionsDistinct` | app.py:54 | no operator appears twice among the options |
| `Layout.DecadeMarks` | app.py:46 | the marks start at the lower bound, step by ten, and number (hi - lo) / 10 + 1 for a non-empty range |
| `Layout.DecadeMarksExactly` | app.py:46 | a year is marked exactly when it lies in the range at a multiple of ten from its start |
| `Layout.YearSlider` | app.py:42-46 | without rows there is no slider; otherwise its bounds are the least and greatest year, both attained, with decade marks between them |
| `Layout.FatalitiesSlider` | app.py:63-64 | without rows there are no bounds; otherwise they are the least and greatest fatality count, both attained |
| `Dashboard.MapPoints` | app.py:139-145 | the map shows exactly the normalised records that pass the filter |
| `Dashboard.YearlyTrend` | app.py:262-265 | the trend is the grouping of the filtered records by year |
| `Dashboard.CountryRows` | app.py:297-312 | the country view's rows are the map's rows that have a country |
| `Dashboard.CountryTotals` | app.py:315-318 | the country view is the grouping of those rows by country name |
| `Dashboard.Query` | app.py:139-373 | across the views: the card count is the number of map points, the trend's fatalities sum to the card total, its crashes never exceed the card count, the country crashes never exceed the trend's, and the table has at most 20 rows, no more than the map |
| `Dashboard.YearlyMatchesKpis` | app.py:209-265 | the trend's fatalities sum to the KPI total, its crashes to the Aircraft count, which equals the KPI count exactly when no filtered row lacks an Aircraft, and every filtered year has a trend point |
| `Dashboard.CountriesWithinKpis` | app.py:297-318 | country totals plus the totals of the filtered rows without a country give the KPI fatality total and the Aircraft count; country crashes equal the KPI count exactly when every filtered row has a country and an Aircraft |
| `Dashboard.CountryFatalitiesAtMostKpis` | app.py:297-318 | with no negative counts the country fatalities never exceed the KPI total, and equal it when every filtered row has a country |
| `Dashboard.EmptySelection` | app.py:208-211 | when the filters exclude every row, the cards read 0, 0, 0 and 0 and the trend, country view and table are empty |
| `Examples.ExampleKpis` | app.py:208-211 | rows from 1999, 2000 and 2001 with 10, 20 and 30 deaths, filtered to 2000..2001, give the cards 2, 50, 25 and 30 |
| `Examples.ExampleYearly` | app.py:262-265 | the same selection gives trend points (2000, 1, 20) and (2001, 1, 30) |
| `Examples.ExampleCountries` | app.py:315-318 | the same selection gives countries A (1 crash, 30 deaths) then B (1 crash, 20 deaths) |
| `Examples.ExampleRecent` | app.py:368-373 | the same selection lists the 2001 crash above the 2000 one |
| `Examples.ImpossibleDateStillCounts` | app.py:193-197 | a crash dated 29 February 2001 is kept with a missing date and counts once on the cards and in the trend |

## Left out

- The Dash layout, the widgets' styling, the callback wiring and `app.run_server`: user interface and server.
- Every plotly figure (`scatter_mapbox`, `line`, `choropleth`, `update_layout`): charting with nothing to state.
- `pd.read_csv`: file input. Each callback's table is the `rows` parameter, already parsed into cells that are present or missing.
- The module-level `Date` built from month names at start-up: nothing downstream reads it.
- The `card` helper and the KPI cards' formatting: presentation.
- Kpis.ComputeKpis: the average is the exact quotient total / count. The float mean and `round(..., 1)` are not modelled.
- Calendar.ToDatetime: pandas assembles the date from the integer year * 10000 + month * 100 + day. A Day of 0 or less, or of 100 or more, can carry into the month digits and yield another real day; the model treats such a day as impossible.
- Records.ToRecord: Year, Day and Fatalities_air are whole numbers. The truncation `astype(int)` applies to fractional cells, and that is not modelled. Latitude and Longitude are exact reals, not floats.
- Recent.SortNewestFirst: it is an insertion sort, so rows with equal dates come out in one particular order. The source's default quicksort may order them differently, and no contract depends on that order.
- Layout.DecadeMarks: gives the marked positions only; the labels `str(y)` are not modelled.
- Filtering.Filter: a dropdown value of `None` and an empty selection are both the empty sequence. A missing operator never matches, because the options never contain a missing value.
- Running `int()` on the minimum of an empty start-up frame raises. The model returns no slider instead.
