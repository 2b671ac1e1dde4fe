# Death pool standings — a Dafny model of the data step

The death-pool scripts read a table of yearly game results (one row per
player and year: Player, Year, Deaths, Points, Wins, Rank) and draw scatter
charts of cumulative standings. `death_pool.py` draws one grid of subplots.
`death_pool_animated.py` draws one frame per range and joins the frames into
a GIF. Before anything is drawn, both scripts run the same pure data step,
with small differences. This project models that step and proves its
properties:

- **Column check.** The static script lists the required columns that are
  absent, in the order Deaths, Points, Wins, Rank, Player, Year, and stops
  if any are absent. The animated script only checks for Year and Player.
- **Cumulative year ranges.** There is one range per distinct year `y`. It
  holds every integer year from the earliest year through `y`, including
  years that do not occur in the data. The static script sorts the
  distinct years. The animated script keeps them in order of first
  appearance (`unique()`), behind a `year >= min(...)` guard that never
  removes anything.
- **Filter and group-by.** The rows dated within a range are kept unchanged.
  They are grouped by player, with keys in sorted order as pandas' `groupby`
  produces them. Deaths, Points and Wins are summed, Rank is averaged, and
  the static script also counts distinct years (`Count_Years`).
- **Colour.** The static script colours points by raw mean rank. It also
  computes a min-max normalised `Rank_Color` over the whole table and never
  uses it. The animated script colours points by mean rank min-max
  normalised over the players shown in the frame.
- **Marker size.** The static script uses `min(2 ** wins, 500) * 100`. The
  animated script uses the linear `(wins / 2) * 400 + 100`.
- **Grid.** There are `(n + 3) // 4` rows of 4 columns for `n` charts, and
  the left-over cells are switched off.

Modules, one per file: `Options` (Option/Result), `Seqs` (filtering,
first-appearance de-duplication, subsequences), `Ordering` (strict total
orders, Python string order, sorted de-duplication), `Records` (the row
type and column sums), `Columns`, `YearRanges`, `Aggregation`, `Encoding`,
`Grid`, `Pipeline` (both scripts end to end, up to the drawing calls) and
`WorkedExamples`.

Modelling choices:

- Year, Deaths, Points and Wins are integers. Rank is an exact `real`.
- A chart is modelled as the data it would show: the aggregated rows, a
  colour column and a size column, plus the year its title names.

Behaviour of the code that the model keeps, though a reader of the
comments might expect otherwise:

- The ranges include years that are absent from the data. With data for
  2017, 2019 and 2020 the code builds `range(min, y + 1)`, so the ranges
  are [2017], [2017, 2018, 2019] and [2017, 2018, 2019, 2020]
  (`WorkedExamples.RangesExample`).
- When all mean ranks of a frame are equal, the colour computation divides
  0 by 0, with no guard, which gives a column of NaN. The model returns
  `None` there.
- The linear size has no clamp, although death_pool_animated.py:56 calls
  500 the maximum size (`Encoding.LinearSizeUnclamped`).
- The animated loader checks only Year and Player, unlike the six-column
  check of death_pool.py:76-79 (`Columns.CheckKeysIsWeaker`).
- A negative summed Total_Wins makes numpy refuse `2 ** Total_Wins` in the
  static script, which is not caught and ends the script at that chart.
  The model returns the error `NegativeWinsPower` with the chart's year.
  A row may hold negative Wins as long as no chart's total is negative.

## Model

| member | source | states |
|---|---|---|
| `Columns.Missing` | death_pool.py:76-77 | The report names exactly the required columns absent from the header. It lists them in the order Deaths, Points, Wins, Rank, Player, Year. |
| `Columns.MissingIsTheOrderedReport` | death_pool.py:76-77 | Any in-order selection from the required list that names exactly the absent columns is the report. The order of the report is therefore forced. |
| `Columns.CheckAll` | death_pool.py:76-79 | Loading fails exactly when some required column is absent, and the error carries the ordered list of missing names. |
| `Columns.Message` | death_pool.py:79 | The error text begins with "Missing required columns: ", and every missing column's name occurs in it. One missing column gives exactly the prefix and that name. With more, splitting the names before any later name splits the text at one ", ": the names keep their order, separated by exactly ", ". |
| `Columns.Join` | death_pool.py:79 | A single part is the whole text, and with more parts the text starts with the first part and the separator. |
| `Columns.JoinSplit` | death_pool.py:79 | Splitting the parts before any later part splits the joined text into the join of the earlier parts, one separator and the join of the later parts. So the parts keep their order and consecutive parts are separated by exactly the separator. |
| `Columns.JoinContainsEach` | death_pool.py:79 | Every part occurs in the text `", ".join` builds from the parts. |
| `Columns.CheckKeys` | death_pool_animated.py:14-15 | The animated loader fails exactly when Year or Player is absent, whatever else is missing. |
| `Columns.CheckKeysIsWeaker` | death_pool_animated.py:14-15 | Every header the static check accepts passes the animated check. A header with Year and Player but no Rank passes the animated check and fails the static one. |
| `Ordering.LexLessIsStrictTotalOrder` | death_pool.py:37 | The code-point order on player names that `groupby` sorts keys by is irreflexive, transitive and total. |
| `Ordering.SortedDistinct` | death_pool.py:87 | The result is strictly ascending and holds exactly the values of the input. |
| `Ordering.SortedUnique` | death_pool.py:87 | Two strictly ascending sequences with the same values are equal. So `sorted(unique(years))` is the one ascending list of the distinct years. |
| `Seqs.Unique` | death_pool_animated.py:31 | The result has no repeats and holds exactly the values of the input. |
| `Seqs.UniquePrefix` | death_pool_animated.py:31 | The distinct values of every prefix of the input are the leading entries of the result, which is order of first appearance. |
| `YearRanges.MinOf` | death_pool.py:88 | The result is a value of the input and no value is smaller (`min(years)`). |
| `YearRanges.Span` | death_pool.py:88 | `range(lo, hi)` has `hi - lo` entries when lo < hi and none otherwise, and entry k is `lo + k`. |
| `YearRanges.InSpan` | death_pool.py:88 | An integer is in `range(lo, hi)` exactly when lo <= it < hi. |
| `YearRanges.SortedYears` | death_pool.py:87 | `sorted(unique(years))` is strictly ascending and holds exactly the values of the Year column. |
| `YearRanges.CumulativeRanges` | death_pool.py:88 | There is one range per given year, and range i runs contiguously from the first year through year i. |
| `YearRanges.CumulativeEnds` | death_pool.py:58 | A cumulative range starts at the earliest year. It ends at its own year, which is the year the chart title shows. It contains every integer year in between. |
| `YearRanges.SortedRanges` | death_pool.py:87-88 | There is one range per distinct year. Each range is contiguous from the earliest year, and the ranges are strictly ascending in their last year. Each range is a prefix of every later one. Empty data gives no ranges. |
| `YearRanges.ArrivalRanges` | death_pool_animated.py:31-33 | There is one range per distinct year, in order of first appearance. Each range is contiguous from the earliest year to that year, and the guard drops none. |
| `YearRanges.GuardNeverDrops` | death_pool_animated.py:33 | Filtering the distinct years by `year >= min(years)` returns them all. |
| `YearRanges.SameRangesEitherOrder` | death_pool_animated.py:31-33 | A range is produced by the animated script exactly when the static script produces it. The two lists differ only in order. |
| `YearRanges.SortedRangesAreSpans` | death_pool.py:87-88 | Every range of the static script is `range(min(years), y + 1)` for its own last year y. |
| `YearRanges.ArrivalRangesAreSpans` | death_pool_animated.py:31-33 | Every range of the animated script is `range(min(years), y + 1)` for its own last year y. |
| `Records.YearSetSize` | death_pool.py:42 | A group never has more distinct years than rows. |
| `Records.YearSetIsYearColumn` | death_pool.py:42 | The year set of a group is the set of values in its Year column, whose size `nunique` counts. |
| `Aggregation.InRange` | death_pool.py:34 | Every copy of each row dated within the range is kept, unchanged and in order. No other row is kept. |
| `Aggregation.Players` | death_pool.py:37 | The group keys are strictly sorted and are exactly the players that have a row. |
| `Aggregation.OwnRowsSum` | death_pool.py:38-40 | Summing a column over a player's group equals the reference total, where every row of the table counts for its own player only. |
| `Aggregation.MeanRank` | death_pool_animated.py:46 | The mean rank times the number of rows equals the sum of the ranks, and the mean of a single row is its rank. |
| `Aggregation.Summarize` | death_pool.py:37-43 | A player's row totals Deaths, Points and Wins exactly as the reference per-player sums do. Its mean rank times the row count equals the rank sum, and one row gives its own rank. Count_Years is the number of distinct values in the Year column of the player's rows (`nunique`), between 1 and the number of rows. |
| `Aggregation.AverageWithinRanks` | death_pool.py:41 | A player's mean rank lies between their best and worst rank. |
| `Aggregation.GroupBy` | death_pool_animated.py:42-47 | There is one row per player present and none for anyone else, sorted by name. Each row is that player's summary. |
| `Aggregation.Aggregate` | death_pool.py:34-43 | The rows are strictly sorted by player name. There is exactly one row per player with a row dated within the range, and none for any other player. Each row summarises the in-range rows, and Count_Years never exceeds the length of the range. |
| `Aggregation.CountYearsWithinRange` | death_pool.py:42 | Count_Years is at most the number of years in the range. |
| `Aggregation.TotalsConserved` | death_pool.py:38-40 | Adding up a totals column over all rows of the aggregated table gives the column sum of the grouped rows. No row is lost or counted twice. |
| `Encoding.ScaleOrder` | death_pool.py:82-84 | Min-max scaling preserves and reflects the order of values. |
| `Encoding.ScaleEnds` | death_pool.py:82-84 | A value scales to 0 exactly when it is the minimum, and to 1 exactly when it is the maximum. |
| `Encoding.MinReal` | death_pool_animated.py:51 | `xs.min()` is a value of the column and no value is smaller. |
| `Encoding.MaxReal` | death_pool_animated.py:51 | `xs.max()` is a value of the column and no value is larger. |
| `Encoding.MinMaxNormalise` | death_pool_animated.py:50-52 | The result is undefined exactly when a non-empty column has no spread. Otherwise there is one value per input, in [0, 1]. Order holds in both directions, and 0 or 1 is given exactly to a minimal or maximal input. Each value times the distance from a least to a greatest input is the distance of its own input from that least one. |
| `Encoding.ScaleAll` | death_pool_animated.py:51 | Scaling every value by the least and greatest values gives the same facts as `MinMaxNormalise` when the column has spread. |
| `Encoding.NormaliseAffine` | death_pool_animated.py:51 | Scaling by the least and greatest values puts every value at its own fraction of the way from a least to a greatest value. |
| `Encoding.ExpSize` | death_pool.py:50 | The size is a multiple of 100 between 100 and 50000, and no wins gives 100. |
| `Encoding.ExpSizeMonotone` | death_pool.py:50 | More wins never give a smaller size. |
| `Encoding.ExpSizeSaturates` | death_pool.py:50 | Every total of 9 wins or more gives the cap, 50000. |
| `Encoding.ExpSizeDoubles` | death_pool.py:50 | Below the cap each extra win doubles the size. |
| `Encoding.ExpSizeInt64` | death_pool.py:50 | The size the int64 column holds is a signed 64-bit value. Its values are fixed by the next two lemmas. |
| `Encoding.ExpSizeInt64AgreesBelow63` | death_pool.py:50 | Below 63 wins, the int64 computation gives the exact size. |
| `Encoding.ExpSizeInt64VanishesFrom63` | death_pool.py:50 | From 63 wins on, the int64 computation gives size 0, which is smaller than the size for 9 wins. |
| `Encoding.LinearSize` | death_pool_animated.py:55-59 | No wins gives 100, two wins give 500, and any non-negative total gives at least 100. |
| `Encoding.LinearSizeIncreasing` | death_pool_animated.py:59 | The linear size is strictly increasing in wins. |
| `Encoding.LinearSizeUnclamped` | death_pool_animated.py:55-59 | More than two wins give a size above the 500 the script names as its maximum. |
| `Grid.GridRows` | death_pool.py:91 | The rows hold all charts, and one row fewer would not. |
| `Grid.GridRowsFewest` | death_pool.py:91 | No smaller row count holds the charts. |
| `Grid.BlankedCells` | death_pool.py:108-109 | Fewer than 4 cells are switched off, and the charts plus the blank cells fill the grid exactly. |
| `Pipeline.TotalWinsNonNegative` | death_pool.py:40 | With non-negative Wins, every Total_Wins is non-negative. |
| `Pipeline.RangeEndingInDataHasRows` | death_pool.py:34-43 | A range that ends at a year of the data yields at least one row, so no chart is empty. |
| `Pipeline.FirstUndefined` | death_pool.py:99-100 | The position where the plotting loop stops: every earlier table has only non-negative Total_Wins, and the table there, if any, has a negative one. |
| `Pipeline.FirstNegative` | death_pool.py:99-100 | The same position, stated for the aggregated table of each range. |
| `Pipeline.PanelFor` | death_pool.py:25-58 | The panel of a range ending at a year of the data is titled with that year and shows the aggregated rows of the range, non-empty, with colour and size. |
| `Pipeline.ChartThrough` | death_pool.py:88 | The chart titled y is sorted by player name and has a row for exactly the players with a row dated from the first year of the data through y. |
| `Pipeline.RangeIsChart` | death_pool.py:88 | A range that runs from the first year of the data to its own last year has the aggregated rows of the chart titled with that year. |
| `Pipeline.RangesAreCharts` | death_pool.py:88 | The same for every range of a list. |
| `Pipeline.StaticRangesFromFirstYear` | death_pool.py:87-88 | The static ranges of non-empty data run from its first year. |
| `Pipeline.ArrivalRangesFromFirstYear` | death_pool_animated.py:31-33 | The animated ranges of non-empty data run from its first year. |
| `Pipeline.PanelTitles` | death_pool.py:58 | The panel titles are exactly the years of the data, in strictly ascending order. |
| `Pipeline.NegativeAt` | death_pool.py:50 | Where the loop stops, the chart titled with that year has a negative Total_Wins, and every chart of an earlier year of the data has none. |
| `Pipeline.PanelsShowFigure` | death_pool.py:91-109 | Panels that show their ranges make the figure the static script draws: grid, unused rank colours, titles and contents. |
| `Pipeline.FigureOf` | death_pool.py:91-109 | When no chart has a negative Total_Wins, the figure shows one panel per year with its cumulative rows and encodings. |
| `Pipeline.PlotRanges` | death_pool.py:99-100 | The loop either stops at the first chart with a negative Total_Wins or yields the whole figure. |
| `Pipeline.NeverStops` | death_pool.py:40 | With non-negative Wins in every row, no chart stops the script. |
| `Pipeline.StaticFigureFailsOnlyOnColumns` | death_pool.py:76-79 | With non-negative Wins in every row, the static script can fail only for a missing column. |
| `Pipeline.StaticPanel` | death_pool.py:46-53 | Each point is coloured by its raw mean rank, and its size is `min(2 ** Total_Wins, 500) * 100` for its own Total_Wins. So no wins give 100, 9 or more give 50000, every size lies in [100, 50000] and more wins never give a smaller size. |
| `Pipeline.StaticPanels` | death_pool.py:99-100 | There is one panel per range. Panel i is titled with the last year of range i, shows the aggregated rows of range i, has at least one point and carries the colour and size of each row. |
| `Pipeline.StaticFigure` | death_pool.py:71-109 | Loading fails exactly when a required column is absent, reporting the ordered missing list. A `NegativeWinsPower` error names the first year, in ascending order, whose chart holds a negative Total_Wins. Otherwise there is one panel per distinct year, in ascending order. Each panel shows the aggregated rows from the first year of the data through its year, with colour and size. The grid holds all panels with fewer than 4 blank cells. |
| `Pipeline.AnimatedFrame` | death_pool_animated.py:50-59 | The size of each point is `200 * Total_Wins + 100`. Colours are undefined exactly when the frame's players share one mean rank. Otherwise they lie in [0, 1] and follow the order of mean rank both ways, and 0 and 1 go exactly to the best and the worst mean rank. Every player sits at the fraction of the way from the best to the worst mean rank that their own mean rank lies at. |
| `Pipeline.NormalisedAverages` | death_pool_animated.py:50-52 | The normalised mean ranks are undefined exactly when the players share one mean rank. Otherwise they keep the order of the mean ranks both ways and put the best and worst players at 0 and 1. Every player sits at the fraction of the way from the best to the worst mean rank that their own mean rank lies at. |
| `Pipeline.FractionsByRank` | death_pool_animated.py:51 | The fractions of `MinMaxNormalise`, read per player against the best and worst mean ranks. |
| `Pipeline.AnimatedFramesOf` | death_pool_animated.py:110-112 | There is one frame per range, titled with its last year, showing its aggregated rows, non-empty, with colour and size. |
| `Pipeline.FramesAreCharted` | death_pool_animated.py:33 | Frames over ranges from the first year of the data show the charts through their own years. |
| `Pipeline.PlotFrames` | death_pool_animated.py:110-112 | The frames of the loop are titled with their ranges' last years and chart the data through those years. |
| `Pipeline.ArrivalRangesPlottable` | death_pool_animated.py:31-33 | The animated ranges each end at a year of the data and run from its first year. |
| `Pipeline.YearFrames` | death_pool_animated.py:30-113 | One frame per distinct year in order of first appearance, each charting the data through its year. |
| `Pipeline.AnimatedFrames` | death_pool_animated.py:28-113 | Loading fails exactly when Year or Player is absent. Otherwise there is one frame per distinct year, in order of first appearance. Each frame shows the aggregated rows from the first year of the data through its year, with the normalised colour and the linear size. |
| `WorkedExamples.WorkedExample` | death_pool.py:34-43 | For the three-row example, PlayerA through 2021 has 3 deaths, 14 points, 0 wins, mean rank 2.5 and 2 distinct years. |
| `WorkedExamples.ExampleGroup` | death_pool.py:34-37 | In the three-row example, PlayerA's rows through 2021 are its two rows. |
| `WorkedExamples.ExampleTotals` | death_pool.py:38-42 | PlayerA's two rows hold 3 deaths, 14 points, 0 wins, mean rank 2.5 and 2 distinct years. |
| `WorkedExamples.ExampleYearsSorted` | death_pool.py:87 | Any data whose years are 2017, 2019 and 2020 sorts them to 2017, 2019, 2020. |
| `WorkedExamples.ExampleSpans` | death_pool.py:88 | Ranges from 2017 to 2017, 2019 and 2020 are [2017], [2017..2019] and [2017..2020]. |
| `WorkedExamples.RangesExample` | death_pool.py:87-88 | Data with years 2017, 2019 and 2020 gives the ranges [2017], [2017, 2018, 2019] and [2017, 2018, 2019, 2020]. |

## Left out

- Reading the CSV file, file-not-found and parse errors, `exit()` and the
  printed messages are I/O and process control. The model starts from a
  header and a sequence of rows.
- All drawing is left out, because it is rendering through matplotlib.
  This covers scatter, colour map, colour bar, labels, integer tick
  locators, grid styling, figure size, `tight_layout`, `savefig` and
  `show`.
- GIF assembly with PIL, frame file paths, directory creation and frame
  deletion are left out. They are image encoding and filesystem work.
- The per-frame `try/except` of the animated script is left out. A frame
  fails there when Deaths, Points, Wins or Rank is missing, because the
  unchecked column raises a KeyError. In the model every row has all six
  fields.
- Empty data is only partly modelled. It yields zero ranges
  and zero grid rows, and matplotlib then refuses to create a 0-row grid.
  Plotting is not modelled.
- A negative summed Total_Wins is modelled as the error `NegativeWinsPower`,
  not as numpy's exception text.
- `Pipeline.StaticPanel` uses the exact size `ExpSize`, not the int64
  computation. At 63 or more Total_Wins the script draws a marker of size
  0 and the model one of size 50000 (see Findings).
- `Pipeline.StaticFigure` inherits the same choice for every panel: its
  sizes are the corrected ones, not the wrapped ones from 63 wins on.
- `Records.Sum` and `Records.SumFor` add exact integers. pandas sums an
  int64 column and wraps around when a total passes 2^63 - 1
  (death_pool.py:38-40, death_pool_animated.py:43-45). Totals that large
  are not modelled.
- `Encoding.ExpSize`: the model uses exact integers. The int64 behaviour of
  the source is modelled separately by `ExpSizeInt64` (see Findings).
- Floating point is not modelled. Rank, mean rank and normalised colours
  are exact reals, and NaN is `None`.
- Deaths and Points are modelled as integers. The scripts would also sum
  fractional values.
- The animated script does not compute Count_Years. Its rows in the model
  carry the value anyway, and nothing in the animated output reads it.

## Findings

| source | as written | input that shows it | evidently intended | confidence | as-written member | corrected member |
|---|---|---|---|---|---|---|
| death_pool.py:50 | `2 ** Total_Wins` and the product by 100 are computed on an int64 column, and numpy wraps around silently | a player with 63 or more total wins gets marker size 0, an invisible point, while 9 wins already give 50000 | the capped size `min(2 ** wins, 500) * 100` with exact integers, so every total of 9 wins or more gets 50000 | medium (not executed; depends on numpy's int64 power wrapping rather than raising) | `Encoding.ExpSizeInt64VanishesFrom63` | `Encoding.ExpSize` |
