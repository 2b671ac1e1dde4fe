/** The data step of both scripts end to end: the column check, the year
    ranges and, per range, the aggregated rows with their colour and size
    encodings. Drawing is not modelled; a chart is the data it would show. */
module Pipeline {
  import opened Options
  import opened Seqs
  import opened Records
  import opened Columns
  import opened YearRanges
  import opened Ordering
  import opened Aggregation
  import opened Encoding
  import opened Grid

  /** The Year column. */
  function Years(rs: seq<Record>): (ys: seq<int>)
    ensures |ys| == |rs|
    ensures forall i :: 0 <= i < |rs| ==> ys[i] == rs[i].year
  {
    seq(|rs|, i requires 0 <= i < |rs| => rs[i].year)
  }

  /** The Rank column. */
  function Ranks(rs: seq<Record>): (ks: seq<real>)
    ensures |ks| == |rs|
    ensures forall i :: 0 <= i < |rs| ==> ks[i] == rs[i].rank
  {
    seq(|rs|, i requires 0 <= i < |rs| => rs[i].rank)
  }

  /** The Average_Rank column of an aggregated table. */
  function Averages(g: seq<Summary>): (a: seq<real>)
    ensures |a| == |g|
    ensures forall i :: 0 <= i < |g| ==> a[i] == g[i].averageRank
  {
    seq(|g|, i requires 0 <= i < |g| => g[i].averageRank)
  }

  /** Every row of the data has non-negative Wins. */
  predicate WinsNonNegative(rs: seq<Record>) {
    forall x :: x in rs ==> x.wins >= 0
  }

  /** `2 ** Total_Wins` is defined for every row of an aggregated table:
      numpy refuses a negative integer power with an error. */
  predicate PowersDefined(g: seq<Summary>) {
    forall i :: 0 <= i < |g| ==> g[i].totalWins >= 0
  }

  /** The rows of the chart titled `y`: the data from the first year of the
      data through `y`, filtered and grouped by player. */
  function ChartThrough(rs: seq<Record>, y: int): (c: seq<Summary>)
    requires |rs| > 0
    ensures forall i, j :: 0 <= i < j < |c| ==> LexLess(c[i].player, c[j].player)
    ensures forall p :: (exists i :: 0 <= i < |c| && c[i].player == p) <==>
      PlaysBetween(rs, MinOf(Years(rs)), y, p)
  {
    var lo := MinOf(Years(rs));
    var range := Span(lo, y + 1);
    assert forall p :: PlaysIn(rs, range, p) <==> PlaysBetween(rs, lo, y, p) by {
      InSpan(lo, y + 1);
    }
    Aggregate(rs, range)
  }

  /** Some row of `rs` belongs to `p` and is dated from `lo` through `hi`. */
  predicate PlaysBetween(rs: seq<Record>, lo: int, hi: int, p: string) {
    exists x :: x in rs && lo <= x.year <= hi && x.player == p
  }

  /** One subplot of the static figure. */
  datatype Panel = Panel(lastYear: int, rows: seq<Summary>, colour: seq<real>, size: seq<int>)

  /** The static figure: the grid shape, one panel per range, the number of
      blanked cells, and the whole-table `Rank_Color` column it computes. */
  datatype Figure = Figure(gridRows: nat, panels: seq<Panel>, blanked: nat, rankColour: Option<seq<real>>)

  /** Why the static script stops: a missing column, or a negative total of
      wins reaching `2 ** Total_Wins` in the panel titled `lastYear`. */
  datatype StaticError =
    | ColumnsMissing(cause: LoadError)
    | NegativeWinsPower(lastYear: int)

  /** One frame of the animation. */
  datatype Frame = Frame(lastYear: int, rows: seq<Summary>, colour: Option<seq<real>>, size: seq<real>)

  lemma {:induction false} SumForNonNegative(rs: seq<Record>, p: string)
    requires WinsNonNegative(rs)
    ensures SumFor(rs, p, Wins) >= 0
    decreases |rs|
  {
    if |rs| > 0 {
      assert rs[0] in rs;
      assert forall x :: x in rs[1..] ==> x in rs;
      SumForNonNegative(rs[1..], p);
    }
  }

  /** Total wins are non-negative in every aggregated row. */
  lemma TotalWinsNonNegative(rs: seq<Record>, range: seq<int>)
    requires WinsNonNegative(rs)
    ensures PowersDefined(Aggregate(rs, range))
  {
    var inRange := InRange(rs, range);
    var g := Aggregate(rs, range);
    forall i | 0 <= i < |g| ensures g[i].totalWins >= 0 {
      SumForNonNegative(inRange, g[i].player);
    }
  }

  /** A panel shows the mean rank as colour and `min(2 ** Total_Wins, 500) * 100`
      as size, row by row. */
  predicate StaticEncoded(p: Panel) {
    && |p.colour| == |p.rows| && |p.size| == |p.rows|
    && (forall j :: 0 <= j < |p.rows| ==> p.colour[j] == p.rows[j].averageRank)
    && (forall j :: 0 <= j < |p.rows| ==> p.rows[j].totalWins >= 0 && p.size[j] == ExpSize(p.rows[j].totalWins))
  }

  /** The encodings of `plot_cumulative_years` for an aggregated table:
      raw mean rank as colour and the capped exponential size. */
  function StaticPanel(lastYear: int, g: seq<Summary>): (p: Panel)
    requires PowersDefined(g)
    ensures p.lastYear == lastYear && p.rows == g
    ensures StaticEncoded(p)
    ensures forall i :: 0 <= i < |g| ==> SizeScale <= p.size[i] <= WinsCap * SizeScale
    ensures forall i :: 0 <= i < |g| && g[i].totalWins == 0 ==> p.size[i] == SizeScale
    ensures forall i :: 0 <= i < |g| && g[i].totalWins >= 9 ==> p.size[i] == WinsCap * SizeScale
    ensures forall i, j :: 0 <= i < |g| && 0 <= j < |g| && g[i].totalWins <= g[j].totalWins ==>
      p.size[i] <= p.size[j]
  {
    var size := seq(|g|, i requires 0 <= i < |g| => ExpSize(g[i].totalWins));
    forall i | 0 <= i < |g| && g[i].totalWins >= 9 ensures size[i] == WinsCap * SizeScale {
      ExpSizeSaturates(g[i].totalWins);
    }
    forall i, j | 0 <= i < |g| && 0 <= j < |g| && g[i].totalWins <= g[j].totalWins
      ensures size[i] <= size[j]
    {
      ExpSizeMonotone(g[i].totalWins, g[j].totalWins);
    }
    Panel(lastYear, g, Averages(g), size)
  }

  /** A range ending at a year of the data yields at least one row. */
  lemma RangeEndingInDataHasRows(rs: seq<Record>, range: seq<int>)
    requires |range| > 0 && Last(range) in Years(rs)
    ensures |Aggregate(rs, range)| > 0
  {
    var i :| 0 <= i < |rs| && Years(rs)[i] == Last(range);
    var x := rs[i];
    assert x in rs && x.year in range;
    assert PlaysIn(rs, range, x.player);
  }

  /** The ranges both scripts derive from the data end at years of the data. */
  predicate EndInData(rs: seq<Record>, ranges: seq<seq<int>>) {
    forall i :: 0 <= i < |ranges| ==> |ranges[i]| > 0 && Last(ranges[i]) in Years(rs)
  }

  /** The position of the first chart holding a negative total of wins,
      where the plotting loop stops; `|charts|` when there is none. */
  function FirstUndefined(charts: seq<seq<Summary>>): (k: nat)
    ensures k <= |charts|
    ensures forall i :: 0 <= i < k ==> PowersDefined(charts[i])
    ensures k < |charts| ==> !PowersDefined(charts[k])
  {
    if |charts| == 0 then 0
    else if !PowersDefined(charts[0]) then 0
    else
      var k := FirstUndefined(charts[1..]);
      assert forall i :: 1 <= i < k + 1 ==> charts[i] == charts[1..][i - 1];
      k + 1
  }

  /** The aggregated table of each range. */
  function Charts(rs: seq<Record>, ranges: seq<seq<int>>): (cs: seq<seq<Summary>>)
    ensures |cs| == |ranges|
    ensures forall i :: 0 <= i < |cs| ==> cs[i] == Aggregate(rs, ranges[i])
  {
    seq(|ranges|, i requires 0 <= i < |ranges| => Aggregate(rs, ranges[i]))
  }

  /** The position of the first range whose table has a negative total of
      wins; `|ranges|` when there is none. */
  function FirstNegative(rs: seq<Record>, ranges: seq<seq<int>>): (k: nat)
    ensures k <= |ranges|
    ensures forall i :: 0 <= i < k ==> PowersDefined(Aggregate(rs, ranges[i]))
    ensures k < |ranges| ==> !PowersDefined(Aggregate(rs, ranges[k]))
  {
    FirstUndefined(Charts(rs, ranges))
  }

  /** Panel `p` titles `range` by its last year and charts its aggregated
      rows, encoded as the static script draws them. */
  predicate PanelShows(rs: seq<Record>, range: seq<int>, p: Panel) {
    && |range| > 0
    && p.lastYear == Last(range)
    && p.rows == Aggregate(rs, range)
    && |p.rows| > 0
    && StaticEncoded(p)
  }

  /** The static panel of one range ending at a year of the data. */
  function PanelFor(rs: seq<Record>, range: seq<int>): (p: Panel)
    requires |range| > 0 && Last(range) in Years(rs)
    requires PowersDefined(Aggregate(rs, range))
    ensures PanelShows(rs, range, p)
  {
    RangeEndingInDataHasRows(rs, range);
    StaticPanel(Last(range), Aggregate(rs, range))
  }

  /** One static panel per range, each showing that range's aggregated rows. */
  function StaticPanels(rs: seq<Record>, ranges: seq<seq<int>>): (ps: seq<Panel>)
    requires EndInData(rs, ranges)
    requires forall i :: 0 <= i < |ranges| ==> PowersDefined(Aggregate(rs, ranges[i]))
    ensures |ps| == |ranges|
    ensures forall i :: 0 <= i < |ps| ==> PanelShows(rs, ranges[i], ps[i])
  {
    seq(|ranges|, i requires 0 <= i < |ranges| => PanelFor(rs, ranges[i]))
  }

  /** Every range runs from the first year of the data through its own
      last year, as `list(range(min(valid_years), y + 1))` builds it. */
  predicate FromFirstYear(rs: seq<Record>, ranges: seq<seq<int>>) {
    && |rs| > 0
    && (forall i :: 0 <= i < |ranges| ==> |ranges[i]| > 0)
    && SpansTo(ranges, MinOf(Years(rs)), Ends(ranges))
  }

  /** A range from the first year of the data is the chart it titles. */
  lemma SpanIsChart(rs: seq<Record>, r: seq<int>)
    requires |rs| > 0 && |r| > 0 && r == Span(MinOf(Years(rs)), Last(r) + 1)
    ensures Aggregate(rs, r) == ChartThrough(rs, Last(r))
  {
  }

  /** One such range is the chart it titles. */
  lemma {:induction false} RangeIsChart(rs: seq<Record>, ranges: seq<seq<int>>, i: nat)
    requires FromFirstYear(rs, ranges) && i < |ranges|
    ensures Aggregate(rs, ranges[i]) == ChartThrough(rs, Last(ranges[i]))
  {
    var r := ranges[i];
    assert r == Span(MinOf(Years(rs)), Ends(ranges)[i] + 1);
    assert Ends(ranges)[i] == Last(r);
    SpanIsChart(rs, r);
  }

  /** Such ranges are the charts they title. */
  lemma {:induction false} RangesAreCharts(rs: seq<Record>, ranges: seq<seq<int>>)
    requires FromFirstYear(rs, ranges)
    ensures forall i :: 0 <= i < |ranges| ==> Aggregate(rs, ranges[i]) == ChartThrough(rs, Last(ranges[i]))
  {
    forall i | 0 <= i < |ranges| ensures Aggregate(rs, ranges[i]) == ChartThrough(rs, Last(ranges[i])) {
      RangeIsChart(rs, ranges, i);
    }
  }

  /** The static script's ranges run from the first year of the data. */
  lemma {:induction false} StaticRangesFromFirstYear(rs: seq<Record>)
    requires |rs| > 0
    ensures FromFirstYear(rs, SortedRanges(Years(rs)))
  {
    SortedRangesAreSpans(Years(rs));
  }

  /** The animated script's ranges run from the first year of the data. */
  lemma {:induction false} ArrivalRangesFromFirstYear(rs: seq<Record>)
    requires |rs| > 0
    ensures FromFirstYear(rs, ArrivalRanges(Years(rs)))
  {
    ArrivalRangesAreSpans(Years(rs));
  }

  /** Along ascending ranges, a smaller last year comes earlier. */
  lemma EarlierTitle(ranges: seq<seq<int>>, j: nat, k: nat)
    requires Ascending(ranges)
    requires j < |ranges| && k < |ranges| && |ranges[j]| > 0 && |ranges[k]| > 0
    requires Last(ranges[j]) < Last(ranges[k])
    ensures j < k
  {
  }

  /** Where the static plotting loop stops: the chart it fails on is titled
      with a year of the data, and every chart titled with an earlier year
      plots. */
  lemma {:induction false} NegativeAt(rs: seq<Record>, ranges: seq<seq<int>>, k: nat)
    requires OnePerYear(ranges, Years(rs)) && Ascending(ranges) && FromFirstYear(rs, ranges)
    requires k < |ranges| && !PowersDefined(Aggregate(rs, ranges[k]))
    requires forall i :: 0 <= i < k ==> PowersDefined(Aggregate(rs, ranges[i]))
    ensures |rs| > 0 && |ranges[k]| > 0 && Last(ranges[k]) in Years(rs)
    ensures !PowersDefined(ChartThrough(rs, Last(ranges[k])))
    ensures forall y :: y in Years(rs) && y < Last(ranges[k]) ==> PowersDefined(ChartThrough(rs, y))
  {
    RangesAreCharts(rs, ranges);
    forall y | y in Years(rs) && y < Last(ranges[k]) ensures PowersDefined(ChartThrough(rs, y)) {
      var j :| 0 <= j < |ranges| && |ranges[j]| > 0 && Last(ranges[j]) == y;
      EarlierTitle(ranges, j, k);
    }
  }

  /** Panels titled by one range each, in range order, are titled once per
      year of the data and in ascending order. */
  lemma {:induction false} PanelTitles(rs: seq<Record>, ranges: seq<seq<int>>, panels: seq<Panel>)
    requires OnePerYear(ranges, Years(rs)) && Ascending(ranges)
    requires |panels| == |ranges|
    requires forall i :: 0 <= i < |panels| ==> |ranges[i]| > 0 && panels[i].lastYear == Last(ranges[i])
    ensures forall y :: y in Years(rs) <==> exists i :: 0 <= i < |panels| && panels[i].lastYear == y
    ensures forall i, j :: 0 <= i < j < |panels| ==> panels[i].lastYear < panels[j].lastYear
  {
    forall y | y in Years(rs) ensures exists i :: 0 <= i < |panels| && panels[i].lastYear == y {
      var i :| 0 <= i < |ranges| && |ranges[i]| > 0 && Last(ranges[i]) == y;
      assert panels[i].lastYear == y;
    }
  }

  /** The figure's panels are titled by the years of the data, each year
      once, in ascending order. */
  ghost predicate PanelsTitled(rs: seq<Record>, panels: seq<Panel>) {
    && (forall y :: y in Years(rs) <==> exists i :: 0 <= i < |panels| && panels[i].lastYear == y)
    && (forall i, j :: 0 <= i < j < |panels| ==> panels[i].lastYear < panels[j].lastYear)
  }

  /** Each panel holds the rows of the chart through its year, encoded. */
  predicate PanelsCharted(rs: seq<Record>, panels: seq<Panel>) {
    && (forall i :: 0 <= i < |panels| ==> |rs| > 0 && panels[i].rows == ChartThrough(rs, panels[i].lastYear))
    && (forall i :: 0 <= i < |panels| ==> |panels[i].rows| > 0 && StaticEncoded(panels[i]))
  }

  /** What a figure drawn from `rs` shows: a grid just large enough for one
      panel per year of the data, the panels in ascending year order, each
      with the rows of the chart through its year and their encodings. */
  ghost predicate FigureShows(rs: seq<Record>, f: Figure) {
    && |f.panels| + f.blanked == f.gridRows * Cols
    && f.blanked < Cols
    && f.rankColour == MinMaxNormalise(Ranks(rs))
    && PanelsTitled(rs, f.panels)
    && PanelsCharted(rs, f.panels)
  }

  /** The static script stops at the chart titled `y`: it is the first chart,
      in year order, with a negative total of wins. */
  predicate StopsAt(rs: seq<Record>, y: int) {
    && |rs| > 0
    && y in Years(rs)
    && !PowersDefined(ChartThrough(rs, y))
    && forall z :: z in Years(rs) && z < y ==> PowersDefined(ChartThrough(rs, z))
  }

  /** The figure the static script draws when every range can be plotted. */
  function FigureOf(rs: seq<Record>, ranges: seq<seq<int>>): (f: Figure)
    requires OnePerYear(ranges, Years(rs)) && Ascending(ranges)
    requires |rs| > 0 ==> FromFirstYear(rs, ranges)
    requires forall i :: 0 <= i < |ranges| ==> PowersDefined(Aggregate(rs, ranges[i]))
    ensures FigureShows(rs, f)
  {
    var panels := StaticPanels(rs, ranges);
    PanelsShowFigure(rs, ranges, panels);
    Figure(GridRows(|ranges|), panels, BlankedCells(|ranges|), MinMaxNormalise(Ranks(rs)))
  }

  /** Panels that show their ranges, one per year of the data, make the
      figure the static script draws. */
  lemma {:induction false} PanelsShowFigure(rs: seq<Record>, ranges: seq<seq<int>>, panels: seq<Panel>)
    requires OnePerYear(ranges, Years(rs)) && Ascending(ranges)
    requires |rs| > 0 ==> FromFirstYear(rs, ranges)
    requires |panels| == |ranges|
    requires forall i :: 0 <= i < |panels| ==> PanelShows(rs, ranges[i], panels[i])
    ensures FigureShows(rs, Figure(GridRows(|ranges|), panels, BlankedCells(|ranges|), MinMaxNormalise(Ranks(rs))))
  {
    assert PanelsTitled(rs, panels) by {
      PanelTitles(rs, ranges, panels);
    }
    assert PanelsCharted(rs, panels) by {
      if |panels| > 0 {
        assert Last(ranges[0]) in Years(rs);
        RangesAreCharts(rs, ranges);
      }
    }
  }

  /** The plotting loop of the static script over its ranges. */
  function PlotRanges(rs: seq<Record>, ranges: seq<seq<int>>): (r: Result<Figure, StaticError>)
    requires OnePerYear(ranges, Years(rs)) && Ascending(ranges)
    requires |rs| > 0 ==> FromFirstYear(rs, ranges)
    ensures r.Err? ==> r.error.NegativeWinsPower? && StopsAt(rs, r.error.lastYear)
    ensures r.Ok? ==> FigureShows(rs, r.value)
  {
    var k := FirstNegative(rs, ranges);
    if k < |ranges| then
      assert StopsAt(rs, Last(ranges[k])) by {
        assert Last(ranges[k]) in Years(rs);
        NegativeAt(rs, ranges, k);
      }
      Err(NegativeWinsPower(Last(ranges[k])))
    else
      Ok(FigureOf(rs, ranges))
  }

  /** `main` of the static script: the column check, then one panel per
      year of the data, stopping at the first chart whose wins numpy cannot
      raise 2 to. */
  function StaticFigure(header: seq<string>, rs: seq<Record>): (r: Result<Figure, StaticError>)
    ensures r.Err? && r.error.ColumnsMissing? <==> exists c :: c in Required && c !in header
    ensures r.Err? && r.error.ColumnsMissing? ==> r.error.cause == MissingColumns(Missing(header))
    ensures r.Err? && r.error.NegativeWinsPower? ==> StopsAt(rs, r.error.lastYear)
    ensures r.Ok? ==> FigureShows(rs, r.value)
  {
    match CheckAll(header)
    case Err(e) => Err(ColumnsMissing(e))
    case Ok(_) =>
      var ranges := SortedRanges(Years(rs));
      assert OnePerYear(ranges, Years(rs)) && Ascending(ranges);
      assert |rs| > 0 ==> FromFirstYear(rs, ranges) by {
        if |rs| > 0 {
          StaticRangesFromFirstYear(rs);
        }
      }
      PlotRanges(rs, ranges)
  }

  /** With non-negative Wins in every row, no chart has a negative total. */
  lemma NeverStops(rs: seq<Record>, y: int)
    requires WinsNonNegative(rs)
    ensures !StopsAt(rs, y)
  {
    if |rs| > 0 {
      TotalWinsNonNegative(rs, Span(MinOf(Years(rs)), y + 1));
    }
  }

  /** With non-negative Wins in every row, the static script can only stop
      for a missing column. */
  lemma StaticFigureFailsOnlyOnColumns(header: seq<string>, rs: seq<Record>)
    requires WinsNonNegative(rs)
    ensures StaticFigure(header, rs).Err? ==> StaticFigure(header, rs).error.ColumnsMissing?
  {
    var r := StaticFigure(header, rs);
    if r.Err? && r.error.NegativeWinsPower? {
      NeverStops(rs, r.error.lastYear);
    }
  }

  /** A frame shows the mean rank normalised over the players shown as colour,
      and `(Total_Wins / 2) * (500 - 100) + 100` as size. */
  predicate AnimatedEncoded(f: Frame) {
    && f.colour == MinMaxNormalise(Averages(f.rows))
    && |f.size| == |f.rows|
    && forall j :: 0 <= j < |f.rows| ==> f.size[j] == 200.0 * (f.rows[j].totalWins as real) + 100.0
  }

  /** The colour of the animated script, read per player: the normalised
      mean ranks keep their order, the best and worst players sit at the
      ends of the scale, and every other player sits at the fraction of the
      way between them that their mean rank does. */
  lemma NormalisedAverages(g: seq<Summary>)
    ensures MinMaxNormalise(Averages(g)).None? <==> |g| > 0 && AllEqual(Averages(g))
    ensures MinMaxNormalise(Averages(g)).Some? ==> RankColour(g, MinMaxNormalise(Averages(g)).value)
  {
    var a := Averages(g);
    var c := MinMaxNormalise(a);
    if c.Some? {
      ColumnByRank(g, c.value);
    }
  }

  /** `v` colours the players of `g` by mean rank: one value per player in
      [0, 1], in the order of their mean ranks, 0 exactly for a least and 1
      exactly for a greatest mean rank, and every player at the fraction of
      the way from a least to a greatest mean rank that their own lies at. */
  predicate RankColour(g: seq<Summary>, v: seq<real>) {
    && |v| == |g|
    && (forall i :: 0 <= i < |g| ==> 0.0 <= v[i] <= 1.0)
    && (forall i, j :: 0 <= i < |g| && 0 <= j < |g| ==>
         (g[i].averageRank <= g[j].averageRank <==> v[i] <= v[j]))
    && (forall i :: 0 <= i < |g| ==>
         (v[i] == 0.0 <==> forall j :: 0 <= j < |g| ==> g[i].averageRank <= g[j].averageRank))
    && (forall i :: 0 <= i < |g| ==>
         (v[i] == 1.0 <==> forall j :: 0 <= j < |g| ==> g[j].averageRank <= g[i].averageRank))
    && (forall i, lo, hi | 0 <= i < |g| && 0 <= lo < |g| && 0 <= hi < |g| &&
         (forall j :: 0 <= j < |g| ==> g[lo].averageRank <= g[j].averageRank) &&
         (forall j :: 0 <= j < |g| ==> g[j].averageRank <= g[hi].averageRank) ::
         v[i] * (g[hi].averageRank - g[lo].averageRank) == g[i].averageRank - g[lo].averageRank)
  }

  /** The facts `MinMaxNormalise` gives about the mean-rank column, read per
      player. */
  lemma ColumnByRank(g: seq<Summary>, v: seq<real>)
    requires |v| == |Averages(g)|
    requires Affine(Averages(g), v)
    requires forall i :: 0 <= i < |Averages(g)| ==> 0.0 <= v[i] <= 1.0
    requires forall i, j :: 0 <= i < |Averages(g)| && 0 <= j < |Averages(g)| ==>
      (Averages(g)[i] <= Averages(g)[j] <==> v[i] <= v[j])
    requires forall i :: 0 <= i < |Averages(g)| ==>
      (v[i] == 0.0 <==> forall j :: 0 <= j < |Averages(g)| ==> Averages(g)[i] <= Averages(g)[j])
    requires forall i :: 0 <= i < |Averages(g)| ==>
      (v[i] == 1.0 <==> forall j :: 0 <= j < |Averages(g)| ==> Averages(g)[j] <= Averages(g)[i])
    ensures RankColour(g, v)
  {
    OrderByRank(g, v);
    EndsByRank(g, v);
    FractionsByRank(g, v);
  }

  /** The order of the normalised column is the order of the mean ranks. */
  lemma OrderByRank(g: seq<Summary>, v: seq<real>)
    requires |v| == |Averages(g)|
    requires forall i, j :: 0 <= i < |Averages(g)| && 0 <= j < |Averages(g)| ==>
      (Averages(g)[i] <= Averages(g)[j] <==> v[i] <= v[j])
    ensures forall i, j :: 0 <= i < |g| && 0 <= j < |g| ==>
      (g[i].averageRank <= g[j].averageRank <==> v[i] <= v[j])
  {
    var a := Averages(g);
    forall i, j | 0 <= i < |g| && 0 <= j < |g|
      ensures g[i].averageRank <= g[j].averageRank <==> v[i] <= v[j]
    {
      assert a[i] == g[i].averageRank && a[j] == g[j].averageRank;
    }
  }

  /** The ends of the normalised column are the least and greatest mean
      ranks. */
  lemma EndsByRank(g: seq<Summary>, v: seq<real>)
    requires |v| == |Averages(g)|
    requires forall i :: 0 <= i < |Averages(g)| ==>
      (v[i] == 0.0 <==> forall j :: 0 <= j < |Averages(g)| ==> Averages(g)[i] <= Averages(g)[j])
    requires forall i :: 0 <= i < |Averages(g)| ==>
      (v[i] == 1.0 <==> forall j :: 0 <= j < |Averages(g)| ==> Averages(g)[j] <= Averages(g)[i])
    ensures forall i :: 0 <= i < |g| ==>
      (v[i] == 0.0 <==> forall j :: 0 <= j < |g| ==> g[i].averageRank <= g[j].averageRank)
    ensures forall i :: 0 <= i < |g| ==>
      (v[i] == 1.0 <==> forall j :: 0 <= j < |g| ==> g[j].averageRank <= g[i].averageRank)
  {
    var a := Averages(g);
    assert forall i :: 0 <= i < |g| ==> a[i] == g[i].averageRank;
  }

  /** `Affine` over the mean-rank column, read per player. */
  lemma FractionsByRank(g: seq<Summary>, v: seq<real>)
    requires Affine(Averages(g), v)
    ensures forall i, lo, hi | 0 <= i < |g| && 0 <= lo < |g| && 0 <= hi < |g| &&
        (forall j :: 0 <= j < |g| ==> g[lo].averageRank <= g[j].averageRank) &&
        (forall j :: 0 <= j < |g| ==> g[j].averageRank <= g[hi].averageRank) ::
        v[i] * (g[hi].averageRank - g[lo].averageRank) == g[i].averageRank - g[lo].averageRank
  {
    var a := Averages(g);
    forall i, lo, hi | 0 <= i < |g| && 0 <= lo < |g| && 0 <= hi < |g| &&
      (forall j :: 0 <= j < |g| ==> g[lo].averageRank <= g[j].averageRank) &&
      (forall j :: 0 <= j < |g| ==> g[j].averageRank <= g[hi].averageRank)
      ensures v[i] * (g[hi].averageRank - g[lo].averageRank) == g[i].averageRank - g[lo].averageRank
    {
      assert IsLeastAt(a, lo) && IsGreatestAt(a, hi);
      assert FractionsBetween(a, v, lo, hi);
    }
  }

  /** The encodings of `plot_for_year` for an aggregated table: mean rank
      normalised over the players shown, and the linear size. */
  function AnimatedFrame(lastYear: int, g: seq<Summary>): (f: Frame)
    ensures f.lastYear == lastYear && f.rows == g
    ensures AnimatedEncoded(f)
    ensures f.colour.None? <==> |g| > 0 && AllEqual(Averages(g))
    ensures f.colour.Some? ==> RankColour(g, f.colour.value)
    ensures forall i, j :: 0 <= i < |g| && 0 <= j < |g| && g[i].totalWins < g[j].totalWins ==>
      f.size[i] < f.size[j]
  {
    var size := seq(|g|, i requires 0 <= i < |g| => LinearSize(g[i].totalWins));
    forall i, j | 0 <= i < |g| && 0 <= j < |g| && g[i].totalWins < g[j].totalWins
      ensures size[i] < size[j]
    {
      LinearSizeIncreasing(g[i].totalWins, g[j].totalWins);
    }
    NormalisedAverages(g);
    Frame(lastYear, g, MinMaxNormalise(Averages(g)), size)
  }

  /** One frame per range, each showing that range's aggregated rows. */
  function AnimatedFramesOf(rs: seq<Record>, ranges: seq<seq<int>>): (fs: seq<Frame>)
    requires EndInData(rs, ranges)
    ensures |fs| == |ranges|
    ensures forall i :: 0 <= i < |fs| ==> fs[i].lastYear == Last(ranges[i]) && fs[i].rows == Aggregate(rs, ranges[i])
    ensures forall i :: 0 <= i < |fs| ==> |fs[i].rows| > 0 && AnimatedEncoded(fs[i])
  {
    seq(|ranges|, i requires 0 <= i < |ranges| =>
      RangeEndingInDataHasRows(rs, ranges[i]);
      AnimatedFrame(Last(ranges[i]), Aggregate(rs, ranges[i])))
  }

  /** Every frame shows the rows of the chart through its year, with their
      encodings. */
  predicate FramesCharted(rs: seq<Record>, frames: seq<Frame>) {
    forall i :: 0 <= i < |frames| ==>
      && |rs| > 0
      && frames[i].rows == ChartThrough(rs, frames[i].lastYear)
      && |frames[i].rows| > 0
      && AnimatedEncoded(frames[i])
  }

  /** What the frames drawn from `rs` show: one frame per distinct year in
      order of first appearance, each charting the data through its year. */
  predicate FramesShow(rs: seq<Record>, frames: seq<Frame>) {
    && |frames| == |Unique(Years(rs))|
    && (forall i :: 0 <= i < |frames| ==> frames[i].lastYear == Unique(Years(rs))[i])
    && FramesCharted(rs, frames)
  }

  /** Frames over ranges from the first year of the data chart their years. */
  lemma {:induction false} FramesAreCharted(rs: seq<Record>, ranges: seq<seq<int>>, frames: seq<Frame>)
    requires EndInData(rs, ranges)
    requires |rs| > 0 ==> FromFirstYear(rs, ranges)
    requires |frames| == |ranges|
    requires forall i :: 0 <= i < |frames| ==> frames[i].lastYear == Last(ranges[i]) && frames[i].rows == Aggregate(rs, ranges[i])
    requires forall i :: 0 <= i < |frames| ==> |frames[i].rows| > 0 && AnimatedEncoded(frames[i])
    ensures FramesCharted(rs, frames)
  {
    if |frames| > 0 {
      assert Last(ranges[0]) in Years(rs);
      RangesAreCharts(rs, ranges);
    }
  }

  /** The frames of the animated script over its ranges. */
  function PlotFrames(rs: seq<Record>, ranges: seq<seq<int>>): (fs: seq<Frame>)
    requires EndInData(rs, ranges)
    requires |rs| > 0 ==> FromFirstYear(rs, ranges)
    ensures |fs| == |ranges|
    ensures forall i :: 0 <= i < |fs| ==> fs[i].lastYear == Last(ranges[i])
    ensures FramesCharted(rs, fs)
  {
    var frames := AnimatedFramesOf(rs, ranges);
    FramesAreCharted(rs, ranges, frames);
    frames
  }

  /** The animated script's data step: the key-column check, then one frame
      per distinct year, in order of first appearance, each covering the
      first year of the data through its own year. */
  function AnimatedFrames(header: seq<string>, rs: seq<Record>): (r: Result<seq<Frame>, LoadError>)
    ensures r.Err? <==> "Year" !in header || "Player" !in header
    ensures r.Err? ==> r.error == MissingKeyColumns
    ensures r.Ok? ==> FramesShow(rs, r.value)
  {
    match CheckKeys(header)
    case Err(e) => Err(e)
    case Ok(_) => Ok(YearFrames(rs))
  }

  /** The animated script's ranges can be plotted: each ends in a year of
      the data and runs from its first year. */
  lemma {:induction false} ArrivalRangesPlottable(rs: seq<Record>)
    ensures EndInData(rs, ArrivalRanges(Years(rs)))
    ensures |rs| > 0 ==> FromFirstYear(rs, ArrivalRanges(Years(rs)))
  {
    var ranges := ArrivalRanges(Years(rs));
    var u := Unique(Years(rs));
    forall i | 0 <= i < |ranges| ensures |ranges[i]| > 0 && Last(ranges[i]) in Years(rs) {
      assert u[i] in u;
    }
    if |rs| > 0 {
      ArrivalRangesFromFirstYear(rs);
    }
  }

  /** The frames drawn from `rs` once its key columns are present. */
  function YearFrames(rs: seq<Record>): (fs: seq<Frame>)
    ensures FramesShow(rs, fs)
  {
    ArrivalRangesPlottable(rs);
    PlotFrames(rs, ArrivalRanges(Years(rs)))
  }
}
