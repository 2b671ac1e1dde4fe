/** Small worked examples: a three-row table and a data set with a year
    missing, computed through the model. */
module WorkedExamples {
  import opened Records
  import opened Aggregation
  import opened YearRanges
  import opened Ordering
  import opened Seqs

  /** Of three rows over two players, PlayerA's group through 2021 is its
      two rows. */
  lemma ExampleGroup()
    ensures var rs := [Record("PlayerA", 2020, 1, 10, 0, 2.0), Record("PlayerB", 2020, 3, 5, 1, 1.0), Record("PlayerA", 2021, 2, 4, 0, 3.0)];
      OfPlayer(InRange(rs, [2020, 2021]), "PlayerA") == [rs[0], rs[2]]
  {
    var rs := [Record("PlayerA", 2020, 1, 10, 0, 2.0), Record("PlayerB", 2020, 3, 5, 1, 1.0), Record("PlayerA", 2021, 2, 4, 0, 3.0)];
    var inYears := (x: Record) => x.year in [2020, 2021];
    FilterKeepsAll(rs, inYears);
    assert InRange(rs, [2020, 2021]) == rs;
    var isA := (x: Record) => x.player == "PlayerA";
    assert rs[1..][1..] == [rs[2]];
    assert Filter([rs[2]], isA) == [rs[2]];
    assert Filter(rs[1..], isA) == [rs[2]];
    assert Filter(rs, isA) == [rs[0], rs[2]];
  }

  /** PlayerA's two rows hold 3 deaths, 14 points, no wins, ranks adding up
      to 5 and two distinct years. */
  lemma ExampleTotals()
    ensures var mine := [Record("PlayerA", 2020, 1, 10, 0, 2.0), Record("PlayerA", 2021, 2, 4, 0, 3.0)];
      && Sum(mine, Deaths) == 3 && Sum(mine, Points) == 14 && Sum(mine, Wins) == 0
      && MeanRank(mine) == 2.5 && |YearSet(mine)| == 2
  {
    var mine := [Record("PlayerA", 2020, 1, 10, 0, 2.0), Record("PlayerA", 2021, 2, 4, 0, 3.0)];
    assert RankSum(mine) == 5.0;
    assert YearSet(mine) == {2020, 2021};
  }

  /** Through 2021 PlayerA has 3 deaths, 14 points, no wins, a mean rank of
      2.5 and two distinct years. */
  lemma WorkedExample()
    ensures var rs := [Record("PlayerA", 2020, 1, 10, 0, 2.0), Record("PlayerB", 2020, 3, 5, 1, 1.0), Record("PlayerA", 2021, 2, 4, 0, 3.0)];
      Summarize(InRange(rs, [2020, 2021]), "PlayerA") == Summary("PlayerA", 3, 14, 0, 2.5, 2)
  {
    ExampleGroup();
    ExampleTotals();
  }

  /** Any data whose years are 2017, 2019 and 2020, in any order and with
      any repetition, sorts them to 2017, 2019, 2020. */
  lemma ExampleYearsSorted(years: seq<int>)
    requires forall y :: y in years <==> y in [2017, 2019, 2020]
    ensures SortedYears(years) == [2017, 2019, 2020]
  {
    IntLessIsStrictTotalOrder();
    assert StrictlySorted([2017, 2019, 2020], IntLess);
    forall e ensures e in SortedYears(years) <==> e in [2017, 2019, 2020] {
      assert e in SortedYears(years) <==> e in years;
    }
    SortedUnique(SortedYears(years), [2017, 2019, 2020], IntLess);
  }

  lemma ExampleSpans()
    ensures CumulativeRanges([2017, 2019, 2020], 2017) == [[2017], [2017, 2018, 2019], [2017, 2018, 2019, 2020]]
  {
    var rs := CumulativeRanges([2017, 2019, 2020], 2017);
    assert rs[0] == Span(2017, 2018) == [2017];
    assert rs[1] == Span(2017, 2020) == [2017, 2018, 2019];
    assert rs[2] == Span(2017, 2021) == [2017, 2018, 2019, 2020];
  }

  /** With data for 2017, 2019 and 2020 the ranges are 2017, 2017-2019 and
      2017-2020: the year 2018, absent from the data, is inside the ranges. */
  lemma RangesExample(years: seq<int>)
    requires forall y :: y in years <==> y in [2017, 2019, 2020]
    ensures SortedRanges(years) == [[2017], [2017, 2018, 2019], [2017, 2018, 2019, 2020]]
  {
    var ys := [2017, 2019, 2020];
    ExampleYearsSorted(years);
    var valid := SortedYears(years);
    assert valid == ys;
    assert MinOf(valid) == 2017;
    var rs := CumulativeRanges(valid, 2017);
    assert SortedRanges(years) == rs;
    ExampleSpans();
  }
}
