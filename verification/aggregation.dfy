/** The filter and per-player aggregation each chart is drawn from:
    `df[df["Year"].isin(range)].groupby("Player").agg(...)`. */
module Aggregation {
  import opened Seqs
  import opened Ordering
  import opened Records

  /** One row of the aggregated table. `countYears` is the static script's
      `Count_Years` column; the animated script computes the other five. */
  datatype Summary = Summary(
    player: string,
    totalDeaths: int,
    totalPoints: int,
    totalWins: int,
    averageRank: real,
    countYears: nat)

  /** The rows whose Year is an element of `range`, unchanged and in order. */
  function InRange(rs: seq<Record>, range: seq<int>): (r: seq<Record>)
    ensures forall x :: multiset(r)[x] == if x.year in range then multiset(rs)[x] else 0
    ensures forall x :: x in r <==> x in rs && x.year in range
    ensures IsSubsequence(r, rs)
  {
    FilterCounts(rs, (x: Record) => x.year in range);
    Filter(rs, (x: Record) => x.year in range)
  }

  /** The rows of one player: the group `groupby` forms for key `p`. */
  function OfPlayer(rs: seq<Record>, p: string): (r: seq<Record>)
    ensures forall x :: x in r <==> x in rs && x.player == p
    ensures IsSubsequence(r, rs)
  {
    Filter(rs, (x: Record) => x.player == p)
  }

  /** Some row of `rs` belongs to `p`. */
  predicate Plays(rs: seq<Record>, p: string) {
    exists x :: x in rs && x.player == p
  }

  /** Some row of `rs` dated within `range` belongs to `p`. */
  predicate PlaysIn(rs: seq<Record>, range: seq<int>, p: string) {
    exists x :: x in rs && x.year in range && x.player == p
  }

  /** The group keys in the order `groupby` emits them (sorted). */
  function Players(rs: seq<Record>): (ps: seq<string>)
    ensures StrictlySorted(ps, LexLess)
    ensures forall p :: p in ps <==> Plays(rs, p)
  {
    var names := seq(|rs|, i requires 0 <= i < |rs| => rs[i].player);
    LexLessIsStrictTotalOrder();
    assert forall p :: p in names <==> Plays(rs, p) by {
      forall p ensures p in names <==> Plays(rs, p) {
        if Plays(rs, p) {
          var x :| x in rs && x.player == p;
          var i :| 0 <= i < |rs| && rs[i] == x;
          assert names[i] == p;
        }
      }
    }
    SortedDistinct(names, LexLess)
  }

  /** Summing a player's own rows gives the reference per-player total. */
  lemma {:induction false} OwnRowsSum(rs: seq<Record>, p: string, f: Field)
    ensures Sum(OfPlayer(rs, p), f) == SumFor(rs, p, f)
    decreases |rs|
  {
    if |rs| > 0 {
      OwnRowsSum(rs[1..], p, f);
      var keep := (x: Record) => x.player == p;
      assert OfPlayer(rs[1..], p) == Filter(rs[1..], keep);
      if rs[0].player == p {
        assert OfPlayer(rs, p) == [rs[0]] + OfPlayer(rs[1..], p);
        assert ([rs[0]] + OfPlayer(rs[1..], p))[1..] == OfPlayer(rs[1..], p);
      } else {
        assert OfPlayer(rs, p) == OfPlayer(rs[1..], p);
      }
    }
  }

  /** Rank sums lie between `n * lo` and `n * hi` for `n` rows ranked in [lo, hi]. */
  lemma {:induction false} RankSumBounds(rs: seq<Record>, lo: real, hi: real)
    requires forall i :: 0 <= i < |rs| ==> lo <= rs[i].rank <= hi
    ensures (|rs| as real) * lo <= RankSum(rs) <= (|rs| as real) * hi
    decreases |rs|
  {
    if |rs| > 0 {
      var t := rs[1..];
      RankSumBounds(t, lo, hi);
      assert (|rs| as real) * lo == lo + (|t| as real) * lo;
      assert (|rs| as real) * hi == hi + (|t| as real) * hi;
    }
  }

  /** The mean of the ranks of `rs`, as pandas' `"mean"` computes it; the
      mean of one rank is that rank. */
  function MeanRank(rs: seq<Record>): (m: real)
    requires |rs| > 0
    ensures m * (|rs| as real) == RankSum(rs)
    ensures |rs| == 1 ==> m == rs[0].rank
  {
    assert |rs| == 1 ==> RankSum(rs) == rs[0].rank + RankSum(rs[1..]);
    RankSum(rs) / (|rs| as real)
  }

  /** The mean rank lies between the best and the worst rank. */
  lemma MeanWithin(rs: seq<Record>, lo: real, hi: real)
    requires |rs| > 0
    requires forall i :: 0 <= i < |rs| ==> lo <= rs[i].rank <= hi
    ensures lo <= MeanRank(rs) <= hi
  {
    RankSumBounds(rs, lo, hi);
    var n := |rs| as real;
    var m := MeanRank(rs);
    assert m * n == RankSum(rs);
    assert n * lo <= m * n <= n * hi;
  }

  /** A player with a row has a non-empty group. */
  lemma GroupNonEmpty(rs: seq<Record>, p: string)
    requires Plays(rs, p)
    ensures |OfPlayer(rs, p)| > 0
  {
    var x :| x in rs && x.player == p;
    assert x in OfPlayer(rs, p);
  }

  /** The aggregated row for player `p`: sums of Deaths, Points and Wins,
      mean Rank and the number of distinct years. */
  function Summarize(rs: seq<Record>, p: string): (s: Summary)
    requires Plays(rs, p)
    ensures s.player == p
    ensures s.totalDeaths == SumFor(rs, p, Deaths)
    ensures s.totalPoints == SumFor(rs, p, Points)
    ensures s.totalWins == SumFor(rs, p, Wins)
    ensures |OfPlayer(rs, p)| > 0
    ensures s.averageRank * (|OfPlayer(rs, p)| as real) == RankSum(OfPlayer(rs, p))
    ensures |OfPlayer(rs, p)| == 1 ==> s.averageRank == OfPlayer(rs, p)[0].rank
    ensures s.countYears == |YearSet(OfPlayer(rs, p))|
    ensures 1 <= s.countYears <= |OfPlayer(rs, p)|
  {
    var mine := OfPlayer(rs, p);
    assert |mine| > 0 by { GroupNonEmpty(rs, p); }
    assert Sum(mine, Deaths) == SumFor(rs, p, Deaths) by { OwnRowsSum(rs, p, Deaths); }
    assert Sum(mine, Points) == SumFor(rs, p, Points) by { OwnRowsSum(rs, p, Points); }
    assert Sum(mine, Wins) == SumFor(rs, p, Wins) by { OwnRowsSum(rs, p, Wins); }
    assert 1 <= |YearSet(mine)| <= |mine| by { YearSetBounds(mine); }
    Summary(p, Sum(mine, Deaths), Sum(mine, Points), Sum(mine, Wins), MeanRank(mine), |YearSet(mine)|)
  }

  /** A player's mean rank lies between their best and worst rank. */
  lemma AverageWithinRanks(rs: seq<Record>, p: string, lo: real, hi: real)
    requires Plays(rs, p)
    requires forall x :: x in rs && x.player == p ==> lo <= x.rank <= hi
    ensures lo <= Summarize(rs, p).averageRank <= hi
  {
    var mine := OfPlayer(rs, p);
    GroupNonEmpty(rs, p);
    assert forall i :: 0 <= i < |mine| ==> mine[i] in mine;
    MeanWithin(mine, lo, hi);
  }

  /** The summaries of the listed players, in list order. */
  function SummariesOf(rs: seq<Record>, ps: seq<string>): (g: seq<Summary>)
    requires forall i :: 0 <= i < |ps| ==> Plays(rs, ps[i])
    ensures |g| == |ps|
    ensures forall i :: 0 <= i < |g| ==> g[i].player == ps[i] && g[i] == Summarize(rs, ps[i])
    ensures forall p :: (exists i :: 0 <= i < |g| && g[i].player == p) <==> p in ps
  {
    var g := seq(|ps|, i requires 0 <= i < |ps| => Summarize(rs, ps[i]));
    assert forall p :: p in ps ==> exists i :: 0 <= i < |g| && g[i].player == p by {
      forall p | p in ps ensures exists i :: 0 <= i < |g| && g[i].player == p {
        var i :| 0 <= i < |ps| && ps[i] == p;
        assert g[i].player == p;
      }
    }
    g
  }

  /** `groupby("Player").agg(...)`: one row per player, in key order. */
  function GroupBy(rs: seq<Record>): (g: seq<Summary>)
    ensures forall i, j :: 0 <= i < j < |g| ==> LexLess(g[i].player, g[j].player)
    ensures forall p :: (exists i :: 0 <= i < |g| && g[i].player == p) <==> Plays(rs, p)
    ensures forall i :: 0 <= i < |g| ==> Plays(rs, g[i].player) && g[i] == Summarize(rs, g[i].player)
  {
    var ps := Players(rs);
    assert forall i :: 0 <= i < |ps| ==> Plays(rs, ps[i]) by {
      forall i | 0 <= i < |ps| ensures Plays(rs, ps[i]) {
        assert ps[i] in ps;
      }
    }
    SummariesOf(rs, ps)
  }

  /** The chart data for one range: filter by year, then group by player. */
  function Aggregate(rs: seq<Record>, range: seq<int>): (g: seq<Summary>)
    ensures forall i, j :: 0 <= i < j < |g| ==> LexLess(g[i].player, g[j].player)
    ensures forall i, j :: 0 <= i < j < |g| ==> g[i].player != g[j].player
    ensures forall p :: (exists i :: 0 <= i < |g| && g[i].player == p) <==> PlaysIn(rs, range, p)
    ensures forall i :: 0 <= i < |g| ==> g[i].countYears <= |range|
    ensures forall i :: 0 <= i < |g| ==>
      Plays(InRange(rs, range), g[i].player) && g[i] == Summarize(InRange(rs, range), g[i].player)
  {
    var inRange := InRange(rs, range);
    var g := GroupBy(inRange);
    LexLessIsStrictTotalOrder();
    assert forall p :: Plays(inRange, p) <==> PlaysIn(rs, range, p) by {
      forall p ensures Plays(inRange, p) <==> PlaysIn(rs, range, p) {
        if PlaysIn(rs, range, p) {
          var x :| x in rs && x.year in range && x.player == p;
          assert x in inRange;
        }
      }
    }
    forall i | 0 <= i < |g| ensures g[i].countYears <= |range| {
      CountYearsWithinRange(rs, range, g[i].player);
    }
    g
  }

  /** A set drawn from the values of `s` is no larger than `s`. */
  lemma {:induction false} ValuesBound(a: set<int>, s: seq<int>)
    requires forall y :: y in a ==> y in s
    ensures |a| <= |s|
    decreases |s|
  {
    if |s| > 0 {
      var rest := a - {s[0]};
      assert forall y :: y in rest ==> y in s[1..];
      ValuesBound(rest, s[1..]);
    } else {
      assert forall y :: y !in a;
      assert a == {};
    }
  }

  /** `Count_Years` never exceeds the number of years in the range. */
  lemma CountYearsWithinRange(rs: seq<Record>, range: seq<int>, p: string)
    requires Plays(InRange(rs, range), p)
    ensures Summarize(InRange(rs, range), p).countYears <= |range|
  {
    var mine := OfPlayer(InRange(rs, range), p);
    YearSetMembers(mine);
    ValuesBound(YearSet(mine), range);
  }

  /** The per-row value of a summed column. */
  function Total(s: Summary, f: Field): int {
    match f
    case Deaths => s.totalDeaths
    case Points => s.totalPoints
    case Wins => s.totalWins
  }

  /** A summed column of the aggregated table, added up over all its rows. */
  function ColumnTotal(g: seq<Summary>, f: Field): int
    decreases |g|
  {
    if |g| == 0 then 0 else Total(g[0], f) + ColumnTotal(g[1..], f)
  }

  /** Σ over players `p` in `ps` of `SumFor(rs, p, f)`. */
  function SumForAll(rs: seq<Record>, ps: seq<string>, f: Field): int
    decreases |ps|
  {
    if |ps| == 0 then 0 else SumFor(rs, ps[0], f) + SumForAll(rs, ps[1..], f)
  }

  /** What one row `x` contributes to `SumForAll` over `ps`. */
  function Hits(x: Record, ps: seq<string>, f: Field): int
    decreases |ps|
  {
    if |ps| == 0 then 0
    else (if x.player == ps[0] then Value(x, f) else 0) + Hits(x, ps[1..], f)
  }

  lemma {:induction false} HitsOnce(x: Record, ps: seq<string>, f: Field)
    requires Distinct(ps)
    ensures Hits(x, ps, f) == if x.player in ps then Value(x, f) else 0
    decreases |ps|
  {
    if |ps| > 0 {
      assert Distinct(ps[1..]);
      HitsOnce(x, ps[1..], f);
      assert x.player in ps <==> x.player == ps[0] || x.player in ps[1..];
    }
  }

  lemma {:induction false} SumForAllEmpty(rs: seq<Record>, ps: seq<string>, f: Field)
    requires |rs| == 0
    ensures SumForAll(rs, ps, f) == 0
    decreases |ps|
  {
    if |ps| > 0 {
      SumForAllEmpty(rs, ps[1..], f);
    }
  }

  lemma {:induction false} SumForAllSplit(rs: seq<Record>, ps: seq<string>, f: Field)
    requires |rs| > 0
    ensures SumForAll(rs, ps, f) == Hits(rs[0], ps, f) + SumForAll(rs[1..], ps, f)
    decreases |ps|
  {
    if |ps| > 0 {
      SumForAllSplit(rs, ps[1..], f);
    }
  }

  /** Summing per-player totals over a duplicate-free list that covers every
      player gives the plain column sum: each row is counted exactly once. */
  lemma {:induction false} SumForAllCovers(rs: seq<Record>, ps: seq<string>, f: Field)
    requires Distinct(ps)
    requires forall x :: x in rs ==> x.player in ps
    ensures SumForAll(rs, ps, f) == Sum(rs, f)
    decreases |rs|
  {
    if |rs| > 0 {
      assert rs[0] in rs;
      assert forall x :: x in rs[1..] ==> x in rs;
      SumForAllCovers(rs[1..], ps, f);
      SumForAllSplit(rs, ps, f);
      HitsOnce(rs[0], ps, f);
      assert Hits(rs[0], ps, f) == Value(rs[0], f);
    } else {
      SumForAllEmpty(rs, ps, f);
    }
  }

  lemma {:induction false} ColumnTotalPerPlayer(rs: seq<Record>, g: seq<Summary>, ps: seq<string>, f: Field)
    requires |g| == |ps|
    requires forall i :: 0 <= i < |g| ==> Total(g[i], f) == SumFor(rs, ps[i], f)
    ensures ColumnTotal(g, f) == SumForAll(rs, ps, f)
    decreases |g|
  {
    if |g| > 0 {
      ColumnTotalPerPlayer(rs, g[1..], ps[1..], f);
    }
  }

  /** Grouping loses and duplicates nothing: the totals column of the
      aggregated table adds up to the column sum of the rows grouped. */
  lemma TotalsConserved(rs: seq<Record>, f: Field)
    ensures ColumnTotal(GroupBy(rs), f) == Sum(rs, f)
  {
    var g := GroupBy(rs);
    var ps := seq(|g|, i requires 0 <= i < |g| => g[i].player);
    forall i, j | 0 <= i < j < |ps| ensures ps[i] != ps[j] {
      LexLessIsStrictTotalOrder();
      assert LexLess(g[i].player, g[j].player);
    }
    forall x | x in rs ensures x.player in ps {
      assert Plays(rs, x.player);
      var i :| 0 <= i < |g| && g[i].player == x.player;
      assert ps[i] == x.player;
    }
    forall i | 0 <= i < |g| ensures Total(g[i], f) == SumFor(rs, ps[i], f) {
      assert g[i] == Summarize(rs, g[i].player);
    }
    ColumnTotalPerPlayer(rs, g, ps, f);
    SumForAllCovers(rs, ps, f);
  }
}
