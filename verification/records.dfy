/** One row of the death-pool table and the column sums the aggregation
    is built from. */
module Records {

  /** A row of the input table. Year, Deaths, Points and Wins hold whole
      numbers in the data; Rank may be fractional and is kept exact. */
  datatype Record = Record(
    player: string,
    year: int,
    deaths: int,
    points: int,
    wins: int,
    rank: real)

  /** The three columns that are summed per player. */
  datatype Field = Deaths | Points | Wins

  function Value(x: Record, f: Field): int {
    match f
    case Deaths => x.deaths
    case Points => x.points
    case Wins => x.wins
  }

  /** The column sum of `f` over `rs` (pandas' `"sum"` aggregation). */
  function Sum(rs: seq<Record>, f: Field): int
    decreases |rs|
  {
    if |rs| == 0 then 0 else Value(rs[0], f) + Sum(rs[1..], f)
  }

  /** The column sum of Rank over `rs`. */
  function RankSum(rs: seq<Record>): real
    decreases |rs|
  {
    if |rs| == 0 then 0.0 else rs[0].rank + RankSum(rs[1..])
  }

  /** Reference definition of one player's total: every row contributes its
      value when it belongs to `p` and nothing otherwise. */
  function SumFor(rs: seq<Record>, p: string, f: Field): int
    decreases |rs|
  {
    if |rs| == 0 then 0
    else (if rs[0].player == p then Value(rs[0], f) else 0) + SumFor(rs[1..], p, f)
  }

  /** The distinct Year values of `rs` (what `nunique` counts). */
  function YearSet(rs: seq<Record>): set<int>
    decreases |rs|
  {
    if |rs| == 0 then {} else {rs[0].year} + YearSet(rs[1..])
  }

  lemma {:induction false} YearSetMembers(rs: seq<Record>)
    ensures forall y :: y in YearSet(rs) <==> exists x :: x in rs && x.year == y
    decreases |rs|
  {
    if |rs| > 0 {
      YearSetMembers(rs[1..]);
      assert rs == [rs[0]] + rs[1..];
    }
  }

  /** `YearSet` is the set of values in the Year column, whose size is what
      `nunique` counts. */
  lemma YearSetIsYearColumn(rs: seq<Record>)
    ensures YearSet(rs) == set x | x in rs :: x.year
  {
    YearSetMembers(rs);
    forall y ensures y in YearSet(rs) <==> y in (set x | x in rs :: x.year) {
      if y in YearSet(rs) {
        var x :| x in rs && x.year == y;
      }
    }
  }

  /** There are never more distinct years than rows. */
  lemma {:induction false} YearSetSize(rs: seq<Record>)
    ensures |YearSet(rs)| <= |rs|
    decreases |rs|
  {
    if |rs| > 0 {
      YearSetSize(rs[1..]);
    }
  }

  /** A non-empty group has at least one year and at most one per row. */
  lemma YearSetBounds(rs: seq<Record>)
    requires |rs| > 0
    ensures 1 <= |YearSet(rs)| <= |rs|
  {
    YearSetSize(rs);
    assert rs[0].year in YearSet(rs);
  }
}
