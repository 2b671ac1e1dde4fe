/** The cumulative year ranges both scripts plot: one range per distinct
    year `y`, holding every integer year from the earliest year through `y`. */
module YearRanges {
  import opened Seqs
  import opened Ordering

  /** The least value of a non-empty sequence (Python's `min`). */
  function MinOf(s: seq<int>): (m: int)
    requires |s| > 0
    ensures m in s
    ensures forall x :: x in s ==> m <= x
    decreases |s|
  {
    if |s| == 1 then s[0]
    else
      var rest := MinOf(s[1..]);
      assert forall x :: x in s ==> x == s[0] || x in s[1..];
      if s[0] <= rest then s[0] else rest
  }

  /** The minimum depends only on which values occur. */
  lemma MinOfSameValues(a: seq<int>, b: seq<int>)
    requires |a| > 0
    requires forall x :: x in a <==> x in b
    ensures |b| > 0 && MinOf(a) == MinOf(b)
  {
    assert a[0] in a;
    var ma, mb := MinOf(a), MinOf(b);
    assert ma <= mb && mb <= ma;
  }

  /** Python's `list(range(lo, hi))`. */
  function Span(lo: int, hi: int): (r: seq<int>)
    ensures |r| == if lo < hi then hi - lo else 0
    ensures forall k :: 0 <= k < |r| ==> r[k] == lo + k
    decreases hi - lo
  {
    if hi <= lo then [] else [lo] + Span(lo + 1, hi)
  }

  /** The integers in `range(lo, hi)` are exactly those from `lo` up to but
      excluding `hi`. */
  lemma InSpan(lo: int, hi: int)
    ensures forall z :: z in Span(lo, hi) <==> lo <= z < hi
  {
    var r := Span(lo, hi);
    forall z | lo <= z < hi ensures z in r {
      assert r[z - lo] == z;
    }
  }

  /** `r` lists every integer year from `lo` through `y`, in order, including
      years that never occur in the data. */
  predicate IsCumulative(r: seq<int>, lo: int, y: int) {
    && lo <= y
    && |r| == y - lo + 1
    && forall k :: 0 <= k < |r| ==> r[k] == lo + k
  }

  /** A cumulative range starts at `lo` and ends at `y`; the title of its
      chart uses that last year. */
  lemma CumulativeEnds(r: seq<int>, lo: int, y: int)
    requires IsCumulative(r, lo, y)
    ensures |r| > 0 && r[0] == lo && Last(r) == y
    ensures forall z :: z in r <==> lo <= z <= y
  {
    forall z | lo <= z <= y ensures z in r {
      assert r[z - lo] == z;
    }
  }

  /** A cumulative range is Python's `list(range(lo, y + 1))`. */
  lemma CumulativeIsSpan(r: seq<int>, lo: int, y: int)
    requires IsCumulative(r, lo, y)
    ensures r == Span(lo, y + 1)
  {
  }

  /** Cumulative ranges from the same start are prefixes of one another. */
  lemma CumulativePrefix(r: seq<int>, s: seq<int>, lo: int, y: int, z: int)
    requires IsCumulative(r, lo, y) && IsCumulative(s, lo, z)
    requires y <= z
    ensures r <= s
  {
  }

  /** `[list(range(lo, y + 1)) for y in ys]`. */
  function CumulativeRanges(ys: seq<int>, lo: int): (rs: seq<seq<int>>)
    requires forall y :: y in ys ==> lo <= y
    ensures |rs| == |ys|
    ensures forall i :: 0 <= i < |rs| ==> IsCumulative(rs[i], lo, ys[i])
  {
    assert forall i :: 0 <= i < |ys| ==> ys[i] in ys;
    seq(|ys|, i requires 0 <= i < |ys| => Span(lo, ys[i] + 1))
  }

  /** `sorted(df["Year"].unique())`. */
  function SortedYears(years: seq<int>): (valid: seq<int>)
    ensures StrictlySorted(valid, IntLess)
    ensures forall y :: y in valid <==> y in years
  {
    IntLessIsStrictTotalOrder();
    SortedDistinct(years, IntLess)
  }

  /** Every range starts at `lo` and runs contiguously to its last year. */
  predicate AllCumulative(rs: seq<seq<int>>, lo: int) {
    forall i :: 0 <= i < |rs| ==> |rs[i]| > 0 && IsCumulative(rs[i], lo, Last(rs[i]))
  }

  /** The last years of the ranges are exactly the values of `years`. */
  predicate OnePerYear(rs: seq<seq<int>>, years: seq<int>) {
    && (forall i :: 0 <= i < |rs| ==> |rs[i]| > 0 && Last(rs[i]) in years)
    && (forall y :: y in years ==> exists i :: 0 <= i < |rs| && |rs[i]| > 0 && Last(rs[i]) == y)
  }

  /** Last years strictly increase along the list, so no year gets two ranges. */
  predicate Ascending(rs: seq<seq<int>>) {
    forall i, j :: 0 <= i < j < |rs| ==> |rs[i]| > 0 && |rs[j]| > 0 && Last(rs[i]) < Last(rs[j])
  }

  /** Each range is a prefix of every later one. */
  predicate Nested(rs: seq<seq<int>>) {
    forall i, j :: 0 <= i <= j < |rs| ==> rs[i] <= rs[j]
  }

  lemma SortedRangesShape(valid: seq<int>, lo: int)
    requires StrictlySorted(valid, IntLess)
    requires forall y :: y in valid ==> lo <= y
    ensures var rs := CumulativeRanges(valid, lo);
      && AllCumulative(rs, lo)
      && OnePerYear(rs, valid)
      && Ascending(rs)
      && Nested(rs)
  {
    var rs := CumulativeRanges(valid, lo);
    forall i | 0 <= i < |rs| ensures |rs[i]| > 0 && Last(rs[i]) == valid[i] {
      CumulativeEnds(rs[i], lo, valid[i]);
    }
    forall y | y in valid ensures exists i :: 0 <= i < |rs| && |rs[i]| > 0 && Last(rs[i]) == y {
      var i :| 0 <= i < |valid| && valid[i] == y;
      assert Last(rs[i]) == y;
    }
    forall i, j | 0 <= i <= j < |rs| ensures rs[i] <= rs[j] {
      if i < j {
        assert IntLess(valid[i], valid[j]);
      }
      CumulativePrefix(rs[i], rs[j], lo, valid[i], valid[j]);
    }
    forall i, j | 0 <= i < j < |rs| ensures Last(rs[i]) < Last(rs[j]) {
      assert IntLess(valid[i], valid[j]);
    }
  }

  /** The static script's ranges: one per distinct year, in ascending order,
      each starting at the earliest year and each a prefix of the next. */
  function SortedRanges(years: seq<int>): (rs: seq<seq<int>>)
    ensures |years| == 0 ==> rs == []
    ensures |years| > 0 ==> AllCumulative(rs, MinOf(years))
    ensures OnePerYear(rs, years)
    ensures Ascending(rs)
    ensures Nested(rs)
  {
    var valid := SortedYears(years);
    if |valid| == 0 then
      []
    else
      var lo := MinOf(valid);
      MinOfSameValues(valid, years);
      SortedRangesShape(valid, lo);
      CumulativeRanges(valid, lo)
  }

  /** The animated script's ranges: one per distinct year in order of first
      appearance, after a `year >= min(valid_years)` guard. */
  function ArrivalRanges(years: seq<int>): (rs: seq<seq<int>>)
    ensures |rs| == |Unique(years)|
    ensures forall i :: 0 <= i < |rs| ==> |rs[i]| > 0 && Last(rs[i]) == Unique(years)[i]
    ensures |years| > 0 ==> forall i :: 0 <= i < |rs| ==>
      IsCumulative(rs[i], MinOf(years), Unique(years)[i])
  {
    var valid := Unique(years);
    if |valid| == 0 then []
    else
      var lo := MinOf(valid);
      MinOfSameValues(valid, years);
      FilterKeepsAll(valid, (y: int) => y >= lo);
      CumulativeRanges(Filter(valid, (y: int) => y >= lo), lo)
  }

  /** The `year >= min(valid_years)` guard never removes a year. */
  lemma GuardNeverDrops(years: seq<int>)
    requires |years| > 0
    ensures var valid := Unique(years);
      |valid| > 0 && Filter(valid, (y: int) => y >= MinOf(valid)) == valid
  {
    var valid := Unique(years);
    assert years[0] in valid;
    var lo := MinOf(valid);
    FilterKeepsAll(valid, (y: int) => y >= lo);
  }

  /** A cumulative range is fixed by its first and last year. */
  lemma CumulativeUnique(r: seq<int>, s: seq<int>, lo: int, y: int)
    requires IsCumulative(r, lo, y) && IsCumulative(s, lo, y)
    ensures r == s
  {
  }

  lemma SortedRangeIsArrivalRange(years: seq<int>, r: seq<int>)
    requires r in SortedRanges(years)
    ensures r in ArrivalRanges(years)
  {
    var s := SortedRanges(years);
    var i :| 0 <= i < |s| && s[i] == r;
    assert |years| > 0;
    var lo := MinOf(years);
    assert |r| > 0 && IsCumulative(r, lo, Last(r)) && Last(r) in years;
    ArrivalRangeFor(years, Last(r), r);
  }

  /** The cumulative range ending at any year of the data is among the
      animated script's ranges. */
  lemma ArrivalRangeFor(years: seq<int>, y: int, r: seq<int>)
    requires |years| > 0 && y in years
    requires IsCumulative(r, MinOf(years), y)
    ensures r in ArrivalRanges(years)
  {
    var a := ArrivalRanges(years);
    var u := Unique(years);
    assert y in u;
    var j :| 0 <= j < |u| && u[j] == y;
    assert IsCumulative(a[j], MinOf(years), u[j]);
    CumulativeUnique(r, a[j], MinOf(years), y);
  }

  lemma ArrivalRangeIsSortedRange(years: seq<int>, r: seq<int>)
    requires r in ArrivalRanges(years)
    ensures r in SortedRanges(years)
  {
    var a := ArrivalRanges(years);
    var u := Unique(years);
    var j :| 0 <= j < |a| && a[j] == r;
    assert u[j] in u;
    assert |years| > 0;
    SortedRangeFor(years, u[j], r);
  }

  /** The cumulative range ending at any year of the data is among the
      static script's ranges. */
  lemma SortedRangeFor(years: seq<int>, y: int, r: seq<int>)
    requires |years| > 0 && y in years
    requires IsCumulative(r, MinOf(years), y)
    ensures r in SortedRanges(years)
  {
    var s := SortedRanges(years);
    assert OnePerYear(s, years);
    var i :| 0 <= i < |s| && |s[i]| > 0 && Last(s[i]) == y;
    assert AllCumulative(s, MinOf(years));
    assert IsCumulative(s[i], MinOf(years), y);
    CumulativeUnique(r, s[i], MinOf(years), y);
  }

  /** Both scripts produce the same ranges, up to order: a range belongs to
      one list exactly when it belongs to the other. */
  lemma SameRangesEitherOrder(years: seq<int>, r: seq<int>)
    ensures r in SortedRanges(years) <==> r in ArrivalRanges(years)
  {
    if r in SortedRanges(years) {
      SortedRangeIsArrivalRange(years, r);
    }
    if r in ArrivalRanges(years) {
      ArrivalRangeIsSortedRange(years, r);
    }
  }

  /** Range `i` is `list(range(lo, ends[i] + 1))`. */
  predicate SpansTo(rs: seq<seq<int>>, lo: int, ends: seq<int>) {
    && |rs| == |ends|
    && forall i :: 0 <= i < |rs| ==> rs[i] == Span(lo, ends[i] + 1)
  }

  /** Ranges that are cumulative from `lo` are the matching Python ranges. */
  lemma {:induction false} CumulativeAreSpans(rs: seq<seq<int>>, lo: int, ends: seq<int>)
    requires |rs| == |ends|
    requires forall i :: 0 <= i < |rs| ==> IsCumulative(rs[i], lo, ends[i])
    ensures SpansTo(rs, lo, ends)
  {
    forall i | 0 <= i < |rs| ensures rs[i] == Span(lo, ends[i] + 1) {
      CumulativeIsSpan(rs[i], lo, ends[i]);
    }
  }

  /** The last years of a list of non-empty ranges. */
  function Ends(rs: seq<seq<int>>): (ends: seq<int>)
    requires forall i :: 0 <= i < |rs| ==> |rs[i]| > 0
    ensures |ends| == |rs|
    ensures forall i :: 0 <= i < |rs| ==> ends[i] == Last(rs[i])
  {
    seq(|rs|, i requires 0 <= i < |rs| => Last(rs[i]))
  }

  /** Each range of the static script is `range(min, y + 1)` for its last year `y`. */
  lemma {:induction false} SortedRangesAreSpans(years: seq<int>)
    requires |years| > 0
    ensures SpansTo(SortedRanges(years), MinOf(years), Ends(SortedRanges(years)))
  {
    var rs := SortedRanges(years);
    CumulativeAreSpans(rs, MinOf(years), Ends(rs));
  }

  /** Each range of the animated script is `range(min, y + 1)` for its last year `y`. */
  lemma {:induction false} ArrivalRangesAreSpans(years: seq<int>)
    requires |years| > 0
    ensures SpansTo(ArrivalRanges(years), MinOf(years), Ends(ArrivalRanges(years)))
  {
    var rs, u, lo := ArrivalRanges(years), Unique(years), MinOf(years);
    assert forall i :: 0 <= i < |rs| ==> IsCumulative(rs[i], lo, u[i]);
    var ends := Ends(rs);
    assert forall i :: 0 <= i < |rs| ==> ends[i] == u[i];
    CumulativeAreSpans(rs, lo, ends);
  }
}
