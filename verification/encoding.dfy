/** The visual encodings: min-max normalisation of rank to a colour value,
    and the two marker-size transforms of total wins. */
module Encoding {
  import opened Options

  /** The least value of a non-empty list of reals. */
  function MinReal(xs: seq<real>): (m: real)
    requires |xs| > 0
    ensures exists i :: 0 <= i < |xs| && xs[i] == m
    ensures forall i :: 0 <= i < |xs| ==> m <= xs[i]
    decreases |xs|
  {
    if |xs| == 1 then xs[0]
    else
      var rest := MinReal(xs[1..]);
      assert forall i :: 1 <= i < |xs| ==> xs[i] == xs[1..][i - 1];
      if xs[0] <= rest then xs[0] else rest
  }

  /** The greatest value of a non-empty list of reals. */
  function MaxReal(xs: seq<real>): (m: real)
    requires |xs| > 0
    ensures exists i :: 0 <= i < |xs| && xs[i] == m
    ensures forall i :: 0 <= i < |xs| ==> xs[i] <= m
    decreases |xs|
  {
    if |xs| == 1 then xs[0]
    else
      var rest := MaxReal(xs[1..]);
      assert forall i :: 1 <= i < |xs| ==> xs[i] == xs[1..][i - 1];
      if xs[0] >= rest then xs[0] else rest
  }

  /** `(x - lo) / (hi - lo)`. */
  function Scale(x: real, lo: real, hi: real): real
    requires lo < hi
  {
    (x - lo) / (hi - lo)
  }

  lemma ScaleOrder(a: real, b: real, lo: real, hi: real)
    requires lo < hi
    ensures a <= b <==> Scale(a, lo, hi) <= Scale(b, lo, hi)
  {
    var d := hi - lo;
    assert Scale(a, lo, hi) * d == a - lo;
    assert Scale(b, lo, hi) * d == b - lo;
    if Scale(a, lo, hi) <= Scale(b, lo, hi) {
      assert Scale(a, lo, hi) * d <= Scale(b, lo, hi) * d;
    }
  }

  lemma ScaleEnds(x: real, lo: real, hi: real)
    requires lo < hi
    ensures Scale(x, lo, hi) == 0.0 <==> x == lo
    ensures Scale(x, lo, hi) == 1.0 <==> x == hi
  {
    var d := hi - lo;
    assert Scale(x, lo, hi) * d == x - lo;
    if Scale(x, lo, hi) == 1.0 {
      assert x - lo == d;
    }
    if x == hi {
      assert d / d == 1.0;
    }
  }

  /** Every value of `xs` equals the first: a column with no spread. */
  predicate AllEqual(xs: seq<real>) {
    forall i :: 0 <= i < |xs| ==> xs[i] == xs[0]
  }

  /** Position `a` holds a least value of `xs`. */
  predicate IsLeastAt(xs: seq<real>, a: int) {
    0 <= a < |xs| && forall j :: 0 <= j < |xs| ==> xs[a] <= xs[j]
  }

  /** Position `b` holds a greatest value of `xs`. */
  predicate IsGreatestAt(xs: seq<real>, b: int) {
    0 <= b < |xs| && forall j :: 0 <= j < |xs| ==> xs[j] <= xs[b]
  }

  /** Each `r[i]` is the fraction of the way from a least value of `xs` to a
      greatest one at which `xs[i]` lies. */
  predicate Affine(xs: seq<real>, r: seq<real>) {
    |r| == |xs| &&
    forall a, b | 0 <= a < |xs| && 0 <= b < |xs| ::
      IsLeastAt(xs, a) && IsGreatestAt(xs, b) ==> FractionsBetween(xs, r, a, b)
  }

  /** Each `r[i]` times the distance from `xs[a]` to `xs[b]` is the distance
      from `xs[a]` to `xs[i]`. */
  predicate FractionsBetween(xs: seq<real>, r: seq<real>, a: int, b: int)
    requires |r| == |xs| && 0 <= a < |xs| && 0 <= b < |xs|
  {
    forall i :: 0 <= i < |xs| ==> r[i] * (xs[b] - xs[a]) == xs[i] - xs[a]
  }

  /** `xs.apply(lambda x: (x - xs.min()) / (xs.max() - xs.min()))`. When the
      column has no spread every value is 0/0, a column of NaN, which is
      `None` here; an empty column stays empty. */
  function MinMaxNormalise(xs: seq<real>): (r: Option<seq<real>>)
    ensures r.None? <==> |xs| > 0 && AllEqual(xs)
    ensures r.Some? ==> |r.value| == |xs|
    ensures r.Some? ==> Affine(xs, r.value)
    ensures r.Some? ==> forall i :: 0 <= i < |xs| ==> 0.0 <= r.value[i] <= 1.0
    ensures r.Some? ==> forall i, j :: 0 <= i < |xs| && 0 <= j < |xs| ==>
      (xs[i] <= xs[j] <==> r.value[i] <= r.value[j])
    ensures r.Some? ==> forall i :: 0 <= i < |xs| ==>
      (r.value[i] == 0.0 <==> forall j :: 0 <= j < |xs| ==> xs[i] <= xs[j])
    ensures r.Some? ==> forall i :: 0 <= i < |xs| ==>
      (r.value[i] == 1.0 <==> forall j :: 0 <= j < |xs| ==> xs[j] <= xs[i])
  {
    if |xs| == 0 then Some([])
    else
      var lo, hi := MinReal(xs), MaxReal(xs);
      if lo == hi then
        None
      else
        assert !AllEqual(xs) by {
          var i :| 0 <= i < |xs| && xs[i] == lo;
          var j :| 0 <= j < |xs| && xs[j] == hi;
        }
        Some(ScaleAll(xs, lo, hi))
  }

  /** Every value of `xs` scaled between `lo` and `hi`, which are its least
      and greatest values. */
  function ScaleAll(xs: seq<real>, lo: real, hi: real): (r: seq<real>)
    requires |xs| > 0 && lo < hi
    requires exists i :: 0 <= i < |xs| && xs[i] == lo
    requires exists i :: 0 <= i < |xs| && xs[i] == hi
    requires forall i :: 0 <= i < |xs| ==> lo <= xs[i] <= hi
    ensures |r| == |xs|
    ensures Affine(xs, r)
    ensures forall i :: 0 <= i < |xs| ==> 0.0 <= r[i] <= 1.0
    ensures forall i, j :: 0 <= i < |xs| && 0 <= j < |xs| ==> (xs[i] <= xs[j] <==> r[i] <= r[j])
    ensures forall i :: 0 <= i < |xs| ==> (r[i] == 0.0 <==> forall j :: 0 <= j < |xs| ==> xs[i] <= xs[j])
    ensures forall i :: 0 <= i < |xs| ==> (r[i] == 1.0 <==> forall j :: 0 <= j < |xs| ==> xs[j] <= xs[i])
  {
    var r := seq(|xs|, i requires 0 <= i < |xs| => Scale(xs[i], lo, hi));
    NormaliseFacts(xs, lo, hi, r);
    NormaliseAffine(xs, lo, hi, r);
    r
  }

  lemma NormaliseFacts(xs: seq<real>, lo: real, hi: real, r: seq<real>)
    requires |xs| > 0 && lo < hi
    requires exists i :: 0 <= i < |xs| && xs[i] == lo
    requires exists i :: 0 <= i < |xs| && xs[i] == hi
    requires forall i :: 0 <= i < |xs| ==> lo <= xs[i] <= hi
    requires |r| == |xs| && forall i :: 0 <= i < |xs| ==> r[i] == Scale(xs[i], lo, hi)
    ensures forall i :: 0 <= i < |xs| ==> 0.0 <= r[i] <= 1.0
    ensures forall i, j :: 0 <= i < |xs| && 0 <= j < |xs| ==> (xs[i] <= xs[j] <==> r[i] <= r[j])
    ensures forall i :: 0 <= i < |xs| ==> (r[i] == 0.0 <==> forall j :: 0 <= j < |xs| ==> xs[i] <= xs[j])
    ensures forall i :: 0 <= i < |xs| ==> (r[i] == 1.0 <==> forall j :: 0 <= j < |xs| ==> xs[j] <= xs[i])
  {
    forall i, j | 0 <= i < |xs| && 0 <= j < |xs| ensures xs[i] <= xs[j] <==> r[i] <= r[j] {
      ScaleOrder(xs[i], xs[j], lo, hi);
    }
    forall i | 0 <= i < |xs| ensures 0.0 <= r[i] <= 1.0 {
      ScaleOrder(lo, xs[i], lo, hi);
      ScaleOrder(xs[i], hi, lo, hi);
      ScaleEnds(lo, lo, hi);
      ScaleEnds(hi, lo, hi);
    }
    forall i | 0 <= i < |xs| ensures r[i] == 0.0 <==> forall j :: 0 <= j < |xs| ==> xs[i] <= xs[j] {
      ScaleEnds(xs[i], lo, hi);
      LeastIsMin(xs, lo, i);
    }
    forall i | 0 <= i < |xs| ensures r[i] == 1.0 <==> forall j :: 0 <= j < |xs| ==> xs[j] <= xs[i] {
      ScaleEnds(xs[i], lo, hi);
      GreatestIsMax(xs, hi, i);
    }
  }

  /** Scaling by the minimum and maximum places each value at its fraction
      of the way from a least value to a greatest one. */
  lemma NormaliseAffine(xs: seq<real>, lo: real, hi: real, r: seq<real>)
    requires lo < hi
    requires exists i :: 0 <= i < |xs| && xs[i] == lo
    requires exists i :: 0 <= i < |xs| && xs[i] == hi
    requires forall i :: 0 <= i < |xs| ==> lo <= xs[i] <= hi
    requires |r| == |xs| && forall i :: 0 <= i < |xs| ==> r[i] == Scale(xs[i], lo, hi)
    ensures Affine(xs, r)
  {
    forall a, b | 0 <= a < |xs| && 0 <= b < |xs| && IsLeastAt(xs, a) && IsGreatestAt(xs, b)
      ensures FractionsBetween(xs, r, a, b)
    {
      ExtremesAre(xs, lo, hi, a, b);
      forall i | 0 <= i < |xs| ensures r[i] * (xs[b] - xs[a]) == xs[i] - xs[a] {
        assert Scale(xs[i], lo, hi) * (hi - lo) == xs[i] - lo;
      }
    }
  }

  /** A least position holds the minimum and a greatest one the maximum. */
  lemma ExtremesAre(xs: seq<real>, lo: real, hi: real, a: int, b: int)
    requires exists i :: 0 <= i < |xs| && xs[i] == lo
    requires exists i :: 0 <= i < |xs| && xs[i] == hi
    requires forall i :: 0 <= i < |xs| ==> lo <= xs[i] <= hi
    requires IsLeastAt(xs, a) && IsGreatestAt(xs, b)
    ensures xs[a] == lo && xs[b] == hi
  {
    var i :| 0 <= i < |xs| && xs[i] == lo;
    var k :| 0 <= k < |xs| && xs[k] == hi;
  }

  lemma LeastIsMin(xs: seq<real>, lo: real, i: int)
    requires 0 <= i < |xs|
    requires exists k :: 0 <= k < |xs| && xs[k] == lo
    requires forall k :: 0 <= k < |xs| ==> lo <= xs[k]
    ensures xs[i] == lo <==> forall j :: 0 <= j < |xs| ==> xs[i] <= xs[j]
  {
    var k :| 0 <= k < |xs| && xs[k] == lo;
  }

  lemma GreatestIsMax(xs: seq<real>, hi: real, i: int)
    requires 0 <= i < |xs|
    requires exists k :: 0 <= k < |xs| && xs[k] == hi
    requires forall k :: 0 <= k < |xs| ==> xs[k] <= hi
    ensures xs[i] == hi <==> forall j :: 0 <= j < |xs| ==> xs[j] <= xs[i]
  {
    var k :| 0 <= k < |xs| && xs[k] == hi;
  }

  // Exponential size (static script): min(2 ** wins, WinsCap) * SizeScale.

  const WinsCap: int := 500
  const SizeScale: int := 100

  function Pow2(n: nat): (p: nat)
    ensures p >= 1
  {
    if n == 0 then 1 else 2 * Pow2(n - 1)
  }

  lemma {:induction false} Pow2Monotone(a: nat, b: nat)
    requires a <= b
    ensures Pow2(a) <= Pow2(b)
    decreases b - a
  {
    if a < b {
      Pow2Monotone(a, b - 1);
    }
  }

  lemma {:induction false} Pow2Add(a: nat, b: nat)
    ensures Pow2(a + b) == Pow2(a) * Pow2(b)
    decreases b
  {
    if b > 0 {
      Pow2Add(a, b - 1);
      assert Pow2(a + b) == 2 * Pow2(a + (b - 1));
    }
  }

  /** The marker size of the static script, with exact integers. */
  function ExpSize(wins: nat): (s: int)
    ensures SizeScale <= s <= WinsCap * SizeScale
    ensures s % SizeScale == 0
    ensures wins == 0 ==> s == SizeScale
  {
    (if Pow2(wins) < WinsCap then Pow2(wins) else WinsCap) * SizeScale
  }

  /** More wins never give a smaller marker. */
  lemma ExpSizeMonotone(a: nat, b: nat)
    requires a <= b
    ensures ExpSize(a) <= ExpSize(b)
  {
    Pow2Monotone(a, b);
  }

  /** From nine wins on, every marker has the capped size 50000. */
  lemma ExpSizeSaturates(wins: nat)
    requires wins >= 9
    ensures ExpSize(wins) == 50000
  {
    Pow2Monotone(9, wins);
    assert Pow2(9) == 512;
  }

  /** Up to eight wins each extra win doubles the marker. */
  lemma ExpSizeDoubles(wins: nat)
    requires wins < 8
    ensures ExpSize(wins + 1) == 2 * ExpSize(wins)
  {
    Pow2Monotone(wins + 1, 8);
    assert Pow2(8) == 256;
  }

  const Int64Modulus: int := 0x1_0000_0000_0000_0000
  const Int64Half: int := 0x8000_0000_0000_0000

  /** Two's-complement wrap-around of a 64-bit signed integer. */
  function WrapInt64(x: int): (w: int)
    ensures -Int64Half <= w < Int64Half
    ensures (x - w) % Int64Modulus == 0
    ensures -Int64Half <= x < Int64Half ==> w == x
  {
    var m := x % Int64Modulus;
    if m >= Int64Half then m - Int64Modulus else m
  }

  /** The size as the static script computes it on an int64 column:
      `2 ** wins` and the product by 100 both wrap around. */
  function ExpSizeInt64(wins: nat): (s: int)
    ensures -Int64Half <= s < Int64Half
  {
    var p := WrapInt64(Pow2(wins));
    WrapInt64((if p < WinsCap then p else WinsCap) * SizeScale)
  }

  lemma Pow2Of63()
    ensures Pow2(63) == Int64Half
  {
    assert Pow2(8) == 256;
    Pow2Add(8, 8);
    assert Pow2(16) == 0x1_0000;
    Pow2Add(16, 16);
    assert Pow2(32) == 0x1_0000_0000;
    Pow2Add(16, 15);
    assert Pow2(15) == 0x8000;
    assert Pow2(31) == 0x8000_0000;
    Pow2Add(31, 32);
  }

  /** Below 63 wins the int64 computation agrees with the exact one. */
  lemma ExpSizeInt64AgreesBelow63(wins: nat)
    requires wins < 63
    ensures ExpSizeInt64(wins) == ExpSize(wins)
  {
    Pow2Monotone(wins, 62);
    Pow2Of63();
    assert Pow2(63) == 2 * Pow2(62);
  }

  /** From 63 wins on, the int64 computation yields an invisible marker of
      size 0, although fewer wins give sizes up to 50000. */
  lemma ExpSizeInt64VanishesFrom63(wins: nat)
    requires wins >= 63
    ensures ExpSizeInt64(wins) == 0
    ensures ExpSizeInt64(wins) < ExpSizeInt64(9)
  {
    Pow2Of63();
    Pow2Add(63, wins - 63);
    if wins == 63 {
      assert WrapInt64(Pow2(wins)) == -Int64Half;
      WrapOfModulusMultiple(-50);
      assert -Int64Half * SizeScale == -50 * Int64Modulus;
    } else {
      Pow2Add(1, wins - 64);
      assert Pow2(wins) == Pow2(wins - 64) * Int64Modulus;
      WrapOfModulusMultiple(Pow2(wins - 64));
    }
    ExpSizeInt64AgreesBelow63(9);
    ExpSizeSaturates(9);
  }

  /** Multiples of 2^64 wrap around to 0. */
  lemma WrapOfModulusMultiple(k: int)
    ensures WrapInt64(k * Int64Modulus) == 0
  {
  }

  // Linear size (animated script): (wins / 2) * (MaxSize - BaseSize) + BaseSize.

  const BaseSize: real := 100.0
  const MaxSize: real := 500.0

  /** The marker size of the animated script. */
  function LinearSize(wins: int): (s: real)
    ensures wins >= 0 ==> s >= BaseSize
    ensures wins == 0 ==> s == BaseSize
    ensures wins == 2 ==> s == MaxSize
  {
    (wins as real / 2.0) * (MaxSize - BaseSize) + BaseSize
  }

  /** Each extra win enlarges the marker. */
  lemma LinearSizeIncreasing(a: int, b: int)
    requires a < b
    ensures LinearSize(a) < LinearSize(b)
  {
  }

  /** Nothing clamps the linear size: past two wins it exceeds the size
      the script names as its maximum. */
  lemma LinearSizeUnclamped(wins: int)
    requires wins > 2
    ensures LinearSize(wins) > MaxSize
  {
  }
}
