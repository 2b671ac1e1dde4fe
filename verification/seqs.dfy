/** Sequence helpers shared by the data step: duplicate-freedom,
    order-preserving filtering and first-appearance de-duplication. */
module Seqs {

  /** No value occurs twice in `s`. */
  predicate Distinct<T(==)>(s: seq<T>) {
    forall i, j :: 0 <= i < j < |s| ==> s[i] != s[j]
  }

  /** `a` is obtained from `b` by deleting elements, keeping the order. */
  predicate IsSubsequence<T(==)>(a: seq<T>, b: seq<T>)
    decreases |b|
  {
    if |a| == 0 then true
    else if |b| == 0 then false
    else (a[0] == b[0] && IsSubsequence(a[1..], b[1..])) || IsSubsequence(a, b[1..])
  }

  lemma {:induction false} SubsequenceElements<T>(a: seq<T>, b: seq<T>)
    requires IsSubsequence(a, b)
    ensures forall e :: e in a ==> e in b
    ensures |a| <= |b|
    decreases |b|
  {
    if |a| == 0 {
    } else if a[0] == b[0] && IsSubsequence(a[1..], b[1..]) {
      SubsequenceElements(a[1..], b[1..]);
      forall e | e in a ensures e in b {
        if e != a[0] {
          assert e in a[1..];
        }
      }
    } else {
      SubsequenceElements(a, b[1..]);
    }
  }

  /** A subsequence of a duplicate-free sequence is fixed by its elements:
      two subsequences of a distinct `s` with the same elements are equal. */
  lemma {:induction false} DistinctSubsequenceUnique<T>(a: seq<T>, b: seq<T>, s: seq<T>)
    requires Distinct(s)
    requires IsSubsequence(a, s) && IsSubsequence(b, s)
    requires forall e :: e in a <==> e in b
    ensures a == b
    decreases |s|
  {
    if |s| == 0 {
      SubsequenceElements(a, s);
      SubsequenceElements(b, s);
    } else {
      var h, t := s[0], s[1..];
      assert Distinct(t);
      assert h !in t;
      if h in a {
        assert s == [h] + t;
        HeadOf(a, h, t);
        HeadOf(b, h, t);
        SubsequenceElements(a[1..], t);
        SubsequenceElements(b[1..], t);
        forall e ensures e in a[1..] <==> e in b[1..] {
          assert e in a <==> e == h || e in a[1..];
          assert e in b <==> e == h || e in b[1..];
        }
        DistinctSubsequenceUnique(a[1..], b[1..], t);
        assert a == [a[0]] + a[1..];
        assert b == [b[0]] + b[1..];
      } else {
        assert s == [h] + t;
        NotHeadOf(a, h, t);
        NotHeadOf(b, h, t);
        DistinctSubsequenceUnique(a, b, t);
      }
    }
  }

  /** When the head `h` of `[h] + t` occurs in a subsequence `a` and not in
      `t`, it is the head of `a` and the rest of `a` is drawn from `t`. */
  lemma {:induction false} HeadOf<T>(a: seq<T>, h: T, t: seq<T>)
    requires IsSubsequence(a, [h] + t)
    requires h in a && h !in t
    ensures |a| > 0 && a[0] == h && IsSubsequence(a[1..], t)
  {
    var s := [h] + t;
    assert s[1..] == t;
    if !(a[0] == s[0] && IsSubsequence(a[1..], s[1..])) {
      SubsequenceElements(a, t);
      assert false;
    }
  }

  /** When the head `h` of `[h] + t` does not occur in `a`, `a` is drawn from `t`. */
  lemma {:induction false} NotHeadOf<T>(a: seq<T>, h: T, t: seq<T>)
    requires IsSubsequence(a, [h] + t)
    requires h !in a
    ensures IsSubsequence(a, t)
  {
    var s := [h] + t;
    assert s[1..] == t;
    if |a| > 0 {
      assert a[0] != h;
    }
  }

  /** The elements of `s` for which `keep` holds, in their original order:
      the model of a boolean-mask selection `df[mask]`. */
  function Filter<T(!new)>(s: seq<T>, keep: T -> bool): (r: seq<T>)
    ensures forall x :: x in r <==> x in s && keep(x)
    ensures IsSubsequence(r, s)
    decreases |s|
  {
    if |s| == 0 then []
    else
      var rest := Filter(s[1..], keep);
      assert forall x :: x in s <==> x == s[0] || x in s[1..];
      if keep(s[0]) then
        assert ([s[0]] + rest)[1..] == rest;
        [s[0]] + rest
      else rest
  }

  /** A filter keeps every copy of a kept value and no copy of any other. */
  lemma {:induction false} FilterCounts<T(!new)>(s: seq<T>, keep: T -> bool)
    ensures forall x :: multiset(Filter(s, keep))[x] == if keep(x) then multiset(s)[x] else 0
    decreases |s|
  {
    if |s| > 0 {
      FilterCounts(s[1..], keep);
      assert s == [s[0]] + s[1..];
      assert multiset(s) == multiset{s[0]} + multiset(s[1..]);
      if keep(s[0]) {
        assert multiset(Filter(s, keep)) == multiset{s[0]} + multiset(Filter(s[1..], keep));
      }
    }
  }

  /** A filter whose condition holds of every element returns its input. */
  lemma {:induction false} FilterKeepsAll<T(!new)>(s: seq<T>, keep: T -> bool)
    requires forall x :: x in s ==> keep(x)
    ensures Filter(s, keep) == s
    decreases |s|
  {
    if |s| > 0 {
      FilterKeepsAll(s[1..], keep);
      assert s == [s[0]] + s[1..];
    }
  }

  /** The distinct values of `s` in order of first appearance: the model of
      pandas' `Series.unique()`, which does not sort. */
  function Unique<T(==,!new)>(s: seq<T>): (r: seq<T>)
    ensures Distinct(r)
    ensures forall x :: x in r <==> x in s
    ensures |r| <= |s|
    decreases |s|
  {
    if |s| == 0 then []
    else
      var u := Unique(s[..|s| - 1]);
      assert s == s[..|s| - 1] + [s[|s| - 1]];
      if s[|s| - 1] in u then u else u + [s[|s| - 1]]
  }

  /** First-appearance order: the distinct values of every prefix of `s`
      are the leading entries of `Unique(s)`. */
  lemma {:induction false} UniquePrefix<T(!new)>(s: seq<T>, k: nat)
    requires k <= |s|
    ensures Unique(s[..k]) <= Unique(s)
    decreases |s| - k
  {
    if k < |s| {
      UniquePrefix(s, k + 1);
      assert s[..k + 1][..k] == s[..k];
    } else {
      assert s[..k] == s;
    }
  }

  /** The last element of a non-empty sequence (Python's `xs[-1]`). */
  function Last<T>(s: seq<T>): T
    requires |s| > 0
  {
    s[|s| - 1]
  }

  /** A non-empty sequence holds its first element. */
  lemma HeadIn<T>(s: seq<T>)
    ensures |s| > 0 ==> s[0] in s
  {
  }

  /** `w` appears in `s` starting at position `i`. */
  ghost predicate OccursAt<T>(w: seq<T>, s: seq<T>, i: int) {
    0 <= i <= |s| - |w| && s[i..i + |w|] == w
  }

  /** `w` appears as a contiguous block of `s` (Python's `w in s` on strings). */
  ghost predicate Occurs<T>(w: seq<T>, s: seq<T>) {
    exists i :: 0 <= i <= |s| - |w| && OccursAt(w, s, i)
  }

  /** A block of `b` is a block of `a + b`, shifted by `|a|`. */
  lemma OccursRight<T>(w: seq<T>, a: seq<T>, b: seq<T>)
    requires Occurs(w, b)
    ensures Occurs(w, a + b)
  {
    var i :| 0 <= i <= |b| - |w| && OccursAt(w, b, i);
    assert (a + b)[|a| + i..|a| + i + |w|] == b[i..i + |w|];
    assert OccursAt(w, a + b, |a| + i);
  }
}
