/** Sequence operations behind the store's result ordering: a stable sort by a
    key in descending order (SQL `ORDER BY ... DESC`), reversal (Python's
    `reversed`), filtering (a `WHERE` clause) and distinctness. */
module Seqs {

  /** Non-increasing by `key`. */
  predicate SortedDesc<T>(xs: seq<T>, key: T -> int) {
    forall i, j :: 0 <= i < j < |xs| ==> key(xs[i]) >= key(xs[j])
  }

  /** Non-decreasing by `key`. */
  predicate SortedAsc<T>(xs: seq<T>, key: T -> int) {
    forall i, j :: 0 <= i < j < |xs| ==> key(xs[i]) <= key(xs[j])
  }

  /** No two elements share the same `f` value. */
  predicate DistinctBy<T, K(==)>(xs: seq<T>, f: T -> K) {
    forall i, j :: 0 <= i < j < |xs| ==> f(xs[i]) != f(xs[j])
  }

  /** Inserts `x` into a descending sequence in front of the first element
      whose key does not exceed its own. The result starts with `x` or with
      the old first element. */
  function Insert<T>(x: T, xs: seq<T>, key: T -> int): (r: seq<T>)
    requires SortedDesc(xs, key)
    ensures SortedDesc(r, key)
    ensures multiset(r) == multiset(xs) + multiset{x}
    ensures |r| == |xs| + 1
    ensures r[0] == x || (|xs| > 0 && r[0] == xs[0])
    decreases |xs|
  {
    if |xs| == 0 || key(xs[0]) <= key(x) then [x] + xs
    else
      var rest := Insert(x, xs[1..], key);
      assert xs == [xs[0]] + xs[1..];
      assert key(xs[0]) >= key(rest[0]);
      [xs[0]] + rest
  }

  /** Insertion sort into descending key order; elements with equal keys keep
      their relative order. */
  function SortDesc<T>(xs: seq<T>, key: T -> int): (r: seq<T>)
    ensures SortedDesc(r, key)
    ensures multiset(r) == multiset(xs)
    ensures |r| == |xs|
    decreases |xs|
  {
    if |xs| == 0 then []
    else
      assert xs == [xs[0]] + xs[1..];
      Insert(xs[0], SortDesc(xs[1..], key), key)
  }

  /** Python's `reversed(xs)`. */
  function Reverse<T>(xs: seq<T>): (r: seq<T>)
    ensures |r| == |xs|
    ensures forall i :: 0 <= i < |xs| ==> r[i] == xs[|xs| - 1 - i]
    ensures multiset(r) == multiset(xs)
    decreases |xs|
  {
    if |xs| == 0 then []
    else
      assert xs == [xs[0]] + xs[1..];
      Reverse(xs[1..]) + [xs[0]]
  }

  /** The elements satisfying `keep`, in their original order. */
  function Filter<T>(xs: seq<T>, keep: T -> bool): (r: seq<T>)
    ensures |r| <= |xs|
    ensures forall i :: 0 <= i < |r| ==> r[i] in xs && keep(r[i])
    ensures forall i :: 0 <= i < |xs| && keep(xs[i]) ==> xs[i] in r
    decreases |xs|
  {
    if |xs| == 0 then []
    else
      assert xs == [xs[0]] + xs[1..];
      (if keep(xs[0]) then [xs[0]] else []) + Filter(xs[1..], keep)
  }

  /** Two positions holding the same value make it occur at least twice. */
  lemma TwoOccurrences<T>(xs: seq<T>, i: nat, j: nat)
    requires i < j < |xs| && xs[i] == xs[j]
    ensures multiset(xs)[xs[i]] >= 2
  {
    assert xs == xs[..j] + xs[j..];
    assert xs[i] in xs[..j];
    assert xs[j] in xs[j..];
  }

  /** In a sequence without repeated `f` values no value occurs twice. */
  lemma {:induction false} DistinctOccursOnce<T, K>(xs: seq<T>, f: T -> K, x: T)
    requires DistinctBy(xs, f)
    ensures multiset(xs)[x] <= 1
    decreases |xs|
  {
    if |xs| > 0 {
      assert xs == [xs[0]] + xs[1..];
      assert DistinctBy(xs[1..], f);
      DistinctOccursOnce(xs[1..], f, x);
      if x == xs[0] {
        forall m | 0 <= m < |xs[1..]| ensures xs[1..][m] != x {
          assert f(xs[0]) != f(xs[m + 1]);
        }
        assert x !in xs[1..];
      }
    }
  }

  /** A permutation of a sequence without repeated `f` values has none either. */
  lemma PermutationKeepsDistinct<T, K>(xs: seq<T>, ys: seq<T>, f: T -> K)
    requires multiset(xs) == multiset(ys)
    requires DistinctBy(xs, f)
    ensures DistinctBy(ys, f)
  {
    forall i, j | 0 <= i < j < |ys| ensures f(ys[i]) != f(ys[j]) {
      assert ys[i] in multiset(xs) && ys[j] in multiset(xs);
      var a :| 0 <= a < |xs| && xs[a] == ys[i];
      var b :| 0 <= b < |xs| && xs[b] == ys[j];
      if a == b {
        TwoOccurrences(ys, i, j);
        DistinctOccursOnce(xs, f, ys[i]);
        assert false;
      } else if a < b {
        assert f(xs[a]) != f(xs[b]);
      } else {
        assert f(xs[b]) != f(xs[a]);
      }
    }
  }

  /** After sorting in descending order, nothing left out of the first `m`
      elements has a larger key than anything kept. */
  lemma PrefixHoldsLargest<T>(s: seq<T>, m: nat, key: T -> int)
    requires SortedDesc(s, key) && m <= |s|
    ensures forall x, y :: x in s[m..] && y in s[..m] ==> key(x) <= key(y)
  {
    forall x, y | x in s[m..] && y in s[..m] ensures key(x) <= key(y) {
      var a :| 0 <= a < |s[m..]| && s[m..][a] == x;
      var b :| 0 <= b < |s[..m]| && s[..m][b] == y;
      assert s[m + a] == x && s[b] == y;
    }
  }

  /** The `m` elements with the largest keys, largest first, ties in their
      original order: `ORDER BY key DESC LIMIT m`. It is as long as it can be,
      takes only elements of `xs`, and no element left out has a larger key
      than one kept. */
  function Top<T>(xs: seq<T>, m: nat, key: T -> int): (r: seq<T>)
    ensures |r| == if |xs| < m then |xs| else m
    ensures SortedDesc(r, key)
    ensures multiset(r) <= multiset(xs)
    ensures forall x, y :: x in multiset(xs) - multiset(r) && y in r ==> key(x) <= key(y)
  {
    var sorted := SortDesc(xs, key);
    var k := if |sorted| < m then |sorted| else m;
    PrefixHoldsLargest(sorted, k, key);
    assert sorted == sorted[..k] + sorted[k..];
    assert multiset(xs) - multiset(sorted[..k]) == multiset(sorted[k..]);
    sorted[..k]
  }

  /** A permutation has the same elements. */
  lemma PermutationSameElements<T>(xs: seq<T>, ys: seq<T>)
    requires multiset(xs) == multiset(ys)
    ensures forall x :: x in xs <==> x in ys
  {
    forall x ensures x in xs <==> x in ys {
      assert x in xs <==> x in multiset(xs);
      assert x in ys <==> x in multiset(ys);
    }
  }

  /** Filtering distributes over appending one element. */
  lemma {:induction false} FilterAppend<T>(xs: seq<T>, x: T, keep: T -> bool)
    ensures Filter(xs + [x], keep) == Filter(xs, keep) + (if keep(x) then [x] else [])
    decreases |xs|
  {
    if |xs| > 0 {
      assert (xs + [x])[1..] == xs[1..] + [x];
      FilterAppend(xs[1..], x, keep);
    } else {
      assert xs + [x] == [x];
    }
  }

  /** Filtering distributes over concatenation. */
  lemma {:induction false} FilterConcat<T>(xs: seq<T>, ys: seq<T>, keep: T -> bool)
    ensures Filter(xs + ys, keep) == Filter(xs, keep) + Filter(ys, keep)
    decreases |xs|
  {
    if |xs| > 0 {
      assert (xs + ys)[1..] == xs[1..] + ys;
      FilterConcat(xs[1..], ys, keep);
    } else {
      assert xs + ys == ys;
    }
  }

  /** Filtering keeps a sequence whose every element passes. */
  lemma {:induction false} FilterAll<T>(xs: seq<T>, keep: T -> bool)
    requires forall i :: 0 <= i < |xs| ==> keep(xs[i])
    ensures Filter(xs, keep) == xs
    decreases |xs|
  {
    if |xs| > 0 {
      assert keep(xs[0]);
      FilterAll(xs[1..], keep);
      assert xs == [xs[0]] + xs[1..];
    }
  }

  /** Filtering empties a sequence whose every element fails. */
  lemma {:induction false} FilterNone<T>(xs: seq<T>, keep: T -> bool)
    requires forall i :: 0 <= i < |xs| ==> !keep(xs[i])
    ensures Filter(xs, keep) == []
    decreases |xs|
  {
    if |xs| > 0 {
      assert !keep(xs[0]);
      FilterNone(xs[1..], keep);
    }
  }

  /** Filtering twice by the same test is filtering once. */
  lemma FilterIdempotent<T>(xs: seq<T>, keep: T -> bool)
    ensures Filter(Filter(xs, keep), keep) == Filter(xs, keep)
  {
    FilterAll(Filter(xs, keep), keep);
  }

  /** Filtering keeps every passing element as often as it occurs and drops
      every failing one. */
  lemma {:induction false} FilterCounts<T>(xs: seq<T>, keep: T -> bool)
    ensures forall x :: multiset(Filter(xs, keep))[x] == if keep(x) then multiset(xs)[x] else 0
    decreases |xs|
  {
    if |xs| > 0 {
      FilterCounts(xs[1..], keep);
      assert xs == [xs[0]] + xs[1..];
      assert multiset(xs) == multiset{xs[0]} + multiset(xs[1..]);
      var head := if keep(xs[0]) then [xs[0]] else [];
      assert Filter(xs, keep) == head + Filter(xs[1..], keep);
      assert multiset(Filter(xs, keep)) == multiset(head) + multiset(Filter(xs[1..], keep));
    }
  }

  /** A first element that passes stays first. */
  lemma FilterKeepsHead<T>(xs: seq<T>, keep: T -> bool)
    requires |xs| > 0 && keep(xs[0])
    ensures |Filter(xs, keep)| > 0 && Filter(xs, keep)[0] == xs[0]
  {
    assert Filter(xs, keep) == [xs[0]] + Filter(xs[1..], keep);
  }
}
