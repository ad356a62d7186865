/**
 * Sequence helpers the store's queries use: filtering, duplicate-freedom, and a stable
 * descending insertion sort on an integer key (ORDER BY key DESC).
 */
module Ordering {

  /** Keys never increase from left to right. */
  predicate SortedDesc<T>(xs: seq<T>, key: T -> int) {
    forall i, j :: 0 <= i < j < |xs| ==> key(xs[i]) >= key(xs[j])
  }

  /** No element occurs twice. */
  predicate Distinct<T(==)>(xs: seq<T>) {
    forall x | x in xs :: multiset(xs)[x] <= 1
  }

  /** Every key of xs is at most k. */
  predicate AllAtMost<T>(xs: seq<T>, key: T -> int, k: int) {
    forall i :: 0 <= i < |xs| ==> key(xs[i]) <= k
  }

  /** A sorted list stays sorted when an element no smaller than all of it is put in front. */
  lemma ConsSorted<T>(y: T, ys: seq<T>, key: T -> int)
    requires SortedDesc(ys, key) && AllAtMost(ys, key, key(y))
    ensures SortedDesc([y] + ys, key)
  {
    forall i, j | 0 <= i < j < |[y] + ys|
      ensures key(([y] + ys)[i]) >= key(([y] + ys)[j])
    {
      assert ([y] + ys)[j] == ys[j - 1];
      if i > 0 {
        assert ([y] + ys)[i] == ys[i - 1];
      }
    }
  }

  /** In a sorted list every key is at most the first one. */
  lemma SortedTail<T>(xs: seq<T>, key: T -> int)
    requires SortedDesc(xs, key) && xs != []
    ensures SortedDesc(xs[1..], key)
    ensures AllAtMost(xs, key, key(xs[0])) && AllAtMost(xs[1..], key, key(xs[0]))
  {
    assert forall i :: 0 <= i < |xs[1..]| ==> xs[1..][i] == xs[i + 1];
  }

  /** Inserts x in front of the first element whose key is not larger than its own. */
  function Insert<T(==)>(x: T, xs: seq<T>, key: T -> int): (r: seq<T>)
    requires SortedDesc(xs, key)
    ensures SortedDesc(r, key)
    ensures multiset(r) == multiset(xs) + multiset{x}
    ensures forall k :: AllAtMost(xs, key, k) && key(x) <= k ==> AllAtMost(r, key, k)
  {
    if xs == [] || key(xs[0]) <= key(x) then
      if xs != [] then SortedTail(xs, key); ConsSorted(x, xs, key); [x] + xs
      else ConsSorted(x, xs, key); [x] + xs
    else
      SortedTail(xs, key);
      var rest := Insert(x, xs[1..], key);
      ConsSorted(xs[0], rest, key);
      assert xs == [xs[0]] + xs[1..];
      [xs[0]] + rest
  }

  /** Insertion sort, descending on key. */
  function SortDesc<T(==)>(xs: seq<T>, key: T -> int): (r: seq<T>)
    ensures SortedDesc(r, key)
    ensures multiset(r) == multiset(xs)
  {
    if xs == [] then []
    else
      assert xs == [xs[0]] + xs[1..];
      Insert(xs[0], SortDesc(xs[1..], key), key)
  }

  /** The elements of xs that satisfy keep, in their original order. */
  function Select<T(==,!new)>(xs: seq<T>, keep: T -> bool): (r: seq<T>)
    ensures forall x :: x in r <==> x in xs && keep(x)
    ensures multiset(r) <= multiset(xs)
  {
    if xs == [] then []
    else
      assert xs == [xs[0]] + xs[1..];
      (if keep(xs[0]) then [xs[0]] else []) + Select(xs[1..], keep)
  }

  /** A permutation of a duplicate-free sequence is duplicate-free. */
  lemma DistinctPermutation<T>(xs: seq<T>, ys: seq<T>)
    requires Distinct(xs) && multiset(ys) <= multiset(xs)
    ensures Distinct(ys)
  {
    forall x | x in ys ensures multiset(ys)[x] <= 1 {
      assert multiset(ys)[x] <= multiset(xs)[x];
    }
  }

  /** A duplicate-free list holding exactly the members of a set is as long as the set is large. */
  lemma {:induction false} DistinctCardinality<T>(xs: seq<T>, members: set<T>)
    requires Distinct(xs)
    requires forall y :: y in xs <==> y in members
    ensures |xs| == |members|
    decreases |xs|
  {
    if xs == [] {
      assert forall y :: y !in members;
    } else {
      var x := xs[0];
      assert xs == [x] + xs[1..];
      assert x !in xs[1..] by {
        assert multiset(xs)[x] == 1 + multiset(xs[1..])[x];
      }
      assert Distinct(xs[1..]) by {
        forall y | y in xs[1..] ensures multiset(xs[1..])[y] <= 1 {
          assert multiset(xs)[y] == multiset([x])[y] + multiset(xs[1..])[y];
        }
      }
      DistinctCardinality(xs[1..], members - {x});
    }
  }

  /** In a duplicate-free sequence no two positions hold the same element. */
  lemma {:induction false} DistinctIndices<T>(xs: seq<T>)
    requires Distinct(xs)
    ensures forall i, j :: 0 <= i < j < |xs| ==> xs[i] != xs[j]
  {
    forall i, j | 0 <= i < j < |xs| ensures xs[i] != xs[j] {
      assert xs == xs[..j] + [xs[j]] + xs[j + 1..];
      assert multiset(xs)[xs[j]] == multiset(xs[..j])[xs[j]] + 1 + multiset(xs[j + 1..])[xs[j]];
      assert xs[j] !in xs[..j];
      assert xs[..j][i] == xs[i];
    }
  }
}
