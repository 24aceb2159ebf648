/** Kotlin's `toSet()` on a list: a `LinkedHashSet`, which keeps the first occurrence of every
    element in the order of first occurrence. */
module Distinct {
  predicate NoDuplicates<T(==)>(xs: seq<T>) {
    forall i, j :: 0 <= i < j < |xs| ==> xs[i] != xs[j]
  }

  /** The position of the first occurrence of `x` in `xs`. */
  function FirstIndex<T(==)>(xs: seq<T>, x: T): (k: nat)
    requires x in xs
    ensures k < |xs| && xs[k] == x
    ensures forall j :: 0 <= j < k ==> xs[j] != x
  {
    if xs[0] == x then 0 else 1 + FirstIndex(xs[1..], x)
  }

  /** An element that occurs in a prefix first occurs where it first occurs in the prefix. */
  lemma FirstIndexInPrefix<T>(xs: seq<T>, n: nat, x: T)
    requires n <= |xs| && x in xs[..n]
    ensures FirstIndex(xs, x) == FirstIndex(xs[..n], x)
  {
    var k, k' := FirstIndex(xs, x), FirstIndex(xs[..n], x);
    assert xs[..n][k'] == xs[k'];
    assert k <= k';
    assert xs[..n][k] == xs[k];
  }

  /** `toSet()`, as the sequence of the set's iteration order. */
  function DistinctInOrder<T(==,!new)>(xs: seq<T>): (r: seq<T>)
    ensures forall x :: x in r <==> x in xs
    ensures NoDuplicates(r)
    ensures xs != [] ==> r != [] && r[0] == xs[0]
  {
    if xs == [] then []
    else
      var init := DistinctInOrder(xs[..|xs| - 1]);
      var last := xs[|xs| - 1];
      assert forall x :: x in xs <==> x in xs[..|xs| - 1] || x == last by {
        assert xs == xs[..|xs| - 1] + [last];
      }
      if last in init then init else init + [last]
  }

  /** `r` lists elements of `xs` in the order of their first occurrences in `xs`. */
  predicate InFirstOccurrenceOrder<T(==)>(xs: seq<T>, r: seq<T>) {
    && (forall x :: x in r ==> x in xs)
    && forall i, j :: 0 <= i < j < |r| ==> FirstIndex(xs, r[i]) < FirstIndex(xs, r[j])
  }

  /** An order by first occurrence in a prefix is an order by first occurrence in the whole. */
  lemma OrderExtendsFromPrefix<T>(xs: seq<T>, n: nat, r: seq<T>)
    requires n <= |xs| && InFirstOccurrenceOrder(xs[..n], r)
    ensures InFirstOccurrenceOrder(xs, r)
    ensures forall i :: 0 <= i < |r| ==> FirstIndex(xs, r[i]) < n
  {
    forall i | 0 <= i < |r| ensures r[i] in xs && FirstIndex(xs, r[i]) == FirstIndex(xs[..n], r[i]) {
      FirstIndexInPrefix(xs, n, r[i]);
    }
  }

  /** An element first occurring after all of `r` may be appended to it. */
  lemma OrderAppend<T>(xs: seq<T>, r: seq<T>, x: T)
    requires InFirstOccurrenceOrder(xs, r) && x in xs
    requires forall i :: 0 <= i < |r| ==> FirstIndex(xs, r[i]) < FirstIndex(xs, x)
    ensures InFirstOccurrenceOrder(xs, r + [x])
  {
    var r' := r + [x];
    forall i, j | 0 <= i < j < |r'| ensures FirstIndex(xs, r'[i]) < FirstIndex(xs, r'[j]) {
      assert r'[i] == r[i];
      if j < |r| { assert r'[j] == r[j]; }
    }
  }

  /** The elements `toSet()` keeps come in the order of their first occurrences. */
  lemma {:induction false} DistinctInOrderFollowsFirstOccurrence<T(!new)>(xs: seq<T>)
    ensures InFirstOccurrenceOrder(xs, DistinctInOrder(xs))
    decreases |xs|
  {
    if xs != [] {
      var n := |xs| - 1;
      var init := DistinctInOrder(xs[..n]);
      DistinctInOrderFollowsFirstOccurrence(xs[..n]);
      OrderExtendsFromPrefix(xs, n, init);
      if xs[n] !in init {
        assert FirstIndex(xs, xs[n]) == n by {
          forall j | 0 <= j < n ensures xs[j] != xs[n] { assert xs[j] == xs[..n][j]; }
        }
        OrderAppend(xs, init, xs[n]);
      }
    }
  }
}
