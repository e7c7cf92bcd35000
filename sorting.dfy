/**
 * Sorting a list by an integer key, as the portal's `sorted(..., key=...)`
 * calls do: an insertion sort, specified by "ordered by key" and
 * "a permutation of the input".
 */
module Sorting {

  predicate SortedBy<T>(xs: seq<T>, key: T -> int) {
    forall i, j :: 0 <= i < j < |xs| ==> key(xs[i]) <= key(xs[j])
  }

  predicate StrictlySortedBy<T>(xs: seq<T>, key: T -> int) {
    forall i, j :: 0 <= i < j < |xs| ==> key(xs[i]) < key(xs[j])
  }

  /** No two elements of `xs` share a key. */
  predicate DistinctKeys<T>(xs: seq<T>, key: T -> int) {
    forall i, j :: 0 <= i < j < |xs| ==> key(xs[i]) != key(xs[j])
  }

  /** No element of `xs` has key `k`. */
  predicate KeyAbsent<T>(xs: seq<T>, k: int, key: T -> int) {
    forall i :: 0 <= i < |xs| ==> key(xs[i]) != k
  }

  /** A key-ordered list stays ordered when `h`, with a key no larger than its head's, goes in front. */
  lemma PrependSorted<T>(h: T, t: seq<T>, key: T -> int)
    requires SortedBy(t, key)
    requires t != [] ==> key(h) <= key(t[0])
    ensures SortedBy([h] + t, key)
    ensures StrictlySortedBy(t, key) && (t != [] ==> key(h) < key(t[0])) ==>
              StrictlySortedBy([h] + t, key)
  {
    var r := [h] + t;
    forall i, j | 0 <= i < j < |r| ensures key(r[i]) <= key(r[j]) {
      assert r[j] == t[j - 1];
      if i > 0 { assert r[i] == t[i - 1]; }
    }
    if StrictlySortedBy(t, key) && (t != [] ==> key(h) < key(t[0])) {
      forall i, j | 0 <= i < j < |r| ensures key(r[i]) < key(r[j]) {
        assert r[j] == t[j - 1];
        if i > 0 { assert r[i] == t[i - 1]; }
      }
    }
  }

  /** Puts `x` into the key-ordered `xs`, before the first element whose key is not smaller. */
  function Insert<T>(x: T, xs: seq<T>, key: T -> int): (r: seq<T>)
    requires SortedBy(xs, key)
    ensures SortedBy(r, key)
    ensures multiset(r) == multiset(xs) + multiset{x}
    ensures r[0] == x || (xs != [] && r[0] == xs[0])
  {
    if xs == [] || key(x) <= key(xs[0]) then
      PrependSorted(x, xs, key);
      [x] + xs
    else
      var rest := Insert(x, xs[1..], key);
      PrependSorted(xs[0], rest, key);
      assert xs == [xs[0]] + xs[1..];
      [xs[0]] + rest
  }

  /** Inserting a key not yet present keeps a strictly ordered list strictly ordered. */
  lemma {:induction false} InsertStrict<T>(x: T, xs: seq<T>, key: T -> int)
    requires StrictlySortedBy(xs, key)
    requires KeyAbsent(xs, key(x), key)
    ensures StrictlySortedBy(Insert(x, xs, key), key)
  {
    if xs == [] || key(x) <= key(xs[0]) {
      PrependSorted(x, xs, key);
    } else {
      var rest := Insert(x, xs[1..], key);
      InsertStrict(x, xs[1..], key);
      PrependSorted(xs[0], rest, key);
    }
  }

  /** `xs` ordered by `key`. */
  function SortBy<T>(xs: seq<T>, key: T -> int): (r: seq<T>)
    ensures SortedBy(r, key)
    ensures multiset(r) == multiset(xs)
  {
    if xs == [] then
      []
    else
      assert xs == [xs[0]] + xs[1..];
      Insert(xs[0], SortBy(xs[1..], key), key)
  }

  /** When no two elements share a key, the sorted list is strictly ordered. */
  lemma {:induction false} SortByStrict<T>(xs: seq<T>, key: T -> int)
    requires DistinctKeys(xs, key)
    ensures StrictlySortedBy(SortBy(xs, key), key)
  {
    if xs != [] {
      var rest := SortBy(xs[1..], key);
      SortByStrict(xs[1..], key);
      forall i | 0 <= i < |rest| ensures key(rest[i]) != key(xs[0]) {
        assert rest[i] in multiset(xs[1..]);
        var j :| 0 <= j < |xs[1..]| && xs[1..][j] == rest[i];
        assert xs[j + 1] == rest[i];
      }
      InsertStrict(xs[0], rest, key);
    }
  }
}
