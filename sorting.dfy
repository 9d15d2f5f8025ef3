/**
 * Stable sorting by an integer key: what `Array.prototype.sort` does with a
 * comparator `(a, b) => key(a) - key(b)`. The sort is stable, so elements with
 * equal keys keep their relative order.
 */
module Sorting {

  /** `s` is in ascending order of `key`. */
  predicate SortedBy<T>(s: seq<T>, key: T -> int)
  {
    forall i, j :: 0 <= i < j < |s| ==> key(s[i]) <= key(s[j])
  }

  /** The elements of `s` whose key is `k`, in their order in `s`. */
  function WithKey<T>(s: seq<T>, key: T -> int, k: int): seq<T>
  {
    if s == [] then [] else (if key(s[0]) == k then [s[0]] else []) + WithKey(s[1..], key, k)
  }

  /** Putting one element in front of `s`. */
  lemma WithKeyCons<T>(x: T, s: seq<T>, key: T -> int, k: int)
    ensures WithKey([x] + s, key, k) == (if key(x) == k then [x] else []) + WithKey(s, key, k)
  {
    assert ([x] + s)[1..] == s;
  }

  /** An element no greater than every key of the sorted `s` can go in front of it. */
  lemma SortedCons<T>(x: T, s: seq<T>, key: T -> int)
    requires SortedBy(s, key)
    requires KeysFrom(x, s, key)
    ensures SortedBy([x] + s, key)
  {
    forall j | 1 <= j < |[x] + s| ensures key(x) <= key(([x] + s)[j]) {
      assert ([x] + s)[j] == s[j - 1];
    }
  }

  /** The keys of `tail` are all at least the key of `y`. */
  predicate KeysFrom<T>(y: T, tail: seq<T>, key: T -> int)
  {
    forall j :: 0 <= j < |tail| ==> key(y) <= key(tail[j])
  }

  /** Stability of one insertion step that passes over the smaller `y`. */
  lemma InsertPastStable<T>(x: T, y: T, s: seq<T>, tail: seq<T>, key: T -> int, k: int)
    requires key(y) < key(x)
    requires WithKey(tail, key, k) == (if key(x) == k then [x] else []) + WithKey(s, key, k)
    ensures WithKey([y] + tail, key, k) == (if key(x) == k then [x] else []) + WithKey([y] + s, key, k)
  {
    WithKeyCons(y, tail, key, k);
    WithKeyCons(y, s, key, k);
  }

  /** What inserting `x` into `s` must produce: a sorted permutation that puts `x` first among equal keys. */
  ghost predicate Inserted<T>(x: T, s: seq<T>, r: seq<T>, key: T -> int)
  {
    |r| == |s| + 1 && SortedBy(r, key) && multiset(r) == multiset(s) + multiset{x}
    && forall k :: WithKey(r, key, k) == (if key(x) == k then [x] else []) + WithKey(s, key, k)
  }

  /** Insertion at the front is correct when `x` is no greater than the first key. */
  lemma InsertFront<T>(x: T, s: seq<T>, key: T -> int)
    requires SortedBy(s, key)
    requires s == [] || key(x) <= key(s[0])
    ensures Inserted(x, s, [x] + s, key)
  {
    SortedCons(x, s, key);
    forall k ensures WithKey([x] + s, key, k) == (if key(x) == k then [x] else []) + WithKey(s, key, k) {
      WithKeyCons(x, s, key, k);
    }
  }

  /** Insertion past a smaller first element is correct when insertion into the rest is. */
  lemma InsertPast<T>(x: T, s: seq<T>, tail: seq<T>, key: T -> int)
    requires SortedBy(s, key)
    requires s != [] && key(s[0]) < key(x)
    requires Inserted(x, s[1..], tail, key)
    ensures Inserted(x, s, [s[0]] + tail, key)
  {
    assert s == [s[0]] + s[1..];
    assert KeysFrom(s[0], tail, key) by {
      forall j | 0 <= j < |tail| ensures key(s[0]) <= key(tail[j]) {
        var y := tail[j];
        assert y in multiset(tail);
        if y != x {
          assert y in multiset(s[1..]);
          var i :| 0 <= i < |s[1..]| && s[1..][i] == y;
          assert s[i + 1] == y;
        }
      }
    }
    SortedCons(s[0], tail, key);
    forall k ensures WithKey([s[0]] + tail, key, k) == (if key(x) == k then [x] else []) + WithKey(s, key, k) {
      InsertPastStable(x, s[0], s[1..], tail, key, k);
    }
  }

  /** Inserts `x` into the sorted `s` ahead of every element whose key is not smaller. */
  function Insert<T>(x: T, s: seq<T>, key: T -> int): (r: seq<T>)
    requires SortedBy(s, key)
    ensures |r| == |s| + 1
    ensures SortedBy(r, key)
    ensures multiset(r) == multiset(s) + multiset{x}
    ensures forall k :: WithKey(r, key, k) == (if key(x) == k then [x] else []) + WithKey(s, key, k)
  {
    if s == [] || key(x) <= key(s[0]) then
      InsertFront(x, s, key);
      [x] + s
    else
      var tail := Insert(x, s[1..], key);
      InsertPast(x, s, tail, key);
      [s[0]] + tail
  }

  /**
   * The elements of `s` in ascending order of `key`: a permutation of `s`,
   * sorted, and stable (for every key value, the elements carrying it appear
   * in the same order as in `s`).
   */
  function SortBy<T>(s: seq<T>, key: T -> int): (r: seq<T>)
    ensures |r| == |s|
    ensures SortedBy(r, key)
    ensures multiset(r) == multiset(s)
    ensures forall k :: WithKey(r, key, k) == WithKey(s, key, k)
  {
    if s == [] then []
    else
      assert s == [s[0]] + s[1..];
      assert forall k :: WithKey(s, key, k) == (if key(s[0]) == k then [s[0]] else []) + WithKey(s[1..], key, k) by {
        forall k ensures WithKey(s, key, k) == (if key(s[0]) == k then [s[0]] else []) + WithKey(s[1..], key, k) {
          WithKeyCons(s[0], s[1..], key, k);
        }
      }
      Insert(s[0], SortBy(s[1..], key), key)
  }
}
