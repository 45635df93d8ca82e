/**
 * Python's `sorted(s, key=..., reverse=...)` and `list.sort(key=..., reverse=...)`:
 * a stable sort by a key. With `reverse=True` the result is non-increasing by key and
 * elements with equal keys still keep their input order.
 */
module StableSort {

  /** The keys the recommender sorts by: numbers (scores, years) or texts (lower-cased titles). */
  datatype Key = NumKey(n: int) | TextKey(s: string)

  /** Python's `<` on strings: lexicographic by code point. */
  predicate TextLess(a: string, b: string)
    decreases |a|
  {
    if a == [] then b != []
    else if b == [] then false
    else if a[0] != b[0] then a[0] < b[0]
    else TextLess(a[1..], b[1..])
  }

  /** `<` on keys. One sort never mixes the two kinds; numbers are put first for totality. */
  predicate KeyLess(a: Key, b: Key) {
    match (a, b)
    case (NumKey(x), NumKey(y)) => x < y
    case (TextKey(x), TextKey(y)) => TextLess(x, y)
    case (NumKey(_), TextKey(_)) => true
    case (TextKey(_), NumKey(_)) => false
  }

  lemma {:induction false} TextLessIrreflexive(a: string)
    ensures !TextLess(a, a)
  {
    if a != [] {
      TextLessIrreflexive(a[1..]);
    }
  }

  lemma {:induction false} TextLessTransitive(a: string, b: string, c: string)
    requires TextLess(a, b) && TextLess(b, c)
    ensures TextLess(a, c)
    decreases |a|
  {
    if a != [] && b != [] && c != [] && a[0] == b[0] && b[0] == c[0] {
      TextLessTransitive(a[1..], b[1..], c[1..]);
    }
  }

  lemma {:induction false} TextLessTotal(a: string, b: string)
    requires a != b
    ensures TextLess(a, b) || TextLess(b, a)
    decreases |a|
  {
    if a != [] && b != [] && a[0] == b[0] {
      assert a == [a[0]] + a[1..] && b == [b[0]] + b[1..];
      TextLessTotal(a[1..], b[1..]);
    }
  }

  /** `<` on keys is a strict total order. */
  lemma KeyLessOrder(a: Key, b: Key, c: Key)
    ensures !KeyLess(a, a)
    ensures KeyLess(a, b) && KeyLess(b, c) ==> KeyLess(a, c)
    ensures a != b ==> KeyLess(a, b) || KeyLess(b, a)
  {
    if a.TextKey? {
      TextLessIrreflexive(a.s);
    }
    if a.TextKey? && b.TextKey? && c.TextKey? && TextLess(a.s, b.s) && TextLess(b.s, c.s) {
      TextLessTransitive(a.s, b.s, c.s);
    }
    if a.TextKey? && b.TextKey? && a != b {
      TextLessTotal(a.s, b.s);
    }
  }

  /** `x` strictly goes before `y` in the requested direction. */
  predicate Before(x: Key, y: Key, reverse: bool) {
    if reverse then KeyLess(y, x) else KeyLess(x, y)
  }

  /** "not strictly after" chains: if `y` is not before `x` and `z` not before `y`,
      then `z` is not before `x`. */
  lemma NotBeforeTransitive(x: Key, y: Key, z: Key, reverse: bool)
    requires !Before(y, x, reverse) && !Before(z, y, reverse)
    ensures !Before(z, x, reverse)
  {
    KeyLessOrder(x, y, z);
    KeyLessOrder(z, y, x);
    KeyLessOrder(y, x, z);
    KeyLessOrder(x, z, y);
    KeyLessOrder(z, x, y);
    KeyLessOrder(y, z, x);
  }

  /** No element is strictly before an element that precedes it. */
  ghost predicate Sorted<T>(s: seq<T>, key: T -> Key, reverse: bool) {
    forall i, j :: 0 <= i < j < |s| ==> !Before(key(s[j]), key(s[i]), reverse)
  }

  /** Insert `x` after the elements strictly before it and ahead of the first one that is not. */
  function Insert<T>(x: T, s: seq<T>, key: T -> Key, reverse: bool): seq<T> {
    if s == [] then [x]
    else if Before(key(s[0]), key(x), reverse) then [s[0]] + Insert(x, s[1..], key, reverse)
    else [x] + s
  }

  /** Insertion sort; the first element goes in ahead of later elements with an equal key. */
  function SortBy<T>(s: seq<T>, key: T -> Key, reverse: bool): seq<T> {
    if s == [] then [] else Insert(s[0], SortBy(s[1..], key, reverse), key, reverse)
  }

  /** The elements of `s` whose key is `k`, in order. */
  function WithKey<T>(s: seq<T>, key: T -> Key, k: Key): seq<T> {
    if s == [] then [] else (if key(s[0]) == k then [s[0]] else []) + WithKey(s[1..], key, k)
  }

  lemma {:induction false} InsertPermutation<T>(x: T, s: seq<T>, key: T -> Key, reverse: bool)
    ensures multiset(Insert(x, s, key, reverse)) == multiset(s) + multiset{x}
  {
    if s != [] && Before(key(s[0]), key(x), reverse) {
      InsertPermutation(x, s[1..], key, reverse);
      assert s == [s[0]] + s[1..];
    }
  }

  /** Sorting only reorders: the result holds each element as often as the input. */
  lemma {:induction false} SortByPermutation<T>(s: seq<T>, key: T -> Key, reverse: bool)
    ensures multiset(SortBy(s, key, reverse)) == multiset(s)
    ensures |SortBy(s, key, reverse)| == |s|
  {
    if s != [] {
      SortByPermutation(s[1..], key, reverse);
      InsertPermutation(s[0], SortBy(s[1..], key, reverse), key, reverse);
      assert s == [s[0]] + s[1..];
    }
  }

  /** Inserting an element that is not before `lo` into a list with no element before `lo`
      gives a list with no element before `lo`. */
  lemma {:induction false} InsertBound<T>(x: T, s: seq<T>, key: T -> Key, reverse: bool, lo: Key)
    requires !Before(key(x), lo, reverse)
    requires forall i :: 0 <= i < |s| ==> !Before(key(s[i]), lo, reverse)
    ensures forall j :: 0 <= j < |Insert(x, s, key, reverse)| ==> !Before(key(Insert(x, s, key, reverse)[j]), lo, reverse)
  {
    if s != [] && Before(key(s[0]), key(x), reverse) {
      InsertBound(x, s[1..], key, reverse, lo);
      var rest := Insert(x, s[1..], key, reverse);
      assert Insert(x, s, key, reverse) == [s[0]] + rest;
    }
  }

  lemma {:induction false} InsertSorted<T>(x: T, s: seq<T>, key: T -> Key, reverse: bool)
    requires Sorted(s, key, reverse)
    ensures Sorted(Insert(x, s, key, reverse), key, reverse)
  {
    if s == [] {
    } else if Before(key(s[0]), key(x), reverse) {
      var rest := Insert(x, s[1..], key, reverse);
      InsertSorted(x, s[1..], key, reverse);
      KeyLessOrder(key(x), key(s[0]), key(x));
      InsertBound(x, s[1..], key, reverse, key(s[0]));
      var r := [s[0]] + rest;
      assert Insert(x, s, key, reverse) == r;
      forall i, j | 0 <= i < j < |r| ensures !Before(key(r[j]), key(r[i]), reverse) {
        assert r[j] == rest[j - 1];
        if i > 0 {
          assert r[i] == rest[i - 1];
        }
      }
    } else {
      forall j | 0 <= j < |s| ensures !Before(key(s[j]), key(x), reverse) {
        if j > 0 {
          NotBeforeTransitive(key(x), key(s[0]), key(s[j]), reverse);
        }
      }
    }
  }

  /** The result is ordered: non-decreasing by key, or non-increasing when `reverse` is set. */
  lemma {:induction false} SortBySorted<T>(s: seq<T>, key: T -> Key, reverse: bool)
    ensures Sorted(SortBy(s, key, reverse), key, reverse)
  {
    if s != [] {
      SortBySorted(s[1..], key, reverse);
      InsertSorted(s[0], SortBy(s[1..], key, reverse), key, reverse);
    }
  }

  lemma {:induction false} InsertStable<T>(x: T, s: seq<T>, key: T -> Key, reverse: bool, k: Key)
    ensures WithKey(Insert(x, s, key, reverse), key, k) == (if key(x) == k then [x] else []) + WithKey(s, key, k)
  {
    if s == [] {
    } else if Before(key(s[0]), key(x), reverse) {
      var rest := Insert(x, s[1..], key, reverse);
      var r := [s[0]] + rest;
      InsertStable(x, s[1..], key, reverse, k);
      KeyLessOrder(key(x), key(x), key(x));
      assert key(s[0]) != key(x);
      assert r[1..] == rest;
      assert WithKey(r, key, k) == (if key(s[0]) == k then [s[0]] else []) + WithKey(rest, key, k);
      if key(x) == k {
        assert WithKey(r, key, k) == WithKey(rest, key, k);
        assert WithKey(s, key, k) == WithKey(s[1..], key, k);
      } else {
        assert WithKey(rest, key, k) == WithKey(s[1..], key, k);
      }
    } else {
      assert ([x] + s)[1..] == s;
    }
  }

  /** Stability: for every key, the elements carrying it appear in the result in the same order
      as in the input. */
  lemma {:induction false} SortByStable<T>(s: seq<T>, key: T -> Key, reverse: bool, k: Key)
    ensures WithKey(SortBy(s, key, reverse), key, k) == WithKey(s, key, k)
  {
    if s != [] {
      SortByStable(s[1..], key, reverse, k);
      InsertStable(s[0], SortBy(s[1..], key, reverse), key, reverse, k);
    }
  }
}
