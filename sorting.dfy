// Stable sorting by a key, as Python's `sorted(xs, key=k)` does: the result is
// ordered by key, is a permutation of the input, and elements with equal keys
// keep their input order.
module Sorting {

  ghost predicate StrictTotalOrder<K(!new)>(less: (K, K) -> bool) {
    && (forall a :: !less(a, a))
    && (forall a, b, c :: less(a, b) && less(b, c) ==> less(a, c))
    && (forall a, b :: a != b ==> less(a, b) || less(b, a))
  }

  /** Places `x` in front of the first element whose key is not smaller. */
  function Insert<T, K>(x: T, s: seq<T>, key: T -> K, less: (K, K) -> bool): seq<T> {
    if s == [] then [x]
    else if less(key(s[0]), key(x)) then [s[0]] + Insert(x, s[1..], key, less)
    else [x] + s
  }

  /** Insertion sort by key: the model of `sorted(s, key=key)`. */
  function SortBy<T, K>(s: seq<T>, key: T -> K, less: (K, K) -> bool): seq<T> {
    if s == [] then [] else Insert(s[0], SortBy(s[1..], key, less), key, less)
  }

  ghost predicate SortedBy<T, K>(s: seq<T>, key: T -> K, less: (K, K) -> bool) {
    forall i, j :: 0 <= i < j < |s| ==> !less(key(s[j]), key(s[i]))
  }

  /** The elements of `s` whose key is `k`, in their order in `s`. */
  function WithKey<T, K(==)>(s: seq<T>, key: T -> K, k: K): seq<T> {
    if s == [] then []
    else (if key(s[0]) == k then [s[0]] else []) + WithKey(s[1..], key, k)
  }

  lemma {:induction false} InsertPermutes<T, K>(x: T, s: seq<T>, key: T -> K, less: (K, K) -> bool)
    ensures multiset(Insert(x, s, key, less)) == multiset(s) + multiset{x}
  {
    if s != [] && less(key(s[0]), key(x)) {
      InsertPermutes(x, s[1..], key, less);
      assert s == [s[0]] + s[1..];
    }
  }

  lemma {:induction false} SortByPermutes<T, K>(s: seq<T>, key: T -> K, less: (K, K) -> bool)
    ensures multiset(SortBy(s, key, less)) == multiset(s)
  {
    if s != [] {
      SortByPermutes(s[1..], key, less);
      InsertPermutes(s[0], SortBy(s[1..], key, less), key, less);
      assert s == [s[0]] + s[1..];
    }
  }

  lemma {:induction false} InsertSorted<T, K(!new)>(x: T, s: seq<T>, key: T -> K, less: (K, K) -> bool)
    requires StrictTotalOrder(less)
    requires SortedBy(s, key, less)
    ensures SortedBy(Insert(x, s, key, less), key, less)
  {
    if s != [] && less(key(s[0]), key(x)) {
      InsertSorted(x, s[1..], key, less);
      InsertPermutes(x, s[1..], key, less);
      var r := Insert(x, s[1..], key, less);
      forall y | y in r ensures !less(key(y), key(s[0])) {
        assert y in multiset(r);
        if y != x {
          assert y in multiset(s[1..]);
          var j :| 0 <= j < |s[1..]| && s[1..][j] == y;
          assert s[j + 1] == y;
        }
      }
    }
  }

  lemma {:induction false} SortBySorted<T, K(!new)>(s: seq<T>, key: T -> K, less: (K, K) -> bool)
    requires StrictTotalOrder(less)
    ensures SortedBy(SortBy(s, key, less), key, less)
  {
    if s != [] {
      SortBySorted(s[1..], key, less);
      InsertSorted(s[0], SortBy(s[1..], key, less), key, less);
    }
  }

  lemma WithKeyCons<T, K>(y: T, t: seq<T>, key: T -> K, k: K)
    ensures WithKey([y] + t, key, k) == (if key(y) == k then [y] else []) + WithKey(t, key, k)
  {
    assert ([y] + t)[0] == y && ([y] + t)[1..] == t;
  }

  lemma {:induction false} InsertStable<T, K(!new)>(x: T, s: seq<T>, key: T -> K, less: (K, K) -> bool, k: K)
    requires forall a :: !less(a, a)
    ensures WithKey(Insert(x, s, key, less), key, k)
         == (if key(x) == k then [x] else []) + WithKey(s, key, k)
  {
    if s == [] {
      WithKeyCons(x, [], key, k);
      assert [x] + [] == [x];
    } else if less(key(s[0]), key(x)) {
      var r := Insert(x, s[1..], key, less);
      InsertStable(x, s[1..], key, less, k);
      WithKeyCons(s[0], r, key, k);
      WithKeyCons(s[0], s[1..], key, k);
      assert s == [s[0]] + s[1..];
      if key(s[0]) == k {
        assert key(x) != k by { assert !less(key(x), key(x)); }
      }
    } else {
      WithKeyCons(x, s, key, k);
    }
  }

  /** Stability: for every key, the elements carrying it appear in input order. */
  lemma {:induction false} SortByStable<T, K(!new)>(s: seq<T>, key: T -> K, less: (K, K) -> bool, k: K)
    requires forall a :: !less(a, a)
    ensures WithKey(SortBy(s, key, less), key, k) == WithKey(s, key, k)
  {
    if s != [] {
      SortByStable(s[1..], key, less, k);
      InsertStable(s[0], SortBy(s[1..], key, less), key, less, k);
    }
  }

  /** When no element's key is smaller than an earlier one's, sorting changes nothing. */
  lemma {:induction false} SortByKeepsSorted<T, K>(s: seq<T>, key: T -> K, less: (K, K) -> bool)
    requires SortedBy(s, key, less)
    ensures SortBy(s, key, less) == s
  {
    if s != [] {
      assert SortedBy(s[1..], key, less) by {
        forall i, j | 0 <= i < j < |s[1..]| ensures !less(key(s[1..][j]), key(s[1..][i])) {
          assert s[1..][j] == s[j + 1] && s[1..][i] == s[i + 1];
        }
      }
      SortByKeepsSorted(s[1..], key, less);
      if |s| > 1 {
        assert !less(key(s[1]), key(s[0]));
        assert s[1..][0] == s[1];
      }
    }
  }

  /** Ascending order on integers, as Python compares numbers. */
  function IntLess(a: int, b: int): bool { a < b }

  lemma IntLessIsTotal()
    ensures StrictTotalOrder(IntLess)
  {
  }
}
