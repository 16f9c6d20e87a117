/**
 * Python's built-in `sorted(xs, key=key)` for integer keys: a stable sort.
 * The definition below is a functional insertion sort; it stands for the
 * behaviour the language promises (an ascending, stable permutation), not for
 * CPython's Timsort.
 */
module Sorting {

  /** Every element of `s` lies in the domain of `key`. */
  ghost predicate Keyed<T>(s: seq<T>, key: T --> int) {
    forall x :: x in s ==> key.requires(x)
  }

  /** Keys never decrease from left to right. */
  ghost predicate SortedBy<T>(s: seq<T>, key: T --> int)
    requires Keyed(s, key)
  {
    forall i, j :: 0 <= i < j < |s| ==> key(s[i]) <= key(s[j])
  }

  /** The elements of `s` whose key is `k`, in their order in `s`. */
  ghost function WithKey<T>(s: seq<T>, key: T --> int, k: int): seq<T>
    requires Keyed(s, key)
  {
    if s == [] then []
    else (if key(s[0]) == k then [s[0]] else []) + WithKey(s[1..], key, k)
  }

  /** Places `x` before the first element of `s` whose key is at least `key(x)`. */
  function Insert<T(!new)>(x: T, s: seq<T>, key: T --> int): (r: seq<T>)
    requires key.requires(x) && Keyed(s, key)
    ensures forall y :: y in r <==> y == x || y in s
    ensures multiset(r) == multiset(s) + multiset{x}
    ensures SortedBy(s, key) ==> SortedBy(r, key)
  {
    if s == [] || key(x) <= key(s[0]) then
      InsertFrontSorted(x, s, key);
      [x] + s
    else
      assert s == [s[0]] + s[1..];
      var r := Insert(x, s[1..], key);
      InsertBehindSorted(s[0], r, x, s, key);
      [s[0]] + r
  }

  lemma InsertFrontSorted<T>(x: T, s: seq<T>, key: T --> int)
    requires key.requires(x) && Keyed(s, key)
    requires s == [] || key(x) <= key(s[0])
    ensures SortedBy(s, key) ==> SortedBy([x] + s, key)
  {
    if SortedBy(s, key) {
      forall i, j | 0 <= i < j < |[x] + s|
        ensures key(([x] + s)[i]) <= key(([x] + s)[j])
      {
        if i > 0 {
          assert ([x] + s)[i] == s[i - 1];
        }
      }
    }
  }

  lemma InsertBehindSorted<T>(y: T, r: seq<T>, x: T, s: seq<T>, key: T --> int)
    requires key.requires(x) && Keyed(s, key) && s != [] && y == s[0]
    requires key(y) < key(x)
    requires forall z :: z in r <==> z == x || z in s[1..]
    requires SortedBy(s, key) ==> SortedBy(r, key)
    ensures Keyed([y] + r, key)
    ensures SortedBy(s, key) ==> SortedBy([y] + r, key)
  {
    forall z | z in r
      ensures key.requires(z)
    {
      if z != x {
        var m :| 0 <= m < |s[1..]| && s[1..][m] == z;
        assert s[m + 1] == z;
      }
    }
    if SortedBy(s, key) {
      forall j | 0 <= j < |r|
        ensures key(y) <= key(r[j])
      {
        if r[j] != x {
          assert r[j] in s[1..];
          var m :| 0 <= m < |s[1..]| && s[1..][m] == r[j];
          assert s[m + 1] == r[j];
        }
      }
      forall i, j | 0 <= i < j < |[y] + r|
        ensures key(([y] + r)[i]) <= key(([y] + r)[j])
      {
        assert ([y] + r)[j] == r[j - 1];
        if i > 0 {
          assert ([y] + r)[i] == r[i - 1];
        }
      }
    }
  }

  /** `sorted(xs, key=key)`. */
  function SortBy<T(!new)>(xs: seq<T>, key: T --> int): (r: seq<T>)
    requires Keyed(xs, key)
    ensures multiset(r) == multiset(xs)
    ensures Keyed(r, key)
    ensures SortedBy(r, key)
  {
    if xs == [] then []
    else
      assert xs == [xs[0]] + xs[1..];
      Insert(xs[0], SortBy(xs[1..], key), key)
  }

  /** Inserting `x` leaves the relative order of each group of equal keys as it was, with `x` first in its group. */
  lemma {:induction false} InsertStable<T(!new)>(x: T, s: seq<T>, key: T --> int, k: int)
    requires key.requires(x) && Keyed(s, key)
    ensures WithKey(Insert(x, s, key), key, k) == (if key(x) == k then [x] else []) + WithKey(s, key, k)
  {
    if s == [] || key(x) <= key(s[0]) {
      WithKeyCons(x, s, key, k);
    } else {
      KeyedTail(s, key);
      InsertStable(x, s[1..], key, k);
      InsertStablePast(x, s, key, k);
    }
  }

  /** The step of `InsertStable` where `x` moves past the first element of `s`. */
  lemma InsertStablePast<T(!new)>(x: T, s: seq<T>, key: T --> int, k: int)
    requires key.requires(x) && Keyed(s, key) && s != [] && key(s[0]) < key(x)
    requires Keyed(s[1..], key)
    requires WithKey(Insert(x, s[1..], key), key, k) == (if key(x) == k then [x] else []) + WithKey(s[1..], key, k)
    ensures WithKey(Insert(x, s, key), key, k) == (if key(x) == k then [x] else []) + WithKey(s, key, k)
  {
    var r := Insert(x, s[1..], key);
    assert Insert(x, s, key) == [s[0]] + r;
    WithKeyCons(s[0], r, key, k);
    var w := WithKey(s[1..], key, k);
    assert WithKey(s, key, k) == (if key(s[0]) == k then [s[0]] else []) + w;
    if key(x) == k {
      assert WithKey(r, key, k) == [x] + w;
    } else {
      assert WithKey(r, key, k) == w;
    }
  }

  /** The tail of a keyed sequence is keyed. */
  lemma KeyedTail<T>(s: seq<T>, key: T --> int)
    requires Keyed(s, key) && s != []
    ensures Keyed(s[1..], key)
  {
    forall y | y in s[1..] ensures key.requires(y) {
      var m :| 0 <= m < |s[1..]| && s[1..][m] == y;
      assert s[m + 1] == y;
    }
  }

  /** `WithKey` of a sequence with a known first element. */
  lemma WithKeyCons<T>(y: T, s: seq<T>, key: T --> int, k: int)
    requires key.requires(y) && Keyed(s, key)
    ensures Keyed([y] + s, key)
    ensures WithKey([y] + s, key, k) == (if key(y) == k then [y] else []) + WithKey(s, key, k)
  {
    assert ([y] + s)[1..] == s;
  }

  /** `sorted` is stable: elements with equal keys keep their input order. */
  lemma {:induction false} SortByStable<T(!new)>(xs: seq<T>, key: T --> int, k: int)
    requires Keyed(xs, key)
    ensures WithKey(SortBy(xs, key), key, k) == WithKey(xs, key, k)
  {
    if xs != [] {
      SortByStable(xs[1..], key, k);
      InsertStable(xs[0], SortBy(xs[1..], key), key, k);
    }
  }

  /** Keys strictly increase from left to right: no two elements share a key. */
  ghost predicate StrictlySortedBy<T>(s: seq<T>, key: T --> int)
    requires Keyed(s, key)
  {
    forall i, j :: 0 <= i < j < |s| ==> key(s[i]) < key(s[j])
  }

  /**
   * A sorted arrangement is determined by its elements when their keys are
   * distinct: any sorted permutation equals the strictly sorted one.
   */
  lemma {:induction false} SortedWithDistinctKeysIsUnique<T>(r: seq<T>, s: seq<T>, key: T --> int)
    requires Keyed(r, key) && Keyed(s, key)
    requires SortedBy(r, key) && StrictlySortedBy(s, key)
    requires multiset(r) == multiset(s)
    ensures r == s
    decreases |r|
  {
    if r == [] {
      assert |s| == |multiset(s)| == 0;
    } else {
      SortedHeadsAgree(r, s, key);
      var r', s' := r[1..], s[1..];
      SameTails(r, s);
      assert SortedBy(r', key) by {
        forall i, j | 0 <= i < j < |r'| ensures key(r'[i]) <= key(r'[j]) {
          assert r'[i] == r[i + 1] && r'[j] == r[j + 1];
        }
      }
      assert StrictlySortedBy(s', key) by {
        forall i, j | 0 <= i < j < |s'| ensures key(s'[i]) < key(s'[j]) {
          assert s'[i] == s[i + 1] && s'[j] == s[j + 1];
        }
      }
      SortedWithDistinctKeysIsUnique(r', s', key);
    }
  }

  /** Both arrangements start with the element of least key. */
  lemma SortedHeadsAgree<T>(r: seq<T>, s: seq<T>, key: T --> int)
    requires Keyed(r, key) && Keyed(s, key)
    requires SortedBy(r, key) && StrictlySortedBy(s, key)
    requires multiset(r) == multiset(s) && r != []
    ensures s != [] && r[0] == s[0]
  {
    assert r[0] in multiset(s);
    var m :| 0 <= m < |s| && s[m] == r[0];
    assert s[0] in multiset(r);
    var p :| 0 <= p < |r| && r[p] == s[0];
    assert key(r[0]) <= key(r[p]);
  }

  /** Sequences with the same elements and the same head have tails with the same elements. */
  lemma SameTails<T>(r: seq<T>, s: seq<T>)
    requires r != [] && s != [] && r[0] == s[0]
    requires multiset(r) == multiset(s)
    ensures multiset(r[1..]) == multiset(s[1..])
  {
    assert multiset(r) == multiset{r[0]} + multiset(r[1..]) by {
      assert r == [r[0]] + r[1..];
    }
    assert multiset(s) == multiset{s[0]} + multiset(s[1..]) by {
      assert s == [s[0]] + s[1..];
    }
    assert multiset(r[1..]) == multiset(r) - multiset{r[0]};
  }
}
