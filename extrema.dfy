/**
 * Python's built-in `max(xs, key=key)` and `min(xs, key=key)` on a non-empty
 * list, as left-to-right folds that keep a current best element and replace it
 * only when the key comparison is strict. Ties therefore go to the element met
 * first.
 */
module Extrema {
  import opened Orders

  /** The key Python uses when `max` or `min` is called without `key=`. */
  function Id<T>(x: T): T {
    x
  }

  /**
   * `max(xs, key=key)`: the best so far is replaced by the next item exactly
   * when `less(key(best), key(item))`.
   */
  function MaxBy<T, K>(xs: seq<T>, key: T -> K, less: (K, K) -> bool): (r: T)
    requires |xs| > 0
    ensures r in xs
  {
    if |xs| == 1 then xs[0]
    else
      var best := MaxBy(xs[..|xs| - 1], key, less);
      var item := xs[|xs| - 1];
      if less(key(best), key(item)) then item else best
  }

  /**
   * `min(xs, key=key)`: the best so far is replaced by the next item exactly
   * when `less(key(item), key(best))`.
   */
  function MinBy<T, K>(xs: seq<T>, key: T -> K, less: (K, K) -> bool): (r: T)
    requires |xs| > 0
    ensures r in xs
  {
    if |xs| == 1 then xs[0]
    else
      var best := MinBy(xs[..|xs| - 1], key, less);
      var item := xs[|xs| - 1];
      if less(key(item), key(best)) then item else best
  }

  /** Index `i` holds the first element whose key nothing in `xs` exceeds. */
  ghost predicate IsFirstMax<T, K>(xs: seq<T>, key: T -> K, less: (K, K) -> bool, i: nat) {
    && i < |xs|
    && (forall j :: 0 <= j < |xs| ==> !less(key(xs[i]), key(xs[j])))
    && (forall j :: 0 <= j < i ==> less(key(xs[j]), key(xs[i])))
  }

  /** Under a strict total order on keys, `MaxBy` returns the first maximal element. */
  lemma {:induction false} MaxByIsFirstMax<T, K(!new)>(xs: seq<T>, key: T -> K, less: (K, K) -> bool) returns (i: nat)
    requires |xs| > 0
    requires StrictTotalOrder(less)
    ensures IsFirstMax(xs, key, less, i)
    ensures MaxBy(xs, key, less) == xs[i]
    decreases |xs|
  {
    if |xs| == 1 {
      i := 0;
    } else {
      var n := |xs| - 1;
      var prefix := xs[..n];
      var k := MaxByIsFirstMax(prefix, key, less);
      assert forall j :: 0 <= j < n ==> xs[j] == prefix[j];
      if less(key(xs[k]), key(xs[n])) {
        i := n;
        forall j | 0 <= j < n
          ensures less(key(xs[j]), key(xs[n]))
        {
          if key(xs[j]) != key(xs[k]) {
            assert less(key(xs[j]), key(xs[k]));
          }
        }
      } else {
        i := k;
      }
    }
  }

  /** The first maximal element is unique, so it determines what `MaxBy` returns. */
  lemma MaxByIsOnlyFirstMax<T, K(!new)>(xs: seq<T>, key: T -> K, less: (K, K) -> bool, i: nat)
    requires StrictTotalOrder(less)
    requires IsFirstMax(xs, key, less, i)
    ensures MaxBy(xs, key, less) == xs[i]
  {
    var k := MaxByIsFirstMax(xs, key, less);
  }

  /**
   * Maximising under one comparison is minimising under its converse: when
   * comparing keys with `less` agrees with comparing the other keys the other
   * way round, `max` and `min` pick the same element.
   */
  lemma {:induction false} MaxByConverseIsMinBy<T, K, L>(
    xs: seq<T>, key: T -> K, less: (K, K) -> bool, key': T -> L, less': (L, L) -> bool)
    requires |xs| > 0
    requires forall x, y :: x in xs && y in xs ==> less(key(x), key(y)) == less'(key'(y), key'(x))
    ensures MaxBy(xs, key, less) == MinBy(xs, key', less')
    decreases |xs|
  {
    if |xs| > 1 {
      var prefix := xs[..|xs| - 1];
      assert forall x :: x in prefix ==> x in xs;
      MaxByConverseIsMinBy(prefix, key, less, key', less');
    }
  }
}
