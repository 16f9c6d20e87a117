/**
 * Orderings used by Python's comparison operators on the values main.py
 * compares: integers (lengths), characters, and the lexicographic order that
 * Python applies to both `str` and `tuple`.
 */
module Orders {

  /** A strict total order: irreflexive, transitive, and relating any two distinct values. */
  ghost predicate StrictTotalOrder<K(!new)>(less: (K, K) -> bool) {
    && (forall a :: !less(a, a))
    && (forall a, b, c :: less(a, b) && less(b, c) ==> less(a, c))
    && (forall a, b :: a != b ==> less(a, b) || less(b, a))
  }

  /** Python's `<` on integers. */
  function IntLess(x: int, y: int): bool {
    x < y
  }

  /** Python's `<` on one-character strings: comparison of code points. */
  function CharLess(x: char, y: char): bool {
    x < y
  }

  /**
   * Python's `<` on sequences (`str` and `tuple` alike): find the first
   * position where the two differ and compare the elements there with `lt`;
   * when one is a prefix of the other, the shorter one is smaller.
   */
  function Lex<T(==)>(a: seq<T>, b: seq<T>, lt: (T, T) -> bool): bool
    decreases |a|
  {
    if b == [] then false
    else if a == [] then true
    else if a[0] == b[0] then Lex(a[1..], b[1..], lt)
    else lt(a[0], b[0])
  }

  /** Python's `<` on strings. */
  function StrLess(a: string, b: string): bool {
    Lex(a, b, CharLess)
  }

  /** Python's `<` on tuples of integers. */
  function TupleLess(a: seq<int>, b: seq<int>): bool {
    Lex(a, b, IntLess)
  }

  lemma IntLessIsStrictTotalOrder()
    ensures StrictTotalOrder(IntLess)
  {
  }

  lemma CharLessIsStrictTotalOrder()
    ensures StrictTotalOrder(CharLess)
  {
  }

  lemma {:induction false} LexIrreflexive<T(!new)>(a: seq<T>, lt: (T, T) -> bool)
    ensures !Lex(a, a, lt)
    decreases |a|
  {
    if a != [] {
      LexIrreflexive(a[1..], lt);
    }
  }

  lemma {:induction false} LexTransitive<T(!new)>(a: seq<T>, b: seq<T>, c: seq<T>, lt: (T, T) -> bool)
    requires StrictTotalOrder(lt)
    requires Lex(a, b, lt) && Lex(b, c, lt)
    ensures Lex(a, c, lt)
    decreases |a|
  {
    if a != [] {
      assert b != [] && c != [];
      if a[0] == b[0] && b[0] == c[0] {
        LexTransitive(a[1..], b[1..], c[1..], lt);
      } else if a[0] != b[0] && b[0] != c[0] {
        assert lt(a[0], b[0]) && lt(b[0], c[0]);
      }
    }
  }

  lemma {:induction false} LexConnected<T(!new)>(a: seq<T>, b: seq<T>, lt: (T, T) -> bool)
    requires StrictTotalOrder(lt)
    requires a != b
    ensures Lex(a, b, lt) || Lex(b, a, lt)
    decreases |a|
  {
    if a != [] && b != [] && a[0] == b[0] {
      assert a == [a[0]] + a[1..] && b == [b[0]] + b[1..];
      LexConnected(a[1..], b[1..], lt);
    }
  }

  /** Lexicographic comparison inherits a strict total order from the element order. */
  lemma LexIsStrictTotalOrder<T(!new)>(lt: (T, T) -> bool)
    requires StrictTotalOrder(lt)
    ensures forall a :: !Lex(a, a, lt)
    ensures forall a, b, c :: Lex(a, b, lt) && Lex(b, c, lt) ==> Lex(a, c, lt)
    ensures forall a, b :: a != b ==> Lex(a, b, lt) || Lex(b, a, lt)
  {
    forall a: seq<T> {
      LexIrreflexive(a, lt);
    }
    forall a: seq<T>, b: seq<T>, c: seq<T> | Lex(a, b, lt) && Lex(b, c, lt)
      ensures Lex(a, c, lt)
    {
      LexTransitive(a, b, c, lt);
    }
    forall a: seq<T>, b: seq<T> | a != b
      ensures Lex(a, b, lt) || Lex(b, a, lt)
    {
      LexConnected(a, b, lt);
    }
  }

  /** Python's string order is a strict total order. */
  lemma StrLessIsStrictTotalOrder()
    ensures StrictTotalOrder(StrLess)
  {
    CharLessIsStrictTotalOrder();
    LexIsStrictTotalOrder(CharLess);
  }

  /** Python's order on tuples of integers is a strict total order. */
  lemma TupleLessIsStrictTotalOrder()
    ensures StrictTotalOrder(TupleLess)
  {
    IntLessIsStrictTotalOrder();
    LexIsStrictTotalOrder(IntLess);
  }

  /** A proper prefix is smaller than the sequence it begins. */
  lemma {:induction false} LexProperPrefix<T(!new)>(a: seq<T>, b: seq<T>, lt: (T, T) -> bool)
    requires a < b
    ensures Lex(a, b, lt)
    decreases |a|
  {
    if a != [] {
      assert a[1..] < b[1..];
      LexProperPrefix(a[1..], b[1..], lt);
    }
  }
}
