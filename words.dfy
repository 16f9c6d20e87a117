/**
 * The exercises of main.py: each selects a word from a list, or orders the
 * list, with Python's `max` or `sorted` and a chosen key.
 */
module Words {
  import opened Orders
  import opened Extrema
  import opened Sorting

  /** The jumbled sentence every exercise runs on. */
  const WORDS: seq<string> := ["jumps", "laziest", "brown", "a", "quick", "fox", "the", "dog", "over"]

  // ---------------------------------------------------------------------------
  // get_last_word_alphabetically: max(words)

  /** `get_last_word_alphabetically(words)`: `max(words)`. */
  function LastWordAlphabetically(words: seq<string>): (r: string)
    requires |words| > 0
    ensures r in words
  {
    MaxBy(words, Id, StrLess)
  }

  /** The result is a word of the list, and every other word of the list comes before it. */
  lemma LastWordIsGreatest(words: seq<string>)
    requires |words| > 0
    ensures LastWordAlphabetically(words) in words
    ensures forall w :: w in words ==> w == LastWordAlphabetically(words) || StrLess(w, LastWordAlphabetically(words))
  {
    StrLessIsStrictTotalOrder();
    var i := MaxByIsFirstMax(words, Id, StrLess);
  }

  // ---------------------------------------------------------------------------
  // get_longest_word: max(words, key=len)

  /** Python's `len` on a string. */
  function Len(word: string): int {
    |word|
  }

  /** `get_longest_word(words)`: `max(words, key=len)`. */
  function LongestWord(words: seq<string>): (r: string)
    requires |words| > 0
    ensures r in words
  {
    MaxBy(words, Len, IntLess)
  }

  /** The result is the first word of maximal length: no word is longer, and every word before it is shorter. */
  lemma LongestWordIsFirstLongest(words: seq<string>) returns (i: nat)
    requires |words| > 0
    ensures i < |words| && words[i] == LongestWord(words)
    ensures forall j :: 0 <= j < |words| ==> |words[j]| <= |words[i]|
    ensures forall j :: 0 <= j < i ==> |words[j]| < |words[i]|
  {
    IntLessIsStrictTotalOrder();
    i := MaxByIsFirstMax(words, Len, IntLess);
  }

  // ---------------------------------------------------------------------------
  // get_shortest_word: max(words, key=lambda word: -len(word))

  /** The key `lambda word: -len(word)`. */
  function NegatedLen(word: string): int {
    -|word|
  }

  /** `get_shortest_word(words)`: the longest word under negated length. */
  function ShortestWord(words: seq<string>): (r: string)
    requires |words| > 0
    ensures r in words
  {
    MaxBy(words, NegatedLen, IntLess)
  }

  /** The result is the first word of minimal length: no word is shorter, and every word before it is longer. */
  lemma ShortestWordIsFirstShortest(words: seq<string>) returns (i: nat)
    requires |words| > 0
    ensures i < |words| && words[i] == ShortestWord(words)
    ensures forall j :: 0 <= j < |words| ==> |words[i]| <= |words[j]|
    ensures forall j :: 0 <= j < i ==> |words[i]| < |words[j]|
  {
    IntLessIsStrictTotalOrder();
    i := MaxByIsFirstMax(words, NegatedLen, IntLess);
  }

  /** When the empty string is in the list, its negated length 0 is the largest key, so it is returned. */
  lemma ShortestWordPicksEmpty(words: seq<string>)
    requires "" in words
    ensures ShortestWord(words) == ""
  {
    var i := ShortestWordIsFirstShortest(words);
    var j :| 0 <= j < |words| && words[j] == "";
    assert |words[i]| <= |words[j]|;
  }

  /** Maximising the negated length is `min(words, key=len)`. */
  lemma ShortestWordIsMinByLen(words: seq<string>)
    requires |words| > 0
    ensures ShortestWord(words) == MinBy(words, Len, IntLess)
  {
    MaxByConverseIsMinBy(words, NegatedLen, IntLess, Len, IntLess);
  }

  // ---------------------------------------------------------------------------
  // get_ordered_words: sorted(words, key=lambda word: WORD_ORDER[word])

  /** The rank of each word of the sentence "a quick brown fox jumps over the laziest dog". */
  const WORD_ORDER: map<string, int> := map[
    "a" := 0, "quick" := 1, "brown" := 2, "fox" := 3,
    "jumps" := 4, "over" := 5, "the" := 6, "laziest" := 7, "dog" := 8
  ]

  /** The key `lambda word: WORD_ORDER[word]`, defined only on the words of the table. */
  function Rank(word: string): int
    requires word in WORD_ORDER
  {
    WORD_ORDER[word]
  }

  /** What `get_ordered_words` yields: the sorted list, or the `KeyError` raised for a word missing from the table. */
  datatype Ordering = Ordered(words: seq<string>) | KeyError(key: string)

  /** `sorted` computes the keys from left to right before sorting, so the first missing word raises. */
  function FirstUnranked(words: seq<string>): (i: nat)
    requires exists w :: w in words && w !in WORD_ORDER
    ensures i < |words| && words[i] !in WORD_ORDER
    ensures forall j :: 0 <= j < i ==> words[j] in WORD_ORDER
  {
    if words[0] !in WORD_ORDER then 0
    else
      assert exists w :: w in words[1..] && w !in WORD_ORDER by {
        var w :| w in words && w !in WORD_ORDER;
        var k :| 0 <= k < |words| && words[k] == w;
        assert words[1..][k - 1] == w;
      }
      1 + FirstUnranked(words[1..])
  }

  /** `get_ordered_words(words)`. */
  function OrderedWords(words: seq<string>): Ordering
  {
    if forall w :: w in words ==> w in WORD_ORDER then
      Ordered(SortBy(words, Rank))
    else
      KeyError(words[FirstUnranked(words)])
  }

  /**
   * With every word in the table the result is a permutation of the input in
   * non-decreasing rank; otherwise the error names the first word, from the
   * left, that the table lacks.
   */
  lemma OrderedWordsSorts(words: seq<string>)
    ensures OrderedWords(words).Ordered? <==> forall w :: w in words ==> w in WORD_ORDER
    ensures OrderedWords(words).Ordered? ==>
      && multiset(OrderedWords(words).words) == multiset(words)
      && Keyed(OrderedWords(words).words, Rank)
      && SortedBy(OrderedWords(words).words, Rank)
    ensures OrderedWords(words).KeyError? ==>
      exists i :: 0 <= i < |words| && words[i] == OrderedWords(words).key && words[i] !in WORD_ORDER
        && forall j :: 0 <= j < i ==> words[j] in WORD_ORDER
  {
    if !OrderedWords(words).Ordered? {
      var i := FirstUnranked(words);
      assert words[i] == OrderedWords(words).key;
    }
  }

  // ---------------------------------------------------------------------------
  // negate_string and the failed attempt max(words, key=negate_string)

  /**
   * `tuple(-ord(c) for c in word)`. The ensures clauses only expose this
   * definition to callers; what negation does to the order is stated by
   * `NegateStringReversesOrder` and `NegateStringKeepsPrefixOrder`.
   */
  function NegateString(word: string): (r: seq<int>)
    ensures |r| == |word|
    ensures forall i :: 0 <= i < |word| ==> r[i] == -(word[i] as int)
  {
    seq(|word|, i requires 0 <= i < |word| => -(word[i] as int))
  }

  /** The commented-out `max(words, key=negate_string)`. */
  function FirstWordByNegation(words: seq<string>): (r: string)
    requires |words| > 0
    ensures r in words
  {
    MaxBy(words, NegateString, TupleLess)
  }

  /** When neither word is a proper prefix of the other, negating reverses the string order. */
  lemma {:induction false} NegateStringReversesOrder(a: string, b: string)
    requires !(a < b) && !(b < a)
    ensures TupleLess(NegateString(a), NegateString(b)) <==> StrLess(b, a)
    decreases |a|
  {
    var na, nb := NegateString(a), NegateString(b);
    if a != [] && b != [] {
      assert na[1..] == NegateString(a[1..]);
      assert nb[1..] == NegateString(b[1..]);
      if a[0] == b[0] {
        assert !(a[1..] < b[1..]) && !(b[1..] < a[1..]);
        NegateStringReversesOrder(a[1..], b[1..]);
      }
    }
  }

  /** When `a` is a proper prefix of `b`, negating keeps `a` below `b`: the order is not reversed. */
  lemma NegateStringKeepsPrefixOrder(a: string, b: string)
    requires a < b
    ensures TupleLess(NegateString(a), NegateString(b))
    ensures StrLess(a, b)
  {
    assert NegateString(a) < NegateString(b);
    LexProperPrefix(NegateString(a), NegateString(b), IntLess);
    LexProperPrefix(a, b, CharLess);
  }

  /** The failure the comments describe: on ["a", "abc"] the negated-string key picks "abc", not "a". */
  lemma FirstWordByNegationFailsOnPrefix()
    ensures FirstWordByNegation(["a", "abc"]) == "abc"
    ensures FirstWordAlphabetically(["a", "abc"]) == "a"
  {
    NegateStringKeepsPrefixOrder("a", "abc");
  }

  /** Without a word that is a proper prefix of another, the negated-string key does find the first word. */
  lemma FirstWordByNegationWithoutPrefixes(words: seq<string>)
    requires |words| > 0
    requires forall a, b :: a in words && b in words ==> !(a < b)
    ensures FirstWordByNegation(words) == FirstWordAlphabetically(words)
  {
    forall a, b | a in words && b in words
      ensures TupleLess(NegateString(a), NegateString(b)) == StrLess(Id(b), Id(a))
    {
      NegateStringReversesOrder(a, b);
    }
    MaxByConverseIsMinBy(words, NegateString, TupleLess, Id, StrLess);
    FirstWordIsMin(words);
  }

  /**
   * The failure in general: when some word of the list extends the
   * alphabetically first word, the negated-string key does not pick that
   * first word.
   */
  lemma NegationFailsWhenLeastIsPrefix(words: seq<string>, w: string)
    requires |words| > 0 && w in words
    requires FirstWordAlphabetically(words) < w
    ensures FirstWordByNegation(words) != FirstWordAlphabetically(words)
  {
    TupleLessIsStrictTotalOrder();
    var i := MaxByIsFirstMax(words, NegateString, TupleLess);
    NegateStringKeepsPrefixOrder(FirstWordAlphabetically(words), w);
    var j :| 0 <= j < |words| && words[j] == w;
  }

  // ---------------------------------------------------------------------------
  // reverse_lexical and get_first_word_alphabetically: max(words, key=reverse_lexical)

  /** `reverse_lexical(word)`: a wrapper that stores the word. */
  datatype ReverseLexical = ReverseLexical(word: string)

  /** `reverse_lexical.__lt__(self, other)`: compares the stored words the other way round. */
  function ReverseLexicalLess(self: ReverseLexical, other: ReverseLexical): bool {
    StrLess(other.word, self.word)
  }

  /**
   * The wrapper's `<` is exactly the converse of string order, and a strict
   * total order in its own right. The first clause only restates
   * `ReverseLexicalLess` on wrapped words; the second is the property.
   */
  lemma ReverseLexicalIsReversedOrder()
    ensures forall a, b :: ReverseLexicalLess(ReverseLexical(a), ReverseLexical(b)) <==> StrLess(b, a)
    ensures StrictTotalOrder(ReverseLexicalLess)
  {
    StrLessIsStrictTotalOrder();
  }

  /** The key `reverse_lexical`, called as a constructor on each word. */
  function Wrap(word: string): ReverseLexical {
    ReverseLexical(word)
  }

  /** `get_first_word_alphabetically(words)`: `max(words, key=reverse_lexical)`. */
  function FirstWordAlphabetically(words: seq<string>): (r: string)
    requires |words| > 0
    ensures r in words
  {
    MaxBy(words, Wrap, ReverseLexicalLess)
  }

  /** The result is a word of the list, and it comes before every other word of the list. */
  lemma FirstWordIsLeast(words: seq<string>)
    requires |words| > 0
    ensures FirstWordAlphabetically(words) in words
    ensures forall w :: w in words ==> w == FirstWordAlphabetically(words) || StrLess(FirstWordAlphabetically(words), w)
  {
    ReverseLexicalIsReversedOrder();
    StrLessIsStrictTotalOrder();
    var i := MaxByIsFirstMax(words, Wrap, ReverseLexicalLess);
  }

  /** Maximising under the reversed comparison is `min(words)`. */
  lemma FirstWordIsMin(words: seq<string>)
    requires |words| > 0
    ensures FirstWordAlphabetically(words) == MinBy(words, Id, StrLess)
  {
    MaxByConverseIsMinBy(words, Wrap, ReverseLexicalLess, Id, StrLess);
  }

  // ---------------------------------------------------------------------------
  // The expected values main() asserts on WORDS.

  /** `get_last_word_alphabetically(WORDS) == "the"`. */
  lemma LastWordOfWords()
    ensures LastWordAlphabetically(WORDS) == "the"
  {
    StrLessIsStrictTotalOrder();
    MaxByIsOnlyFirstMax(WORDS, Id, StrLess, 6);
  }

  /** `get_longest_word(WORDS) == "laziest"`. */
  lemma LongestWordOfWords()
    ensures LongestWord(WORDS) == "laziest"
  {
    IntLessIsStrictTotalOrder();
    MaxByIsOnlyFirstMax(WORDS, Len, IntLess, 1);
  }

  /** `get_shortest_word(WORDS) == "a"`. */
  lemma ShortestWordOfWords()
    ensures ShortestWord(WORDS) == "a"
  {
    IntLessIsStrictTotalOrder();
    MaxByIsOnlyFirstMax(WORDS, NegatedLen, IntLess, 3);
  }

  /** The sentence in the order the rank table gives. */
  const SENTENCE: seq<string> := ["a", "quick", "brown", "fox", "jumps", "over", "the", "laziest", "dog"]

  lemma WordsAreRanked()
    ensures forall w :: w in WORDS ==> w in WORD_ORDER
  {
  }

  /** A nine-element sequence is the concatenation of its one-element slices. */
  lemma Singletons<T>(a: T, b: T, c: T, d: T, e: T, f: T, g: T, h: T, i: T)
    ensures [a, b, c, d, e, f, g, h, i] == [a] + [b] + [c] + [d] + [e] + [f] + [g] + [h] + [i]
  {
  }

  /** Moving the elements of WORDS to their places in SENTENCE keeps the multiset. */
  lemma Rearranged<T>(a: T, b: T, c: T, d: T, e: T, f: T, g: T, h: T, i: T)
    ensures multiset([a] + [b] + [c] + [d] + [e] + [f] + [g] + [h] + [i])
         == multiset([d] + [e] + [c] + [f] + [a] + [i] + [g] + [b] + [h])
  {
  }

  /** SENTENCE holds the words of WORDS, each once. */
  lemma SentenceRearrangesWords()
    ensures multiset(WORDS) == multiset(SENTENCE)
  {
    Singletons("jumps", "laziest", "brown", "a", "quick", "fox", "the", "dog", "over");
    Singletons("a", "quick", "brown", "fox", "jumps", "over", "the", "laziest", "dog");
    Rearranged("jumps", "laziest", "brown", "a", "quick", "fox", "the", "dog", "over");
  }

  /** The ranks along SENTENCE are 0 to 8. */
  lemma SentenceIsInRankOrder()
    ensures Keyed(SENTENCE, Rank) && StrictlySortedBy(SENTENCE, Rank)
  {
    assert forall i :: 0 <= i < |SENTENCE| ==> SENTENCE[i] in WORD_ORDER && Rank(SENTENCE[i]) == i;
  }

  /** `get_ordered_words(WORDS)` is the sentence in order. */
  lemma OrderedWordsOfWords()
    ensures OrderedWords(WORDS) == Ordered(SENTENCE)
  {
    WordsAreRanked();
    SentenceRearrangesWords();
    SentenceIsInRankOrder();
    SortedWithDistinctKeysIsUnique(SortBy(WORDS, Rank), SENTENCE, Rank);
  }

  /** `get_first_word_alphabetically(WORDS) == "a"`. */
  lemma FirstWordOfWords()
    ensures FirstWordAlphabetically(WORDS) == "a"
  {
    ReverseLexicalIsReversedOrder();
    MaxByIsOnlyFirstMax(WORDS, Wrap, ReverseLexicalLess, 3);
  }
}
