# Selecting and ordering words by key

This project models the exercise script `main.py`. The script applies Python's
`max` and `sorted` to a fixed list of nine words. Each exercise picks a key:

- `get_last_word_alphabetically`: `max(words)`.
- `get_longest_word`: `max(words, key=len)`.
- `get_shortest_word`: `max(words, key=lambda word: -len(word))`.
- `get_ordered_words`: `sorted(words, key=lambda word: WORD_ORDER[word])`, with a rank table.
- `get_first_word_alphabetically`: `max(words, key=reverse_lexical)`. The wrapper class `reverse_lexical` inverts `<`.
- `negate_string` is the commented-out first attempt at the last exercise. It maps a word to a tuple of negated character codes.

The model has four modules:

- `Orders` (`orders.dfy`) gives Python's `<` on integers, characters, strings and tuples. Strings and tuples share one definition, `Lex`. It compares at the first position where the two differ, and a proper prefix is smaller. The module proves that these orders are strict total orders.
- `Extrema` (`extrema.dfy`) defines `MaxBy` and `MinBy`, the left-to-right folds that `max` and `min` perform. The fold keeps the best element so far. `max` replaces it only when `less(key(best), key(item))`; `min` only when `less(key(item), key(best))`. So ties go to the first element, as main.py:72-78 assumes. CPython's `max` actually evaluates `key(item) > key(best)`. For `str` and `int` that is the same test. `reverse_lexical` defines only `__lt__`, so Python answers `>` with the reflected `key(best).__lt__(key(item))`, which is again the same test. Under a strict total order on keys, `MaxBy` returns exactly the first maximal element. Maximising under the converse comparison is `MinBy`.
- `Sorting` (`sorting.dfy`) defines `SortBy`, the behaviour of `sorted` with integer keys. It is written as a functional insertion sort. It is proved to give a permutation of its input, in non-decreasing key order, and stable. The module also proves that a list whose keys are all distinct has only one sorted arrangement.
- `Words` (`words.dfy`) holds the exercises. Each one instantiates `MaxBy` or `SortBy`. The lemmas there characterise each result and check the values that `main()` asserts on `WORDS`.

`get_ordered_words` looks up `WORD_ORDER[word]` for every word. A word missing from the table raises `KeyError`. The model returns `KeyError(w)` in that case. CPython computes all sort keys from left to right before sorting, so `w` is the leftmost unranked word. `WORD_ORDER` is local to the function in the source; here it is the module constant `Words.WORD_ORDER`.

## Model

| member | source | states |
|---|---|---|
| `Extrema.Id` | main.py:8 | the key `max` and `min` use when called without `key=`; no contract of its own (a helper) |
| `Orders.IntLess` | main.py:21-27 | Python's `<` on integers, used on lengths and negated lengths; no contract of its own; `Orders.IntLessIsStrictTotalOrder` shows it is a strict total order |
| `Orders.CharLess` | main.py:8 | Python's `<` on single characters, by code point; no contract of its own; used through `Orders.StrLess` |
| `Orders.Lex` | main.py:62-63 | Python's `<` on `str` and `tuple`: compare at the first differing position, and a proper prefix is smaller; no contract of its own; described by `Orders.LexIsStrictTotalOrder` and `Orders.LexProperPrefix` |
| `Orders.StrLess` | main.py:8 | Python's `<` on strings; no contract of its own; described by `Orders.StrLessIsStrictTotalOrder` |
| `Orders.TupleLess` | main.py:62-64 | Python's `<` on tuples of integers; no contract of its own; described by `Orders.TupleLessIsStrictTotalOrder` |
| `Extrema.MaxBy` | main.py:72-78 | `max` returns an element of the (non-empty) list |
| `Extrema.MaxByIsFirstMax` | main.py:72-78 | when keys are compared by a strict total order, `max` returns the element at some index `i`: no key in the list exceeds `key(xs[i])`, and every element before `i` has a strictly smaller key (ties go to the first) |
| `Extrema.MaxByIsOnlyFirstMax` | main.py:74 | any index with that first-maximum property is the element `max` returns, so the property determines the result |
| `Extrema.MinBy` | main.py:24-26 | `min` returns an element of the (non-empty) list |
| `Extrema.MaxByConverseIsMinBy` | main.py:72-78 | if comparing keys one way agrees with comparing other keys the other way round, `max` under the first picks the same element as `min` under the second |
| `Orders.LexIsStrictTotalOrder` | main.py:62-63 | position-by-position comparison of sequences is irreflexive, transitive and total whenever the element order is |
| `Orders.StrLessIsStrictTotalOrder` | main.py:8 | Python's string `<` is a strict total order |
| `Orders.TupleLessIsStrictTotalOrder` | main.py:62-64 | Python's `<` on tuples of integers is a strict total order |
| `Orders.LexProperPrefix` | main.py:97-100 | when the beginnings tie, the shorter sequence is the smaller one |
| `Sorting.Insert` | main.py:45 | inserting one element adds exactly that element and keeps a key-sorted list key-sorted |
| `Sorting.SortBy` | main.py:45 | `sorted` returns a permutation of its input whose keys never decrease |
| `Sorting.SortByStable` | main.py:45 | for every key value, the elements with that key appear in the output in their input order (stability) |
| `Sorting.SortedWithDistinctKeysIsUnique` | main.py:35-38 | when keys are distinct, any key-sorted permutation equals the strictly sorted one: a rank table fixes the order completely |
| `Words.LastWordAlphabetically` | main.py:7-9 | `get_last_word_alphabetically`, that is `max(words)`; its contract says only that the result is a word of the list; the full description is `Words.LastWordIsGreatest` |
| `Words.LastWordIsGreatest` | main.py:7-9 | the result is a word of the list and every other word of the list is smaller under string `<` |
| `Words.Len` | main.py:15 | the key `len`; no contract of its own |
| `Words.LongestWord` | main.py:12-16 | `get_longest_word`, that is `max(words, key=len)`; its contract says only that the result is a word of the list; the full description is `Words.LongestWordIsFirstLongest` |
| `Words.LongestWordIsFirstLongest` | main.py:12-16 | the result is at an index `i`; no word is longer, and every word before `i` is strictly shorter |
| `Words.NegatedLen` | main.py:27 | the key `lambda word: -len(word)`; no contract of its own |
| `Words.ShortestWord` | main.py:20-28 | `get_shortest_word`, that is `max(words, key=lambda word: -len(word))`; its contract says only that the result is a word of the list; the full description is `Words.ShortestWordIsFirstShortest` |
| `Words.ShortestWordIsFirstShortest` | main.py:20-28 | the result is at an index `i`; no word is shorter, and every word before `i` is strictly longer |
| `Words.ShortestWordPicksEmpty` | main.py:21-23 | if the empty string is in the list, the result is the empty string |
| `Words.ShortestWordIsMinByLen` | main.py:24-27 | maximising the negated length picks the same word as `min(words, key=len)`, on every list |
| `Words.Rank` | main.py:40-45 | the key `lambda word: WORD_ORDER[word]`, defined only on the words of the table `WORD_ORDER` (the constant `Words.WORD_ORDER`, ranks 0 to 8 as in the source); no contract of its own |
| `Words.OrderedWords` | main.py:34-46 | `get_ordered_words`: `Ordered(sorted list)` when every word is in the table, otherwise `KeyError(word)` (the datatype `Words.Ordering`); no contract of its own; the full description is `Words.OrderedWordsSorts` |
| `Words.FirstUnranked` | main.py:45 | for a list with a word outside the table, returns the index of the leftmost such word; every word before it is in the table |
| `Words.OrderedWordsSorts` | main.py:34-46 | the result is a sorted list exactly when every word is in `WORD_ORDER`; that list is a permutation of the input in non-decreasing rank; otherwise the `KeyError` names the leftmost word missing from the table |
| `Words.NegateString` | main.py:57-64 | the tuple has one component per character, and component `i` is `-ord(word[i])` |
| `Words.FirstWordByNegation` | main.py:102 | the commented-out `max(words, key=negate_string)`; its contract says only that the result is a word of the list; `Words.FirstWordByNegationWithoutPrefixes` and `Words.NegationFailsWhenLeastIsPrefix` say when it agrees with `get_first_word_alphabetically` and when it does not |
| `Words.NegateStringReversesOrder` | main.py:55-64 | when neither word is a proper prefix of the other, the negated tuples compare in the reverse of the string order (both directions) |
| `Words.NegateStringKeepsPrefixOrder` | main.py:66-70 | when one word is a proper prefix of another, the shorter one is smaller both as a string and as a negated tuple, so negation does not reverse that pair |
| `Words.FirstWordByNegationFailsOnPrefix` | main.py:66-70 | on `["a", "abc"]`, `max(words, key=negate_string)` gives `"abc"`, while `get_first_word_alphabetically` gives `"a"` |
| `Words.FirstWordByNegationWithoutPrefixes` | main.py:94-102 | when no word of the list is a proper prefix of another, `max(words, key=negate_string)` gives the same word as `get_first_word_alphabetically` |
| `Words.NegationFailsWhenLeastIsPrefix` | main.py:66-70 | whenever a word of the list has the alphabetically first word as a proper prefix, `max(words, key=negate_string)` returns a different word from `get_first_word_alphabetically` |
| `Words.ReverseLexicalLess` | main.py:85-91 | `reverse_lexical.__lt__`: compares the two stored words the other way round; no contract of its own; described by `Words.ReverseLexicalIsReversedOrder` |
| `Words.Wrap` | main.py:79-83 | the key `reverse_lexical`, called as a constructor: it builds the value `Words.ReverseLexical(word)`, which only stores the word; no contract of its own |
| `Words.FirstWordAlphabetically` | main.py:93-107 | `get_first_word_alphabetically`, that is `max(words, key=reverse_lexical)`; its contract says only that the result is a word of the list; the full description is `Words.FirstWordIsLeast` |
| `Words.ReverseLexicalIsReversedOrder` | main.py:79-91 | `reverse_lexical(a) < reverse_lexical(b)` exactly when `b < a`, and the wrapper's `<` is a strict total order |
| `Words.FirstWordIsLeast` | main.py:93-107 | the result is a word of the list and it is smaller under string `<` than every other word of the list |
| `Words.FirstWordIsMin` | main.py:48-50 | maximising under `reverse_lexical` picks the same word as `min(words)`, on every list |
| `Words.LastWordOfWords` | main.py:118 | on `WORDS` the last word alphabetically is `"the"` |
| `Words.LongestWordOfWords` | main.py:120 | on `WORDS` the longest word is `"laziest"` |
| `Words.ShortestWordOfWords` | main.py:122 | on `WORDS` the shortest word is `"a"` |
| `Words.OrderedWordsOfWords` | main.py:126-129 | on `WORDS` the ordered words are `a quick brown fox jumps over the laziest dog` |
| `Words.FirstWordOfWords` | main.py:133 | on `WORDS` the first word alphabetically is `"a"` |

## Left out

- `max` and `min` on an empty list raise `ValueError`. The model does not include that error; `MaxBy`, `MinBy` and the exercises require a non-empty list instead.
- `main()`'s `print` calls, its assertion-driven exit status and the `__name__ == "__main__"` guard (main.py:117-139) are left out because they are I/O. Only the asserted values are kept, as the `...OfWords` lemmas.
- The commented-out `functools.cmp_to_key` variant (main.py:113-115) is not modelled. It is dead code and relies on a library adapter.
- Characters are Dafny `char` values compared by code point. Python strings can also hold lone surrogate code points, which Dafny's `char` excludes.
- `sorted` is modelled by the ordering it guarantees (a stable, ascending permutation), not by CPython's Timsort. `SortBy` takes integer keys only, because the rank table is the only key `sorted` is used with.
- `WORD_ORDER` is rebuilt on every call in the source. The model defines it once, because it is never changed.
