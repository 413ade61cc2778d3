# Word statistics of a text, modelled in Dafny

Two Python scripts read a text file and print a small report about it: the
total number of words, the number of distinct words, the five most frequent
words with their counts, and how many words have at least four characters.
`text_analyzer.py` does this with library calls (`str.lower().split()`,
`collections.Counter`, a list comprehension, `Counter.most_common`);
`unpythonic_analyzer_refactored.py` does the same with a hand-written
counting loop over a dict and `sorted(..., reverse=True)[:5]`.

This project models the pipeline between reading the file and printing the
report:

- `chars.dfy` (module `Chars`): the character classes Python uses, on ASCII:
  whitespace as `str.split()` sees it and `str.lower()`.
- `tokens.dfy` (module `Tokens`): `str.split()` without a separator, with
  its laws: tokens are non-empty and whitespace-free, concatenated they give
  the text without its whitespace, a whitespace character splits the text into
  two independently split halves, and splitting undoes `" ".join`.
- `frequencies.dfy` (module `Frequencies`): the frequency table. A Python
  dict keeps its keys in insertion order, and that order decides how tied
  words are reported, so a table is its key order plus its word-to-count map.
- `ranking.dfy` (module `Ranking`): the stable sort by count, highest first,
  and the `[:n]` slice. It proves that the sort is stable and non-increasing.
  It also proves that no other order has both properties, so the definition is
  pinned down by what Python's sort promises.
- `text_analyzer.dfy` (module `TextAnalyzer`): `tokenize`, `count_words`,
  `find_long_words`, `top_n`, the figures of `print_report` and the
  `analyze_text` pipeline, all as functions. The source's functions are
  single expressions.
- `unpythonic.dfy` (module `UnpythonicAnalyzer`): the hand-written variant.
  The dict-filling loop is a method with a loop invariant. `analyze_text` is a
  method, and it is proved to produce exactly the report of the
  library-based variant.

The text of the file is a parameter. A report is the record
`Report(totalWords, uniqueWords, mostFrequent, longWordCount)` of what
would be printed.

Ties in the top-N list are reported in the order in which the tied words
first occur in the text. This follows from the code: a `Counter` and a dict
keep first-insertion order, `sorted` is stable also with `reverse=True`, and
`heapq.nlargest`, which `most_common(n)` calls, is documented to equal
`sorted(..., reverse=True)[:n]` for positive `n`. Neither script gives a secondary sort key,
so the tie order can look incidental. The model follows the code and proves
the order (`TextAnalyzer.TopNTiesInFirstOccurrenceOrder`).

## Model

| member | source | states |
|---|---|---|
| `Chars.SpaceCharacters` | text_analyzer.py:30 | `Chars.IsSpace`, the whitespace test of `split()`: the characters `split()` separates at are exactly tab, line feed, vertical tab, form feed, carriage return, the four separators U+001C-U+001F and space |
| `Chars.ToLower` | text_analyzer.py:30 | `lower()` on one character: a capital `A`-`Z` becomes the small letter at the same alphabet position, every other character is unchanged, and whitespace stays whitespace |
| `Chars.Lower` | text_analyzer.py:30 | `text.lower()` keeps the length, maps each character on its own, and leaves no upper-case letter |
| `Tokens.Split` | text_analyzer.py:30 | every piece `split()` returns is non-empty and whitespace-free, and every character of a piece comes from the text |
| `Tokens.SplitConcat` | text_analyzer.py:30 | joining the pieces with nothing between them gives the text with all whitespace removed, so no character is lost or reordered |
| `Tokens.SplitEmptyIffBlank` | text_analyzer.py:30 | `split()` returns no piece exactly when the text is empty or all whitespace |
| `Tokens.SplitAtSpace` | text_analyzer.py:30 | a whitespace character separates: `split(a + c + b) == split(a) + split(b)` |
| `Tokens.SplitJoin` | text_analyzer.py:30 | round trip: `" ".join(ws).split() == ws` for whitespace-free, non-empty words |
| `TextAnalyzer.Tokenize` | text_analyzer.py:23-30 | tokens are non-empty, whitespace-free and lowercase; concatenated they equal the lowered text without whitespace; the list is empty exactly for blank text |
| `TextAnalyzer.TokenizeJoin` | text_analyzer.py:30 | lowercase words written out with single spaces tokenize back to themselves |
| `TextAnalyzer.TokenizeSample` | text_analyzer.py:23-30 | "The cat. the CAT" gives the four tokens "the", "cat.", "the", "cat" (capitals lowered, punctuation stays attached, so "cat." and "cat" are different words) |
| `TextAnalyzer.WordCounts` | text_analyzer.py:37 | the tally pass of `Counter(tokens)`: its keys are exactly the tokens and each count is the word's number of occurrences, at least one |
| `TextAnalyzer.CountWords` | text_analyzer.py:33-37 | the table is a valid dict, its keys are exactly the distinct tokens, and each key's count is its number of occurrences (at least one) |
| `Frequencies.MultisetCountsOccurrences` | text_analyzer.py:37 | the multiset `Counter` is built from counts each word exactly as often as it occurs in the token list |
| `Frequencies.FirstOccurrences` | text_analyzer.py:37 | the key order of the counter lists every token once, with no repeats, and is no longer than the token list |
| `Frequencies.FirstOccurrencesOrdered` | text_analyzer.py:37 | keys are ordered by the position of their first occurrence in the tokens |
| `Frequencies.FirstOccurrencesAllIffDistinct` | text_analyzer.py:63-64 | the key list is as long as the token list exactly when no token repeats, and then it is the token list |
| `Frequencies.TableSize` | text_analyzer.py:64 | `len(freqs)` equals the number of keys in insertion order |
| `Frequencies.Items` | unpythonic_analyzer_refactored.py:27 | `dict.items()`: one entry per key, in key insertion order, each pairing the key with its count, no key twice |
| `Frequencies.InItems` | unpythonic_analyzer_refactored.py:27 | an entry of `dict.items()` is exactly a key paired with its count |
| `TextAnalyzer.CountWordsSnoc` | unpythonic_analyzer_refactored.py:15-18 | one more token raises an existing word's count by exactly one, or appends a new word with count one; no other key changes |
| `Frequencies.SumAfterStep` | unpythonic_analyzer_refactored.py:15-18 | one increment-or-insert step adds exactly one to the sum of the counts |
| `TextAnalyzer.CountsSumToLength` | text_analyzer.py:37 | the counts add up to `len(tokens)` |
| `TextAnalyzer.UniqueAtMostTotal` | text_analyzer.py:63-64 | the unique-word count is at most the total, with equality exactly when all tokens are distinct |
| `TextAnalyzer.FindLongWords` | text_analyzer.py:40-45 | the result is an order-preserving subsequence of the tokens, no longer than them; every kept word has length at least `min_length`; each word of length at least `min_length` is kept as often as it occurs, shorter ones never |
| `UnpythonicAnalyzer.LongerThan` | unpythonic_analyzer_refactored.py:21 | `[w for w in my_list if len(w) > 3]`: no longer than the input, every kept word longer than `k`, each such word kept as often as it occurs, shorter ones never |
| `UnpythonicAnalyzer.LongerThanIsFindLongWords` | unpythonic_analyzer_refactored.py:21 | `[w for w in tokens if len(w) > k]` is exactly `find_long_words(tokens, k + 1)`, so the `> 3` filter and the `>= 4` filter agree |
| `Ranking.SortByCount` | unpythonic_analyzer_refactored.py:27 | the sorted items have non-increasing counts and are a permutation of the input |
| `Ranking.SortStable` | unpythonic_analyzer_refactored.py:27 | stability: every group of entries with equal count comes out in its input order |
| `Ranking.SortUnique` | unpythonic_analyzer_refactored.py:27 | any non-increasing arrangement that keeps each tie group in input order is the sort's result |
| `Ranking.Take` | unpythonic_analyzer_refactored.py:27 | `s[:n]` is a prefix of `s` of length `min(n, len(s))` |
| `Ranking.TopOfSorted` | text_analyzer.py:52 | the first `n` of the sorted entries: length `min(n, len)`, non-increasing, drawn from the input, each at least as frequent as every entry left out, each tie group a prefix of its input order |
| `Ranking.TiesKeepInputOrder` | text_analyzer.py:52 | tied entries of such a prefix appear in the order they have in the input |
| `TextAnalyzer.TopN` | text_analyzer.py:48-52 | `most_common(n)` has length `min(n, len(freqs))` (none for `n <= 0`), non-increasing counts, only entries of the table, dominates every entry it leaves out, and lists each tie group as a prefix of the table's order |
| `TextAnalyzer.TopNTiesInFirstOccurrenceOrder` | text_analyzer.py:52 | words with equal counts in `top_n` appear in the order of their first occurrence in the tokens |
| `TextAnalyzer.ReportFigures` | text_analyzer.py:55-68 | the report shows `len(tokens)`, `len(freqs)` and `len(long_words)`, and at most five pairs, each an entry of `freqs` |
| `TextAnalyzer.AnalyzeText` | text_analyzer.py:71-79 | unique words are at most total words, equal exactly when tokens are distinct; long words are at most total words; the top list has `min(5, unique)` entries; blank text gives zero words, zero unique words, an empty top list and zero long words |
| `UnpythonicAnalyzer.CountByHand` | unpythonic_analyzer_refactored.py:12-18 | the loop builds the same dict, in the same key order, as `Counter(tokens)`; keys are exactly the tokens, each count is the word's number of occurrences, counts sum to `len(my_list)`; its invariant says this of every processed prefix |
| `UnpythonicAnalyzer.AnalyzeText` | unpythonic_analyzer_refactored.py:3-31 | the hand-written variant produces exactly the report of the library-based `analyze_text` on the same text |

## Left out

- Reading the file (`read_text`, and `open` in the other script): I/O,
  UTF-8 decoding and its errors. The model starts from the text.
- Printing: the label strings and line layout of the report (including the
  two long-word labels, "≥ 4 characters" and "more that 3 characters").
  Only the printed numbers and pairs are modelled.
- The module-level entry points that analyse `sample.txt`.
- Non-ASCII whitespace and non-ASCII case mapping: `Chars.IsSpace` and
  `Chars.ToLower` cover the ASCII range exactly as Python treats it. Python's
  `str.split()` also splits on Unicode spaces such as U+00A0 and U+3000, and
  `str.lower()` maps non-ASCII capitals, sometimes to two characters. These
  come from Python's Unicode tables, which are not part of this model.
- How `Counter` and `most_common` work inside (hash table, heap): only their
  results are modelled. For `n > 0`, `TextAnalyzer.TopN` is the stable sort
  followed by the slice, which is what `heapq.nlargest` is documented to
  return. For `n <= 0` it is the empty list, which is what `heapq.nlargest`
  returns; its documented slice equivalent `[:n]` would instead drop the last
  `-n` entries when `n` is negative.
- A worked example for counting and ranking is not included. Only the
  tokenizer has one (`TextAnalyzer.TokenizeSample`).
