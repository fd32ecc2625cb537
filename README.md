# top_words: a verified model of a word-frequency ranker

`hello.py` reads a text file and prints its most frequent words. Its core is
`top_words(text, topk=10)`, a three-step pipeline:

1. **Tokenize.** Lower-case the text and collect every match of `\b\w+\b`.
   These matches are exactly the maximal runs of word characters, read from
   left to right.
2. **Count.** Build a `collections.Counter` of the tokens. It maps each
   distinct token to its number of occurrences and keeps the tokens in
   first-insertion order.
3. **Rank.** Return `most_common(topk)`. CPython computes it with
   `heapq.nlargest`. For `topk >= 0` the result equals that of the documented
   equivalent `sorted(items, key=count, reverse=True)[:topk]`, which the model
   uses. That sort is stable, so tokens with equal counts come out in
   first-occurrence order, including at the cut-off.

This project models each step as pure Dafny functions and proves the
pipeline's contract:

- the tokens are exactly the maximal word-character runs of the lower-cased text;
- every count is the true occurrence count;
- the result has the right length, is sorted by count with ties in first-occurrence order, and leaves out no token that ranks above a reported one (by count, then by first occurrence).

Modules, one per stage:

- `Tokenizer` (`tokenizer.dfy`): word characters, lower-casing, match spans, `findall`.
- `Counting` (`counting.dfy`): `Counter` as a `FrequencyTable` (a count map plus an insertion order), `items()` and `most_common(n)`.
- `Ranking` (`ranking.dfy`): the stable descending sort by count.
- `Hello` (`hello.dfy`): `top_words` and the end-to-end theorems.
- `Seqs` (`seqs.dfy`): sequence helpers: duplicate-freedom, first index, element sets.

A Dafny function is deterministic, so `Hello.TopWords` returns the same
result for the same text and `topk`. This holds by construction and needs
no lemma.

`hello.py` has no stopword filter, no segmentation mode for languages
without spaces, and no output file, so the model has none either.

## Model

| member | source | states |
|---|---|---|
| `Tokenizer.Lower` | hello.py:10 | lower-casing yields a character with no upper-case letter, keeps the word-character class, and leaves other characters unchanged |
| `Tokenizer.LowerStr` | hello.py:10 | `text.lower()` keeps the length, makes every character lower-case, and changes no character's word/non-word class |
| `Tokenizer.LowerFoldsCase` | hello.py:10 | two characters lower-case to the same character if and only if they are equal or are the upper- and lower-case forms of one ASCII letter |
| `Tokenizer.LowerStrFoldsCase` | hello.py:10 | two texts of equal length lower-case to the same text if and only if they differ position by position only in the case of letters |
| `Tokenizer.LowerStrKeepsLowerCase` | hello.py:10 | `lower()` leaves a text with no upper-case letter unchanged |
| `Tokenizer.RunEnd` | hello.py:10 | the greedy `\w+` starting at `i` extends over word characters only and stops at a non-word character or the end of the text |
| `Tokenizer.Spans` | hello.py:10 | the match positions of `\b\w+\b` are maximal runs of word characters, strictly left to right, with at least one separator between two matches |
| `Tokenizer.FindWords` | hello.py:10 | `re.findall` returns one word per match, each non-empty and made only of word characters of the text |
| `Tokenizer.FindWordsAt` | hello.py:10 | the `k`-th word `findall` returns is the text of the `k`-th match |
| `Tokenizer.Tokenize` | hello.py:10 | every token of `re.findall(r"\b\w+\b", text.lower())` is non-empty, lower-case, and made only of word characters, so no separator or punctuation appears in a token |
| `Tokenizer.SpansFrom` | hello.py:10 | every match found scanning from `i` is a non-empty range inside `[i, len(s)]` that starts at a word character |
| `Tokenizer.SpansFromMaximal` | hello.py:10 | every match is a maximal run of word characters |
| `Tokenizer.SpansFromOrdered` | hello.py:10 | matches are strictly increasing, with at least one separator between any two |
| `Tokenizer.SpansFromCover` | hello.py:10 | every word character at or after the scan start lies inside some match |
| `Tokenizer.SpansFromNone` | hello.py:10 | scanning a stretch with no word characters finds no match |
| `Tokenizer.SpansAreMaximalRuns` | hello.py:10 | a range is a match of `\b\w+\b` if and only if it is a maximal run of word characters |
| `Tokenizer.SpansPartition` | hello.py:10 | the matches do not overlap, and a character lies inside a match if and only if it is a word character |
| `Tokenizer.RunEndLower` | hello.py:10 | lower-casing the text does not move the end of any word-character run |
| `Tokenizer.SpansFromLower` | hello.py:10 | the lower-cased text has exactly the matches of the original text |
| `Tokenizer.TokenizeIsLoweredWords` | hello.py:10 | the tokens are the lower-cased words of the original text at the same places |
| `Tokenizer.SameTokenUpToCase` | hello.py:10 | two words of the text become the same token if and only if they differ only in the case of their letters |
| `Tokenizer.TokensAreLowered` | hello.py:10 | every token equals its own lower-casing |
| `Tokenizer.NoWordCharsNoTokens` | hello.py:10 | a text without word characters, including the empty text, has no tokens |
| `Counting.Add` | hello.py:11 | one counter update raises the word's count by one (a new word starts at 1), leaves every other count alone, appends a new word to the insertion order and otherwise keeps the order, which stays an exact, duplicate-free listing of the keys |
| `Counting.Count` | hello.py:11 | `Counter(words)` is a well-formed table: its order lists each key exactly once |
| `Counting.CountCounts` | hello.py:11 | the counter's keys are exactly the distinct words, and each count equals the word's multiplicity in the word sequence |
| `Counting.CountOrder` | hello.py:11 | the counter lists its words in strictly increasing order of first occurrence in the word sequence |
| `Counting.Items` | hello.py:11 | `items()` has one entry per key and no entry twice |
| `Counting.MostCommon` | hello.py:11 | `most_common(n)` returns `min(n, number of keys)` entries |
| `Counting.MostCommonItems` | hello.py:11 | `most_common(n)` is a prefix of the stable descending sort of `items()`, so every reported entry is an item of the counter |
| `Counting.MostCommonEntries` | hello.py:11 | `most_common(n)` reports pairwise distinct words, each with its count from the counter |
| `Counting.MostCommonOrdered` | hello.py:11 | `most_common(n)` has non-increasing counts, and entries with equal counts follow the counter's insertion order |
| `Counting.MostCommonSelection` | hello.py:11 | no word left out of `most_common(n)` has a larger count than any word it reports, and a left-out word with the same count as a reported one was inserted into the counter after it |
| `Ranking.InsertPos` | hello.py:11 | a new entry goes after every entry whose count is at least its own and before the first smaller one |
| `Ranking.Insert` | hello.py:11 | insertion adds exactly the one entry and keeps a non-increasing sequence non-increasing |
| `Ranking.SortByCountDesc` | hello.py:11 | the sort by count, descending, returns a permutation of its input with non-increasing counts |
| `Ranking.SortStable` | hello.py:11 | the sort is stable: entries with equal counts keep their input order |
| `Hello.TopWords` | hello.py:8-11 | `top_words` returns at most `topk` entries |
| `Hello.TopWordsLength` | hello.py:8-11 | the result has exactly `min(topk, number of distinct tokens)` entries |
| `Hello.TopWordsEntries` | hello.py:10-11 | each reported word is a lower-case, non-empty token made of word characters; no word is repeated; each count is the word's true number of occurrences among the tokens, hence at least 1 |
| `Hello.TopWordsOrdered` | hello.py:11 | counts never increase along the result, and tied words appear in order of first occurrence in the token sequence |
| `Hello.TopWordsSelection` | hello.py:10-11 | every token left out of the result occurs no more often than every word in the result, and a left-out token that occurs exactly as often as a reported word first occurs later in the token sequence |
| `Hello.TopWordsEmpty` | hello.py:10-11 | a text without word characters (the empty text included) gives an empty result, and `topk = 0` gives an empty result for any text |
| `Hello.TopWordsIgnoresCase` | hello.py:10 | a text and its lower-cased form give the same result |
| `Hello.TopWordsCaseVariants` | hello.py:10-11 | two texts that differ only in the case of their letters give the same result |

## Left out

- `main` (hello.py:14-30) is not modelled. It does argument parsing from `sys.argv`, the file-existence check, `sys.exit`, and the `print` loop of tab-separated lines; all of this is I/O and process control.
- Reading the file as UTF-8 with `errors="ignore"` (hello.py:26) is not modelled. The model starts from an already-decoded character sequence.
- Tokenizer.IsWordChar: word characters are the ASCII ones (letters, digits, `_`). Python's Unicode `\w` also matches accented letters and CJK characters; in the model those are separators.
- Tokenizer.Lower: lower-casing is ASCII-only and works character by character. Python's `str.lower` also maps non-ASCII letters and can change a string's length; the model does neither.
- Hello.TopWords: requires `topk >= 0`. A negative `topk` can reach the function through `int(sys.argv[2])` (hello.py:20) but is not a meaningful input, so the model does not cover it. (CPython's `heapq.nlargest` returns an empty list for it.)
- Counting.MostCommon: CPython computes `most_common(n)` with a heap (`heapq.nlargest`). The model uses that function's documented equivalent, a stable sort followed by a slice. Only the result is modelled, not the heap algorithm.
- The regular-expression engine is not modelled. `findall` of `\b\w+\b` is modelled by what it returns: the maximal word-character runs, left to right.
- Stopword filtering, the segmentation mode and writing to an output file are not modelled, because `hello.py` contains none of them.
