# Word-frequency coverage engine

A Dafny model of the word-frequency and coverage engine shared by two Python
scripts:

- `extract_sight_words.py` finds the "sight words" of a text. It lower-cases
  the text and takes its maximal runs of word characters. It counts them with
  a `Counter` and ranks the counts, highest first. It then walks the ranking,
  adding up the percentage of all occurrences covered, and stops right after
  the first word whose cumulative percentage reaches a target.
- `russian_analyzer.py` (`RussianTextAnalyzer`) does the same for Russian
  text, in a different way:
  - `clean_text` strips ASCII punctuation, collapses whitespace and
    lower-cases;
  - `get_words` keeps the tokens that hold a letter;
  - an optional stop-word filter drops surface forms and an optional
    lemmatiser replaces words by their base forms;
  - `calculate_coverage` reports what the top N ranked words cover;
  - `count_syllables` is a vowel count;
  - two smaller passes count part-of-speech tags and collect the surface
    forms of the most common base forms.

How the model is laid out:

- `results.dfy`: `Option` and `Result`. The `ZeroDivision` case of `Result`
  stands for Python's `ZeroDivisionError`.
- `chars.dfy`: the character classes the scripts use and `str.lower` on one
  character:
  - the regex class `\w`;
  - `str.isalpha`;
  - the `str.split()` whitespace set;
  - `string.punctuation`.
- `strings.dfy`: lower-casing a string, maximal runs of a class (both
  `re.findall(r'\b\w+\b', ...)` and `str.split()`), `' '.join`, filtering and
  counting.
- `counting.dfy`: a `Counter` as a sequence of `(key, count)` entries with
  distinct keys in first-seen order. This is the order of an
  insertion-ordered dict. It also holds `counter[k] += 1`, `Counter(words)`,
  `sum(counter.values())` and exact shares `part / total`.
- `ranking.dfy`: `sorted(items, key=count, reverse=True)` and
  `Counter.most_common()`. Both are one stable sort, here an insertion sort:
  highest count first, ties in first-seen order.
- `sight_words.dfy`: `process_text`, the counting in `main`,
  `get_cumulative_frequencies` and `get_words_up_to_percentage`. The last two
  are methods with the loops of the source.
- `russian_analyzer.dfy`: the analyzer and its passes. Two of them are
  methods with the loops of the source: the part-of-speech pass and the
  lemma-forms loop of `analyze_text`.
- `coverage_modes.dfy`: the two coverage walks related to each other, and a
  worked example.

The morphological analyzer `pymorphy2` is outside the model. It is two
deterministic oracle functions, `lemmaOf` and `posOf`, held as fields of the
`Analyzer` value. Percentages and shares are exact rationals, not floats.

### Edge cases

- A zero total raises `ZeroDivisionError`, because every division is
  unguarded:
  - `calculate_coverage` raises as soon as the counts add up to zero, even
    for an empty table;
  - `analyze_text` therefore raises for a text that has no word left after
    stop words are dropped;
  - `get_cumulative_frequencies` raises when the total is zero and there is
    at least one entry; an empty counter gives an empty dict.

  The model returns `ZeroDivision` in exactly these cases.
- A target percentage `<= 0` still returns one entry:
  `get_words_up_to_percentage` appends the first ranked word before it tests
  the target. `SightWords.WordsUpToPercentage` states this.
- `\w` keeps tokens made only of digits or underscores: `process_text`
  returns them, and they are counted like any other word.

## Model

| member | source | states |
|---|---|---|
| Chars.Lower | russian_analyzer.py:44 | lower-casing one character gives a character that is not upper case; only upper-case letters change; letters, word characters, whitespace and punctuation stay in their class |
| Strings.Runs | extract_sight_words.py:34 | `Runs` is both `re.findall(r'\b\w+\b', ...)` and `str.split()`: every token it returns is a non-empty run of the class; `RunsLower` and `SplitJoin` depend on the runs being maximal and in text order |
| Strings.LowerStrIsLowercase | russian_analyzer.py:44 | `LowerStr` (`str.lower`): every character of the lower-cased string is lower case |
| Strings.LowerSingleSpaced | russian_analyzer.py:44 | lower-casing a single-spaced string keeps it single-spaced |
| Strings.JoinKeeps | russian_analyzer.py:44 | `Join` (`' '.join`): a class that holds the space and every character of every part holds every character of the joined string |
| Strings.RunsLower | extract_sight_words.py:32-34 | for a class that lower-casing preserves, the runs of the lower-cased text are the lower-cased runs of the text |
| Strings.SplitJoin | russian_analyzer.py:44 | `' '.join(parts).split()` gives back `parts` when every part is a non-empty run of non-whitespace |
| Strings.JoinSingleSpaced | russian_analyzer.py:44 | `' '.join(text.split())` neither starts nor ends with whitespace, holds no whitespace but plain spaces, and never two in a row |
| Strings.FilterMultiset | russian_analyzer.py:67 | a comprehension filter keeps each accepted element exactly as often as it occurs and drops every other one |
| Strings.CountWherePositions | russian_analyzer.py:61 | counting the elements that pass a test counts the positions holding one |
| SightWords.ProcessText | extract_sight_words.py:29-35 | every token is a non-empty run of word characters and is lower case |
| SightWords.ProcessTextLowersTokens | extract_sight_words.py:32-34 | the tokens are the maximal word-character runs of the original text, in text order, each lower-cased: lower-casing first moves no word boundary |
| Counting.TotalConcat | extract_sight_words.py:53 | `Total` (`sum(word_counts.values())`): the total of two counters' items side by side is the sum of their totals |
| Counting.LookupMember | extract_sight_words.py:58 | `Lookup` (`word_counts[word]`) of an item's own key, in a counter with distinct keys, is that item's count |
| Counting.LookupAbsent | russian_analyzer.py:100 | `Lookup` of a key that no item has is 0, the count `Counter` assumes for a missing key before `+= 1` |
| Counting.Increment | russian_analyzer.py:100 | `counter[k] += 1` adds one to the count of `k` and to no other; an existing key keeps its place and a new key is appended with count 1; positive counts stay positive |
| Counting.Count | extract_sight_words.py:86 | `Counter(words)` has distinct keys and positive counts; each key's count is its number of occurrences; the keys are exactly the distinct words, in the order of their first occurrence |
| Counting.CountTotals | extract_sight_words.py:87-88 | the counts add up to the number of words; the counter's size is the number of distinct words, which is at most the number of words |
| SightWords.CountText | extract_sight_words.py:85-88 | the counter of the tokens, with the number of tokens as total and the number of distinct tokens as size |
| Ranking.Rank | russian_analyzer.py:70 | `most_common()` and `sorted(..., reverse=True)` keep the number of items; the order is stated by `RankSortedPermutation` and `RankStable` |
| Ranking.RankSortedPermutation | extract_sight_words.py:40 | the ranking is a permutation of the counter's items whose counts never increase |
| Ranking.RankStable | extract_sight_words.py:40 | the sort is stable: items of equal count keep the counter's order, and keys stay distinct |
| Ranking.RankTotal | extract_sight_words.py:40 | ranking keeps the sum of the counts |
| Ranking.RankLookup | russian_analyzer.py:70 | `most_common()` of a counter is a counter with the same count for every key |
| Ranking.RankTiesFirstSeen | extract_sight_words.py:40 | in the ranking of `Counter(words)`, words of equal count appear in the order in which they first occur in `words` |
| SightWords.Put | extract_sight_words.py:47 | assigning a new key of an insertion-ordered dict appends the pair at the end |
| SightWords.CumulativeCurve | extract_sight_words.py:43-47 | the curve has one point per ranked item, and point `k` is keyed by the word of item `k`, in ranking order; its values are given by `CurveAt` |
| SightWords.CurveAt | extract_sight_words.py:43-47 | the curve's point `i` is 100 times the sum of the first `i + 1` counts over the total |
| SightWords.CurveExtend | extract_sight_words.py:45-47 | one more loop step, with a key not seen before, extends the curve by that item's point |
| SightWords.CurveNonDecreasing | extract_sight_words.py:45-47 | cumulative percentages never decrease along the ranking |
| SightWords.CurveEndsAt100 | extract_sight_words.py:53-54 | against the sum of the counts, every point lies within 0..100 and the last one is exactly 100 |
| SightWords.RankedCurveBounds | extract_sight_words.py:53-54 | the curve of a ranked counter, against its own total, stays within 0..100 |
| SightWords.CumulativeFrequencies | extract_sight_words.py:37-49 | the loop builds the curve of the stable ranking, in ranking order; a zero total with at least one item divides by zero, and an empty counter gives an empty dict without dividing |
| SightWords.TakeUntilTarget | extract_sight_words.py:56-62 | the loop takes a prefix of the curve with each word's own count; every entry but the last is below the target; the last reaches it unless everything was taken; a non-empty curve gives a non-empty result |
| SightWords.WordsUpToPercentage | extract_sight_words.py:51-62 | a prefix of the ranked curve with each word's count; every entry but the last is below the target; the last reaches it or the whole ranking was taken; a non-empty counter gives at least one entry, exactly one for a target `<= 0`, and all of them for a target above 100; a zero total over a non-empty counter divides by zero |
| RussianAnalyzer.NewAnalyzer | russian_analyzer.py:14-21 | the analyzer's vowels are small Cyrillic letters and its stop words are non-empty and lower case, so both can match lower-cased text; the morphological oracles are the ones given |
| RussianAnalyzer.StripPunctuation | russian_analyzer.py:43 | exactly the characters of the text that are not punctuation remain, and the text gets no longer |
| RussianAnalyzer.CleanText | russian_analyzer.py:41-44 | the cleaned text holds no punctuation character, neither starts nor ends with whitespace, separates words by single plain spaces and is lower case |
| RussianAnalyzer.CleanTextTokens | russian_analyzer.py:43-44 | the tokens of the cleaned text are the lower-cased whitespace-separated tokens of the punctuation-free text, in order |
| RussianAnalyzer.GetWords | russian_analyzer.py:46-49 | a string is a word exactly when it is a token of the cleaned text and holds a letter; there are no more words than tokens |
| RussianAnalyzer.GetWordsTokens | russian_analyzer.py:46-49 | the words are, in order, the lower-cased whitespace-separated tokens of the punctuation-free text that hold a letter; each is non-empty, lower case and free of whitespace and punctuation |
| RussianAnalyzer.CountSyllables | russian_analyzer.py:59-61 | the syllable count is at most the word's length |
| RussianAnalyzer.CountSyllablesPositions | russian_analyzer.py:59-61 | the syllable count is the number of positions whose lower-cased letter is in the vowel set; the empty word has none |
| RussianAnalyzer.TotalSyllables | russian_analyzer.py:117 | the syllables of all words add up to at most their total length |
| RussianAnalyzer.Kept | russian_analyzer.py:66-67 | a word is kept exactly when it occurs and is not a stop word being dropped; no more words are kept than given |
| RussianAnalyzer.Keys | russian_analyzer.py:68-69 | there is one key per kept word, in place: its base form when lemmatising, the word itself otherwise |
| RussianAnalyzer.WordFrequency | russian_analyzer.py:63-70 | the frequency table has no more entries than there are words left after dropping stop words; its ranking and counts are stated by `WordFrequencyRanked` |
| RussianAnalyzer.KeptOccurrences | russian_analyzer.py:66-67 | dropping stop words keeps every other word exactly as often as it occurs and no stop word at all |
| RussianAnalyzer.WordFrequencyRanked | russian_analyzer.py:63-70 | the frequency table has distinct keys and positive counts, ranked highest first with ties in first-seen key order; it is a permutation of the counter and counts every key as often as it occurs; its counts add up to the number of words left after dropping stop words |
| RussianAnalyzer.WordFrequencySurfaceCounts | russian_analyzer.py:65-70 | without lemmatising, each word that is not a dropped stop word is counted as often as it occurs in the text, and a dropped stop word not at all |
| RussianAnalyzer.StopwordLemmaStillCounted | russian_analyzer.py:66-69 | stop words are dropped on their surface form before lemmatising, so a non-stop word whose base form is a stop word still gets that base form counted |
| RussianAnalyzer.CalculateCoverage | russian_analyzer.py:72-90 | divides by zero exactly when the counts add up to zero, an empty table included; otherwise it reports the target, the table's size and the total |
| RussianAnalyzer.FractionOfPrefix | russian_analyzer.py:86-88 | the share covered by a prefix grows with the prefix and stays within 0..1 |
| RussianAnalyzer.CoverageCurve | russian_analyzer.py:86-89 | the curve has `min(target_words, len)` points; point `i` is `(i + 1, share covered by the first i + 1 items)`; the shares never decrease and stay within 0..1 |
| RussianAnalyzer.CoverageAchieved | russian_analyzer.py:74-83 | the coverage achieved lies within 0..1; it equals the last curve point when the target is at least 1 and the table is not empty; it is 0 for a target of 0; it is 1 once the target reaches the table's size |
| RussianAnalyzer.Tags | russian_analyzer.py:97-100 | the accepted tags, one per word at most, in word order: there are no more tags than words |
| RussianAnalyzer.TagsOccurrences | russian_analyzer.py:97-100 | a non-empty tag is kept once for every word the oracle gives that tag; the empty tag is never kept |
| RussianAnalyzer.TagOccurrencesArePositions | russian_analyzer.py:97-100 | the number of times a non-empty tag is kept is the number of word positions carrying that tag |
| RussianAnalyzer.PosCounts | russian_analyzer.py:92-102 | the distribution counts, for every non-empty tag, the words with that tag; it is a counter ranked highest first and its counts add up to at most the number of words |
| RussianAnalyzer.PosDistribution | russian_analyzer.py:92-102 | the loop builds the ranked counter of the accepted tags; each tag's count is its number of words, the empty tag counts nothing, and the counts add up to at most the number of words |
| RussianAnalyzer.CommonLemmaForms | russian_analyzer.py:124-131 | the map has the common base forms as keys; under each base form it lists exactly the words of the text with that base form |
| RussianAnalyzer.AnalyzeText | russian_analyzer.py:104-145 | divides by zero exactly when no word is left after stop words are dropped; otherwise it reports the word count, the distinct words (no more than the words), the syllable total, the top 100 base forms with their word forms, the tag distribution and the coverage of the top 100 |
| CoverageModes.SharesArePercentages | russian_analyzer.py:86-88 | point by point, the share curve of `calculate_coverage` is the percentage curve of `get_cumulative_frequencies` divided by 100, and so is the coverage after N items against the N-th percentage |
| CoverageModes.StopModesAgree | russian_analyzer.py:78-83 | on a ranked counter, the coverage after the top N items, times 100, is the cumulative percentage the stop-at-target walk reaches at its N-th item |
| CoverageModes.ExampleRank | extract_sight_words.py:40 | the counter `{a: 2, b: 1, c: 3}` ranks as `c, a, b` |
| CoverageModes.ExampleCoverage | russian_analyzer.py:72-90 | of the ranking `c: 3, a: 2, b: 1`, the top two words cover 1/2 and then 5/6 of the text |

## Left out

- Reading input: `read_epub`, `read_text_file` and `extract_text_from_epub`. These are EPUB, HTML and file I/O built on ebooklib, BeautifulSoup and html2text.
- Writing output: `save_results_to_csv` and `save_analysis_to_file`. These are file output and string formatting.
- Both `main` functions: argument parsing, path checks and printing. The counting that `extract_sight_words.main` does at extract_sight_words.py:85-88 is `SightWords.CountText`.
- The morphological analyzer (`pymorphy2.MorphAnalyzer`, `get_lemma`, `get_pos`): it is a foreign library. It appears only as the deterministic oracles `lemmaOf` and `posOf`.
- The float-valued statistics of `analyze_text`: average word length, average syllables, vocabulary richness and their `round(..., 2)`. `RussianAnalyzer.Analysis` holds only the integer-valued and structural results.
- `longest_words` in `analyze_text`: it sorts a Python `set`, so equal lengths come out in hash-iteration order.
- Floating point: percentages and shares are exact rationals. A float rounding that puts a cumulative percentage just below or above the target is not captured.
- Unicode: the character classes cover ASCII and U+0400..U+045F, the first 96 code points of the Cyrillic block U+0400..U+04FF. Every other character counts as neither a letter nor a digit, and lower-casing leaves it unchanged. So the model drops characters that Python's `\w` keeps: accented Latin letters (`café` gives the token `caf` in the model and `café` in `process_text`), the Cyrillic letters from U+0460 on (such as ґ, U+0491) and non-ASCII digits. It also treats as no letter what `str.isalpha` accepts there. Whitespace is the full set `str.split()` uses.
- Negative `target_words` in `calculate_coverage`: it is a natural number, so Python's slicing from the end for negative values is not modelled.
- The order of the word-form lists under `lemma_forms`: `list(word_forms)` comes from a set, so the model keeps the set.
- The `dict(...)` around the ranked tag pairs in `get_pos_distribution`: the model keeps the ranked sequence of entries, which has the same order and contents.
