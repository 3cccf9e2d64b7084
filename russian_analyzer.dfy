/**
 * `RussianTextAnalyzer`: clean a text, keep its words that hold a letter,
 * count them (optionally dropping stop words and replacing each word by its
 * base form), rank the counts, and report how much of the text the top N
 * ranked words cover.  Two smaller passes count part-of-speech tags and
 * collect the surface forms of the most common base forms.
 */
module RussianAnalyzer {
  import opened Chars
  import opened Strings
  import opened Counting
  import opened Ranking
  import opened Results

  /**
   * The analyzer's configuration, fixed when it is built: the vowel set, the
   * stop-word set, and the morphological analyzer seen as two deterministic
   * oracles, one giving a word's base form and one its part-of-speech tag
   * (`None` when it has none).
   */
  datatype Analyzer = Analyzer(
    vowels: set<char>,
    stopwords: set<string>,
    lemmaOf: string -> string,
    posOf: string -> Option<string>)

  /** The ten Russian vowel letters. */
  const RussianVowels: set<char> := {'а', 'е', 'ё', 'и', 'о', 'у', 'ы', 'э', 'ю', 'я'}

  /** The one stop word the analyzer drops. */
  const RussianStopwords: set<string> := {"ее"}

  /**
   * `RussianTextAnalyzer()` over a given morphological analyzer.  Its vowels
   * are small Cyrillic letters and its stop words are non-empty and lower
   * case, so both can match the lower-cased text they are compared with.
   */
  function NewAnalyzer(lemmaOf: string -> string, posOf: string -> Option<string>): (a: Analyzer)
    ensures forall c :: c in a.vowels ==> IsCyrillicLower(c) && IsLowercase(c)
    ensures forall w :: w in a.stopwords ==> |w| > 0 && All(IsLowercase, w)
    ensures a.lemmaOf == lemmaOf && a.posOf == posOf
  {
    Analyzer(RussianVowels, RussianStopwords, lemmaOf, posOf)
  }

  // ---------------------------------------------------------------------
  // clean_text and get_words
  // ---------------------------------------------------------------------

  /**
   * `''.join(char for char in text if char not in punctuation)`: exactly the
   * characters of the text that are not punctuation remain.
   */
  function StripPunctuation(text: string): (stripped: string)
    ensures |stripped| <= |text|
    ensures forall c :: c in stripped <==> c in text && !IsPunctuation(c)
  {
    Filter(NotPunctuation, text)
  }

  /**
   * `clean_text`: punctuation removed, `' '.join(text.split())`, then
   * lower-cased.  The result holds no punctuation, neither starts nor ends
   * with whitespace, separates its words by single plain spaces and is
   * lower case.
   */
  function CleanText(text: string): (clean: string)
    ensures NoneOf(IsPunctuation, clean)
    ensures SingleSpaced(clean)
    ensures All(IsLowercase, clean)
  {
    var stripped := StripPunctuation(text);
    CleanedShape(stripped);
    LowerStr(Join(Runs(NotSpace, stripped)))
  }

  /** Splitting, joining and lower-casing a punctuation-free string gives the shape of `clean_text`. */
  lemma CleanedShape(stripped: string)
    requires forall c :: c in stripped ==> !IsPunctuation(c)
    ensures NoneOf(IsPunctuation, LowerStr(Join(Runs(NotSpace, stripped))))
    ensures SingleSpaced(LowerStr(Join(Runs(NotSpace, stripped))))
    ensures All(IsLowercase, LowerStr(Join(Runs(NotSpace, stripped))))
  {
    forall i | 0 <= i < |stripped| ensures NotPunctuation(stripped[i]) {
      assert stripped[i] in stripped;
    }
    var parts := Runs(NotSpace, stripped);
    RunsKeep(NotSpace, NotPunctuation, stripped);
    JoinKeeps(NotPunctuation, parts);
    JoinSingleSpaced(parts);
    var joined := Join(parts);
    LowerSingleSpaced(joined);
    LowerStrIsLowercase(joined);
    var r := LowerStr(joined);
    forall i | 0 <= i < |r| ensures !IsPunctuation(r[i]) {
      assert NotPunctuation(joined[i]);
    }
  }

  /**
   * Splitting the cleaned text gives back the whitespace-separated tokens of
   * the punctuation-free text, in order, each lower-cased.
   */
  lemma CleanTextTokens(text: string)
    ensures Runs(NotSpace, CleanText(text)) == Map(LowerStr, Runs(NotSpace, StripPunctuation(text)))
  {
    var parts := Runs(NotSpace, StripPunctuation(text));
    SplitJoin(parts);
    RunsLower(NotSpace, Join(parts));
  }

  /** `any(c.isalpha() for c in word)`. */
  predicate HasAlpha(word: string) {
    exists i :: 0 <= i < |word| && IsAlpha(word[i])
  }

  /** `get_words`: the tokens of the cleaned text that hold at least one letter. */
  function GetWords(text: string): (words: seq<string>)
    ensures |words| <= |Runs(NotSpace, CleanText(text))|
    ensures forall w :: w in words <==> w in Runs(NotSpace, CleanText(text)) && HasAlpha(w)
  {
    Filter(HasAlpha, Runs(NotSpace, CleanText(text)))
  }

  /**
   * The words are, in order, the lower-cased whitespace-separated tokens of
   * the punctuation-free text that hold a letter, and every word is a
   * non-empty, lower-case string without whitespace or punctuation.
   */
  lemma GetWordsTokens(text: string)
    ensures GetWords(text) == Filter(HasAlpha, Map(LowerStr, Runs(NotSpace, StripPunctuation(text))))
    ensures forall w :: w in GetWords(text) ==>
      IsRun(NotSpace, w) && NoneOf(IsPunctuation, w) && All(IsLowercase, w)
  {
    CleanTextTokens(text);
    var clean := CleanText(text);
    var tokens := Runs(NotSpace, clean);
    assert All(NotPunctuation, clean);
    RunsKeep(NotSpace, NotPunctuation, clean);
    RunsKeep(NotSpace, IsLowercase, clean);
    forall w | w in GetWords(text)
      ensures IsRun(NotSpace, w) && NoneOf(IsPunctuation, w) && All(IsLowercase, w)
    {
      var k :| 0 <= k < |tokens| && tokens[k] == w;
      assert All(NotPunctuation, tokens[k]);
    }
  }

  // ---------------------------------------------------------------------
  // count_syllables
  // ---------------------------------------------------------------------

  /** Membership in a vowel set, as a character test. */
  function VowelTest(vowels: set<char>): char -> bool {
    c => c in vowels
  }

  /** `count_syllables`: the letters of the lower-cased word that are vowels. */
  function CountSyllables(a: Analyzer, word: string): (n: nat)
    ensures n <= |word|
  {
    CountWhere(VowelTest(a.vowels), LowerStr(word))
  }

  /**
   * The syllable count is the number of positions of the word whose
   * lower-cased letter is a vowel; the empty word has none.
   */
  lemma CountSyllablesPositions(a: Analyzer, word: string)
    ensures CountSyllables(a, word) == |set i: nat | i < |word| && Lower(word[i]) in a.vowels|
    ensures CountSyllables(a, word) <= |word|
    ensures word == "" ==> CountSyllables(a, word) == 0
  {
    var l := LowerStr(word);
    CountWherePositions(VowelTest(a.vowels), l);
    assert Positions(VowelTest(a.vowels), l) == set i: nat | i < |word| && Lower(word[i]) in a.vowels;
  }

  // ---------------------------------------------------------------------
  // get_word_frequency
  // ---------------------------------------------------------------------

  /**
   * The words left for counting: stop words dropped on their surface form
   * when asked to.  A word is kept exactly when it occurs and is not a
   * dropped stop word.
   */
  function Kept(a: Analyzer, words: seq<string>, excludeStopwords: bool): (kept: seq<string>)
    ensures |kept| <= |words|
    ensures forall w :: w in kept <==> w in words && !(excludeStopwords && w in a.stopwords)
  {
    if excludeStopwords then Filter(w => w !in a.stopwords, words) else words
  }

  /** The counted keys: the kept words, each replaced by its base form when asked to, in place. */
  function Keys(a: Analyzer, words: seq<string>, excludeStopwords: bool, useLemmas: bool): (keys: seq<string>)
    ensures |keys| == |Kept(a, words, excludeStopwords)|
    ensures forall i :: 0 <= i < |keys| ==>
      keys[i] == if useLemmas then a.lemmaOf(Kept(a, words, excludeStopwords)[i]) else Kept(a, words, excludeStopwords)[i]
  {
    var kept := Kept(a, words, excludeStopwords);
    if useLemmas then Map(a.lemmaOf, kept) else kept
  }

  /**
   * `get_word_frequency`: `Counter(keys).most_common()`.  The table has no
   * more entries than there are words left after dropping stop words.
   */
  function WordFrequency(a: Analyzer, text: string, excludeStopwords: bool, useLemmas: bool): (table: seq<Entry>)
    ensures |table| <= |Kept(a, GetWords(text), excludeStopwords)|
  {
    var keys := Keys(a, GetWords(text), excludeStopwords, useLemmas);
    CountTotals(keys);
    Rank(Count(keys))
  }

  /**
   * Dropping stop words keeps every other word exactly as often as it
   * occurs, and no stop word at all.
   */
  lemma KeptOccurrences(a: Analyzer, words: seq<string>, excludeStopwords: bool)
    ensures forall w :: multiset(Kept(a, words, excludeStopwords))[w] ==
                       if excludeStopwords && w in a.stopwords then 0 else multiset(words)[w]
  {
    if excludeStopwords {
      FilterMultiset(w => w !in a.stopwords, words);
    }
  }

  /**
   * The frequency table is a counter ranked by count, highest first, with
   * ties in the order in which their keys first occur; it counts every key as
   * often as it occurs among the keys, and its counts add up to the number of
   * words kept after dropping stop words.
   */
  lemma WordFrequencyRanked(a: Analyzer, text: string, excludeStopwords: bool, useLemmas: bool)
    ensures var keys, r := Keys(a, GetWords(text), excludeStopwords, useLemmas), WordFrequency(a, text, excludeStopwords, useLemmas);
      && IsCounter(r) && NonIncreasing(r)
      && multiset(r) == multiset(Count(keys))
      && (forall k :: Lookup(r, k) == multiset(keys)[k])
      && (forall i, j :: 0 <= i < j < |r| && r[i].count == r[j].count ==>
            FirstIndex(keys, r[i].key) < FirstIndex(keys, r[j].key))
      && Total(r) == |Kept(a, GetWords(text), excludeStopwords)|
  {
    var keys := Keys(a, GetWords(text), excludeStopwords, useLemmas);
    var c := Count(keys);
    RankSortedPermutation(c);
    RankLookup(c);
    RankTiesFirstSeen(keys);
    RankTotal(c);
    CountTotals(keys);
  }

  /**
   * Without lemmatising, each word of the text that is not a stop word is
   * counted as often as it occurs, and a dropped stop word is not counted.
   */
  lemma WordFrequencySurfaceCounts(a: Analyzer, text: string, excludeStopwords: bool, w: string)
    ensures Lookup(WordFrequency(a, text, excludeStopwords, false), w) ==
      if excludeStopwords && w in a.stopwords then 0 else multiset(GetWords(text))[w]
  {
    WordFrequencyRanked(a, text, excludeStopwords, false);
    KeptOccurrences(a, GetWords(text), excludeStopwords);
  }

  /**
   * Stop words are dropped on their surface form before lemmatising, so a
   * word that is not a stop word but whose base form is one still gets its
   * base form counted.
   */
  lemma StopwordLemmaStillCounted(a: Analyzer, text: string, w: string)
    requires w in GetWords(text) && w !in a.stopwords && a.lemmaOf(w) in a.stopwords
    ensures Lookup(WordFrequency(a, text, true, true), a.lemmaOf(w)) > 0
  {
    var kept := Kept(a, GetWords(text), true);
    assert w in kept;
    var k :| 0 <= k < |kept| && kept[k] == w;
    var keys := Keys(a, GetWords(text), true, true);
    assert keys[k] == a.lemmaOf(w);
    WordFrequencyRanked(a, text, true, true);
  }

  // ---------------------------------------------------------------------
  // calculate_coverage
  // ---------------------------------------------------------------------

  /** The dictionary `calculate_coverage` returns. */
  datatype CoverageStats = CoverageStats(
    targetWords: nat,
    coverageAchieved: real,
    totalUniqueWords: nat,
    totalWordOccurrences: nat,
    cumulativeFrequencies: seq<(nat, real)>)

  function Min(a: nat, b: nat): nat {
    if a <= b then a else b
  }

  /** The `i`-th point of the coverage curve: `(i + 1, covered by the first i + 1 items)`. */
  function CoveragePoint(wf: seq<Entry>, total: nat, i: nat): (nat, real)
    requires total > 0 && i < |wf|
  {
    (i + 1, Fraction(Total(wf[..i + 1]), total))
  }

  /**
   * `calculate_coverage`: the share of all occurrences covered by the first
   * `targetWords` ranked items and the coverage curve up to that point.  The
   * share divides by the total unguarded, so a table whose counts add up to
   * zero (an empty one included) divides by zero.
   */
  function CalculateCoverage(wf: seq<Entry>, targetWords: nat): (r: Result<CoverageStats>)
    ensures r.ZeroDivision? <==> Total(wf) == 0
    ensures r.Ok? ==>
      (r.value.targetWords == targetWords && r.value.totalUniqueWords == |wf|
       && r.value.totalWordOccurrences == Total(wf))
  {
    var total := Total(wf);
    if total == 0 then ZeroDivision
    else
      var n := Min(targetWords, |wf|);
      Ok(CoverageStats(
        targetWords,
        Fraction(Total(wf[..n]), total),
        |wf|,
        total,
        seq(n, i requires 0 <= i < n => CoveragePoint(wf, total, i))))
  }

  /** Covered shares grow with the prefix and stay between 0 and 1. */
  lemma FractionOfPrefix(wf: seq<Entry>, m: nat, n: nat)
    requires m <= n <= |wf| && Total(wf) > 0
    ensures 0.0 <= Fraction(Total(wf[..m]), Total(wf)) <= Fraction(Total(wf[..n]), Total(wf)) <= 1.0
  {
    var total := Total(wf);
    PrefixTotalMonotone(wf, m, n);
    PrefixTotalMonotone(wf, n, |wf|);
    assert wf[..|wf|] == wf;
    FractionMonotone(Total(wf[..m]), Total(wf[..n]), total);
  }

  /**
   * The curve has `min(targetWords, len(wf))` points, the `i`-th numbered
   * `i + 1` and giving the share covered by the first `i + 1` items; the
   * shares never decrease and stay within 0..1.
   */
  lemma CoverageCurve(wf: seq<Entry>, targetWords: nat)
    requires Total(wf) > 0
    ensures var curve := CalculateCoverage(wf, targetWords).value.cumulativeFrequencies;
      && |curve| == Min(targetWords, |wf|)
      && (forall i :: 0 <= i < |curve| ==>
            curve[i].0 == i + 1 && curve[i].1 == Fraction(Total(wf[..i + 1]), Total(wf)))
      && (forall i, j :: 0 <= i <= j < |curve| ==> 0.0 <= curve[i].1 <= curve[j].1 <= 1.0)
  {
    var curve := CalculateCoverage(wf, targetWords).value.cumulativeFrequencies;
    forall i, j | 0 <= i <= j < |curve| ensures 0.0 <= curve[i].1 <= curve[j].1 <= 1.0 {
      FractionOfPrefix(wf, i + 1, j + 1);
      FractionOfPrefix(wf, j + 1, |wf|);
    }
  }

  /**
   * The coverage achieved lies within 0..1, is the last point of the curve
   * when there is one, and is all of the text once the target reaches the
   * table's size.
   */
  lemma CoverageAchieved(wf: seq<Entry>, targetWords: nat)
    requires Total(wf) > 0
    ensures var stats := CalculateCoverage(wf, targetWords).value;
      && 0.0 <= stats.coverageAchieved <= 1.0
      && (targetWords >= 1 && wf != [] ==>
            stats.coverageAchieved == stats.cumulativeFrequencies[|stats.cumulativeFrequencies| - 1].1)
      && (targetWords >= |wf| ==> stats.coverageAchieved == 1.0)
      && (targetWords == 0 ==> stats.coverageAchieved == 0.0)
  {
    var n := Min(targetWords, |wf|);
    assert wf[..0] == [];
    FractionOfPrefix(wf, n, |wf|);
    assert wf[..|wf|] == wf;
    FractionMonotone(Total(wf), Total(wf), Total(wf));
  }

  // ---------------------------------------------------------------------
  // get_pos_distribution
  // ---------------------------------------------------------------------

  /** A tag that `if pos:` accepts: present and non-empty. */
  predicate IsTag(pos: Option<string>) {
    pos.Some? && pos.value != ""
  }

  /** The accepted part-of-speech tags of `words`, in word order. */
  function Tags(a: Analyzer, words: seq<string>): (tags: seq<string>)
    ensures |tags| <= |words|
  {
    if words == [] then []
    else
      var pos := a.posOf(words[|words| - 1]);
      Tags(a, words[..|words| - 1]) + (if IsTag(pos) then [pos.value] else [])
  }

  /** Taking one more word adds its tag, if it has an accepted one. */
  lemma TagsStep(a: Analyzer, words: seq<string>, i: nat)
    requires i < |words|
    ensures Tags(a, words[..i + 1]) ==
      Tags(a, words[..i]) + (if IsTag(a.posOf(words[i])) then [a.posOf(words[i]).value] else [])
  {
    assert words[..i + 1][..i] == words[..i];
  }

  /** The words tagged `tag`, as a word test. */
  function TagTest(posOf: string -> Option<string>, tag: string): string -> bool {
    w => posOf(w) == Some(tag)
  }

  /**
   * A non-empty tag occurs among the tags once for every word the oracle
   * gives that tag; the empty tag never occurs.
   */
  lemma {:induction false} TagsOccurrences(a: Analyzer, words: seq<string>, tag: string)
    ensures multiset(Tags(a, words))[tag] == if tag == "" then 0 else CountWhere(TagTest(a.posOf, tag), words)
  {
    if words != [] {
      TagsOccurrences(a, words[..|words| - 1], tag);
    }
  }

  /** The number of words the oracle gives the tag `t`. */
  function TaggedWords(a: Analyzer, words: seq<string>, t: string): nat {
    |set i: nat | i < |words| && a.posOf(words[i]) == Some(t)|
  }

  /** A non-empty tag is counted once per word tagged with it; the empty tag is not counted. */
  lemma TagOccurrencesArePositions(a: Analyzer, words: seq<string>, t: string)
    ensures multiset(Tags(a, words))[t] == if t == "" then 0 else TaggedWords(a, words, t)
  {
    TagsOccurrences(a, words, t);
    CountWherePositions(TagTest(a.posOf, t), words);
    assert Positions(TagTest(a.posOf, t), words) == set i: nat | i < |words| && a.posOf(words[i]) == Some(t);
  }

  /**
   * The distribution counts, for every non-empty tag, the words the oracle
   * gives that tag; it is a counter ranked by count, highest first, and its
   * counts add up to at most the number of words.
   */
  lemma PosCounts(a: Analyzer, words: seq<string>)
    ensures var d := Rank(Count(Tags(a, words)));
      && IsCounter(d) && NonIncreasing(d)
      && (forall t :: Lookup(d, t) == if t == "" then 0 else TaggedWords(a, words, t))
      && Total(d) <= |words|
  {
    var tags := Tags(a, words);
    var c := Count(tags);
    RankSortedPermutation(c);
    RankLookup(c);
    RankTotal(c);
    CountTotals(tags);
    forall t ensures Lookup(Rank(c), t) == if t == "" then 0 else TaggedWords(a, words, t) {
      TagOccurrencesArePositions(a, words, t);
    }
  }

  /**
   * `get_pos_distribution`: each word's tag counted as the words are met,
   * then ranked by `most_common()`.
   */
  method PosDistribution(a: Analyzer, text: string) returns (dist: seq<Entry>)
    ensures dist == Rank(Count(Tags(a, GetWords(text))))
    ensures IsCounter(dist) && NonIncreasing(dist)
    ensures forall t :: Lookup(dist, t) == if t == "" then 0 else TaggedWords(a, GetWords(text), t)
    ensures Total(dist) <= |GetWords(text)|
  {
    var words := GetWords(text);
    var posCounts: seq<Entry> := [];
    for i := 0 to |words|
      invariant posCounts == Count(Tags(a, words[..i]))
    {
      var pos := a.posOf(words[i]);
      TagsStep(a, words, i);
      if IsTag(pos) {
        CountAppend(Tags(a, words[..i]), pos.value);
        posCounts := Increment(posCounts, pos.value);
      } else {
        assert Tags(a, words[..i + 1]) == Tags(a, words[..i]);
      }
    }
    assert words[..|words|] == words;
    PosCounts(a, words);
    dist := Rank(posCounts);
  }

  // ---------------------------------------------------------------------
  // analyze_text: the lemma-form map of the common lemmas
  // ---------------------------------------------------------------------

  /**
   * The `common_lemmas` loop of `analyze_text`: for each common lemma, the
   * set of words of the text whose base form it is.  The map has the common
   * lemmas as keys, and lists under each lemma exactly the words whose base
   * form it is.
   */
  method CommonLemmaForms(a: Analyzer, words: seq<string>, commonWords: seq<Entry>)
    returns (forms: map<string, set<string>>)
    ensures forms.Keys == KeySet(commonWords)
    ensures forall l :: l in forms ==> forms[l] == set w | w in words && a.lemmaOf(w) == l
  {
    forms := map[];
    for j := 0 to |commonWords|
      invariant forms.Keys == KeySet(commonWords[..j])
      invariant forall l :: l in forms ==> forms[l] == set w | w in words && a.lemmaOf(w) == l
    {
      var baseForm := commonWords[j].key;
      var wordForms: set<string> := {};
      for i := 0 to |words|
        invariant wordForms == set w | w in words[..i] && a.lemmaOf(w) == baseForm
      {
        assert words[..i + 1] == words[..i] + [words[i]];
        if a.lemmaOf(words[i]) == baseForm {
          wordForms := wordForms + {words[i]};
        }
      }
      assert words[..|words|] == words;
      assert commonWords[..j + 1] == commonWords[..j] + [commonWords[j]];
      KeySetAppend(commonWords[..j], commonWords[j]);
      forms := forms[baseForm := wordForms];
    }
    assert commonWords[..|commonWords|] == commonWords;
  }

  // ---------------------------------------------------------------------
  // analyze_text
  // ---------------------------------------------------------------------

  /** `sum(self.count_syllables(word) for word in words)`. */
  function TotalSyllables(a: Analyzer, words: seq<string>): (n: nat)
    ensures n <= TotalLength(words)
  {
    if words == [] then 0
    else TotalSyllables(a, words[..|words| - 1]) + CountSyllables(a, words[|words| - 1])
  }

  /** `sum(len(word) for word in words)`. */
  function TotalLength(words: seq<string>): nat {
    if words == [] then 0 else TotalLength(words[..|words| - 1]) + |words[|words| - 1]|
  }

  /** The integer-valued part of the dictionary `analyze_text` returns. */
  datatype Analysis = Analysis(
    totalWords: nat,
    uniqueWords: nat,
    totalSyllables: nat,
    mostCommonLemmas: seq<Entry>,
    lemmaForms: map<string, set<string>>,
    posDistribution: seq<Entry>,
    coverageStats: CoverageStats)

  /** How many ranked base forms `analyze_text` reports and measures coverage for. */
  const CommonWordsCount: nat := 100

  /**
   * `analyze_text`: words, lemmatised frequency table without stop words,
   * its top 100 entries and their coverage, the distinct word count, the
   * syllable total, the part-of-speech distribution and the word forms of
   * the top base forms.  The coverage divides by the number of counted
   * words unguarded, so a text with no word left after dropping stop words
   * divides by zero.
   */
  method AnalyzeText(a: Analyzer, text: string) returns (res: Result<Analysis>)
    ensures res.ZeroDivision? <==> |Kept(a, GetWords(text), true)| == 0
    ensures res.Ok? ==>
      var r, words, wf := res.value, GetWords(text), WordFrequency(a, text, true, true);
      && r.totalWords == |words|
      && r.uniqueWords == |set w | w in words| && r.uniqueWords <= r.totalWords
      && r.totalSyllables == TotalSyllables(a, words)
      && r.mostCommonLemmas == wf[..Min(CommonWordsCount, |wf|)]
      && r.lemmaForms.Keys == KeySet(r.mostCommonLemmas)
      && (forall l :: l in r.lemmaForms ==> r.lemmaForms[l] == set w | w in words && a.lemmaOf(w) == l)
      && r.posDistribution == Rank(Count(Tags(a, words)))
      && CalculateCoverage(wf, CommonWordsCount).Ok?
      && r.coverageStats == CalculateCoverage(wf, CommonWordsCount).value
  {
    var words := GetWords(text);
    var wordCount := |words|;
    var wordFrequencies := WordFrequency(a, text, true, true);
    var commonWords := wordFrequencies[..Min(CommonWordsCount, |wordFrequencies|)];
    WordFrequencyRanked(a, text, true, true);
    var coverageStats := CalculateCoverage(wordFrequencies, CommonWordsCount);
    if coverageStats.ZeroDivision? {
      return ZeroDivision;
    }
    CountTotals(words);
    var uniqueWords := |set w | w in words|;
    var totalSyllables := TotalSyllables(a, words);
    var posDist := PosDistribution(a, text);
    var commonLemmas := CommonLemmaForms(a, words, commonWords);
    res := Ok(Analysis(wordCount, uniqueWords, totalSyllables, commonWords, commonLemmas, posDist, coverageStats.value));
  }
}
