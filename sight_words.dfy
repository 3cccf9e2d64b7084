/**
 * The sight-word extractor: tokenise a text, count its words, rank them by
 * count and walk the ranking, accumulating the percentage of all word
 * occurrences covered, until a target percentage is reached.
 */
module SightWords {
  import opened Chars
  import opened Strings
  import opened Counting
  import opened Ranking
  import opened Results

  /**
   * `process_text`: the text is lower-cased and split into the maximal runs
   * of word characters (`re.findall(r'\b\w+\b', ...)`).  Every word is a
   * non-empty run of word characters and is in lower case.
   */
  function ProcessText(text: string): (words: seq<string>)
    ensures forall k :: 0 <= k < |words| ==> IsRun(IsWordChar, words[k]) && All(IsLowercase, words[k])
  {
    var lowered := LowerStr(text);
    LowerStrIsLowercase(text);
    RunsKeep(IsWordChar, IsLowercase, lowered);
    Runs(IsWordChar, lowered)
  }

  /**
   * The words are the runs of word characters of the original text, in text
   * order, each lower-cased: lower-casing first does not move any word
   * boundary.
   */
  lemma ProcessTextLowersTokens(text: string)
    ensures ProcessText(text) == Map(LowerStr, Runs(IsWordChar, text))
  {
    RunsLower(IsWordChar, text);
  }

  /** The counting done before the extraction proper: `Counter(words)`, its total and its size. */
  datatype TextCounts = TextCounts(wordCounts: seq<Entry>, totalWords: nat, uniqueWords: nat)

  /**
   * `Counter(process_text(text))` with `sum(word_counts.values())` and
   * `len(word_counts)`: the counter holds every word with its number of
   * occurrences, the total is the number of words and the size is the number
   * of distinct words.
   */
  function CountText(text: string): (r: TextCounts)
    ensures IsCounter(r.wordCounts)
    ensures forall w :: Lookup(r.wordCounts, w) == multiset(ProcessText(text))[w]
    ensures r.totalWords == |ProcessText(text)|
    ensures r.uniqueWords == |set w | w in ProcessText(text)|
  {
    var words := ProcessText(text);
    var wordCounts := Count(words);
    CountTotals(words);
    TextCounts(wordCounts, Total(wordCounts), |wordCounts|)
  }

  /** `(part / total) * 100`, computed exactly. */
  function Percent(part: nat, total: nat): real
    requires total > 0
  {
    Fraction(part, total) * 100.0
  }

  /** A larger part is a larger percentage of the same total. */
  lemma PercentMonotone(a: nat, b: nat, total: nat)
    requires a <= b && total > 0
    ensures 0.0 <= Percent(a, total) <= Percent(b, total)
  {
    FractionMonotone(a, b, total);
  }

  /** Part of a total is at most 100 percent of it; all of it is exactly 100. */
  lemma PercentAtMost100(a: nat, total: nat)
    requires a <= total && total > 0
    ensures 0.0 <= Percent(a, total) <= 100.0
    ensures a == total ==> Percent(a, total) == 100.0
  {
    FractionMonotone(a, total, total);
  }

  /**
   * `d[key] = value` on an insertion-ordered dict of `(key, value)` pairs:
   * a new key goes at the end, an existing key keeps its place.
   */
  function Put(d: seq<(string, real)>, key: string, value: real): (r: seq<(string, real)>)
    ensures (forall i :: 0 <= i < |d| ==> d[i].0 != key) ==> r == d + [(key, value)]
  {
    if d == [] then [(key, value)]
    else if d[0].0 == key then [(key, value)] + d[1..]
    else
      assert (forall i :: 0 <= i < |d| ==> d[i].0 != key) ==> forall i :: 0 <= i < |d[1..]| ==> d[1..][i].0 != key;
      [d[0]] + Put(d[1..], key, value)
  }

  /**
   * The cumulative coverage curve of a ranking: each item paired with the
   * percentage of `total` that it and the items before it account for.
   */
  function CumulativeCurve(ranked: seq<Entry>, total: nat): (curve: seq<(string, real)>)
    requires total > 0
    ensures |curve| == |ranked|
    ensures forall k :: 0 <= k < |ranked| ==> curve[k].0 == ranked[k].key
  {
    if ranked == [] then []
    else
      var last := |ranked| - 1;
      CumulativeCurve(ranked[..last], total) + [(ranked[last].key, Percent(Total(ranked), total))]
  }

  /** Point `k` of the curve is the percentage covered by the first `k + 1` items. */
  lemma {:induction false} CurveAt(ranked: seq<Entry>, total: nat, k: nat)
    requires total > 0 && k < |ranked|
    ensures CumulativeCurve(ranked, total)[k].1 == Percent(Total(ranked[..k + 1]), total)
  {
    var last := |ranked| - 1;
    if k == last {
      assert ranked[..k + 1] == ranked;
    } else {
      CurveAt(ranked[..last], total, k);
      assert ranked[..last][..k + 1] == ranked[..k + 1];
    }
  }

  /**
   * Extending the ranking by one item whose key is new extends the curve by
   * that item's point, which `Put` appends.
   */
  lemma CurveExtend(ranked: seq<Entry>, total: nat, i: nat)
    requires DistinctKeys(ranked) && total > 0 && i < |ranked|
    ensures Put(CumulativeCurve(ranked[..i], total), ranked[i].key, Percent(Total(ranked[..i + 1]), total))
         == CumulativeCurve(ranked[..i + 1], total)
  {
    assert ranked[..i + 1][..i] == ranked[..i];
    var d := CumulativeCurve(ranked[..i], total);
    assert forall k :: 0 <= k < |d| ==> d[k].0 != ranked[i].key;
  }

  /** Cumulative percentages never decrease along the ranking. */
  lemma CurveNonDecreasing(ranked: seq<Entry>, total: nat)
    requires total > 0
    ensures var curve := CumulativeCurve(ranked, total);
      forall i, j :: 0 <= i <= j < |curve| ==> curve[i].1 <= curve[j].1
  {
    var curve := CumulativeCurve(ranked, total);
    forall i, j | 0 <= i <= j < |curve| ensures curve[i].1 <= curve[j].1 {
      CurveAt(ranked, total, i);
      CurveAt(ranked, total, j);
      PrefixTotalMonotone(ranked, i + 1, j + 1);
      PercentMonotone(Total(ranked[..i + 1]), Total(ranked[..j + 1]), total);
    }
  }

  /**
   * Against the sum of its own counts, the curve stays between 0 and 100
   * and ends at exactly 100.
   */
  lemma CurveEndsAt100(ranked: seq<Entry>)
    requires Total(ranked) > 0
    ensures var curve := CumulativeCurve(ranked, Total(ranked));
      && (forall i :: 0 <= i < |curve| ==> 0.0 <= curve[i].1 <= 100.0)
      && curve[|curve| - 1].1 == 100.0
  {
    var total := Total(ranked);
    assert ranked[..|ranked|] == ranked;
    forall i | 0 <= i < |ranked| ensures 0.0 <= CumulativeCurve(ranked, total)[i].1 <= 100.0 {
      CurveAt(ranked, total, i);
      PrefixTotalMonotone(ranked, i + 1, |ranked|);
      PercentAtMost100(Total(ranked[..i + 1]), total);
    }
    PercentAtMost100(total, total);
  }

  /** The curve of a ranked counter, taken against the counter's own total, stays within 0..100. */
  lemma RankedCurveBounds(wordCounts: seq<Entry>)
    requires Total(wordCounts) > 0
    ensures var curve := CumulativeCurve(Rank(wordCounts), Total(wordCounts));
      forall k :: 0 <= k < |curve| ==> 0.0 <= curve[k].1 <= 100.0
  {
    RankTotal(wordCounts);
    CurveEndsAt100(Rank(wordCounts));
  }

  /**
   * `get_cumulative_frequencies`: the items ranked by count, each mapped to
   * its point of the cumulative curve over `totalWords`, in ranking order.
   * A zero `totalWords` with at least one item divides by zero.
   */
  method CumulativeFrequencies(wordCounts: seq<Entry>, totalWords: nat) returns (res: Result<seq<(string, real)>>)
    requires DistinctKeys(wordCounts)
    ensures res.ZeroDivision? <==> totalWords == 0 && |wordCounts| > 0
    ensures res.Ok? ==> res.value == if wordCounts == [] then [] else CumulativeCurve(Rank(wordCounts), totalWords)
  {
    var sortedWords := Rank(wordCounts);
    RankStable(wordCounts);
    var cumulativeFreq: seq<(string, real)> := [];
    var cumulativeSum := 0;
    var i := 0;
    while i < |sortedWords|
      invariant i <= |sortedWords|
      invariant cumulativeSum == Total(sortedWords[..i])
      invariant i == 0 ==> cumulativeFreq == []
      invariant i > 0 ==> totalWords > 0 && cumulativeFreq == CumulativeCurve(sortedWords[..i], totalWords)
    {
      var entry := sortedWords[i];
      cumulativeSum := cumulativeSum + entry.count;
      TotalConcat(sortedWords[..i], [entry]);
      assert sortedWords[..i + 1] == sortedWords[..i] + [entry];
      if totalWords == 0 {
        return ZeroDivision;
      }
      CurveExtend(sortedWords, totalWords, i);
      assert cumulativeFreq == CumulativeCurve(sortedWords[..i], totalWords);
      cumulativeFreq := Put(cumulativeFreq, entry.key, Percent(cumulativeSum, totalWords));
      i := i + 1;
    }
    assert sortedWords[..i] == sortedWords;
    res := Ok(cumulativeFreq);
  }

  /**
   * The loop of `get_words_up_to_percentage`: walks the cumulative
   * frequencies in order, appending `(word, word_counts[word], percentage)`
   * and stopping right after the first percentage that reaches the target.
   */
  method TakeUntilTarget(wordCounts: seq<Entry>, cumulativeFreq: seq<(string, real)>, targetPercentage: real)
    returns (result: seq<(string, nat, real)>)
    ensures |result| <= |cumulativeFreq|
    ensures forall k :: 0 <= k < |result| ==>
      result[k] == (cumulativeFreq[k].0, Lookup(wordCounts, cumulativeFreq[k].0), cumulativeFreq[k].1)
    ensures forall k :: 0 <= k < |result| - 1 ==> cumulativeFreq[k].1 < targetPercentage
    ensures |result| > 0 ==> cumulativeFreq[|result| - 1].1 >= targetPercentage || |result| == |cumulativeFreq|
    ensures |cumulativeFreq| > 0 ==> |result| > 0
  {
    result := [];
    var i := 0;
    while i < |cumulativeFreq|
      invariant i <= |cumulativeFreq|
      invariant |result| == i
      invariant forall k :: 0 <= k < i ==>
        result[k] == (cumulativeFreq[k].0, Lookup(wordCounts, cumulativeFreq[k].0), cumulativeFreq[k].1)
      invariant forall k :: 0 <= k < i ==> cumulativeFreq[k].1 < targetPercentage
    {
      var word := cumulativeFreq[i].0;
      var cumPercent := cumulativeFreq[i].1;
      result := result + [(word, Lookup(wordCounts, word), cumPercent)];
      if cumPercent >= targetPercentage {
        break;
      }
      i := i + 1;
    }
  }

  /**
   * `get_words_up_to_percentage`: the ranked words with their counts and
   * cumulative percentages, up to and including the first one whose
   * cumulative percentage reaches the target.  The result is a prefix of
   * the curve of the ranking; every entry but the last is below the target;
   * the last reaches it unless the whole ranking was taken.  A counter whose
   * counts sum to zero divides by zero.
   */
  method WordsUpToPercentage(wordCounts: seq<Entry>, targetPercentage: real)
    returns (res: Result<seq<(string, nat, real)>>)
    requires DistinctKeys(wordCounts)
    ensures res.ZeroDivision? <==> Total(wordCounts) == 0 && |wordCounts| > 0
    ensures res.Ok? ==> |res.value| <= |wordCounts|
    ensures res.Ok? && res.value != [] ==> (
      Total(wordCounts) > 0 &&
      var curve := CumulativeCurve(Rank(wordCounts), Total(wordCounts));
      forall k :: 0 <= k < |res.value| ==>
        res.value[k] == (curve[k].0, Lookup(wordCounts, curve[k].0), curve[k].1))
    ensures res.Ok? ==> forall k :: 0 <= k < |res.value| - 1 ==> res.value[k].2 < targetPercentage
    ensures res.Ok? && |res.value| > 0 ==>
      res.value[|res.value| - 1].2 >= targetPercentage || |res.value| == |wordCounts|
    ensures res.Ok? && |wordCounts| > 0 ==> |res.value| > 0
    ensures res.Ok? && |wordCounts| > 0 && targetPercentage <= 0.0 ==> |res.value| == 1
    ensures res.Ok? && targetPercentage > 100.0 ==> |res.value| == |wordCounts|
  {
    var totalWords := Total(wordCounts);
    var cumulative := CumulativeFrequencies(wordCounts, totalWords);
    if cumulative.ZeroDivision? {
      return ZeroDivision;
    }
    assert |cumulative.value| == |wordCounts|;
    var result := TakeUntilTarget(wordCounts, cumulative.value, targetPercentage);
    if wordCounts != [] {
      RankedCurveBounds(wordCounts);
    }
    res := Ok(result);
  }
}
