/**
 * The two coverage walks side by side: the percentage curve of the
 * sight-word extractor and the share curve of the analyzer's
 * `calculate_coverage` describe the same prefix sums, and stopping after N
 * ranked items reports the percentage the stop-at-target walk reaches at its
 * N-th item.
 */
module CoverageModes {
  import opened Counting
  import opened Ranking
  import opened SightWords
  import opened RussianAnalyzer

  /**
   * Point by point, the share curve of `calculate_coverage` is the
   * percentage curve scaled down by 100, and so is the coverage achieved
   * after N items against the N-th percentage.
   */
  lemma SharesArePercentages(wf: seq<Entry>, targetWords: nat)
    requires Total(wf) > 0
    ensures var stats, curve := CalculateCoverage(wf, targetWords).value, CumulativeCurve(wf, Total(wf));
      && (forall i :: 0 <= i < |stats.cumulativeFrequencies| ==>
            stats.cumulativeFrequencies[i].1 * 100.0 == curve[i].1)
      && (1 <= targetWords <= |wf| ==> stats.coverageAchieved * 100.0 == curve[targetWords - 1].1)
  {
    var stats, curve := CalculateCoverage(wf, targetWords).value, CumulativeCurve(wf, Total(wf));
    CoverageCurve(wf, targetWords);
    forall i | 0 <= i < |stats.cumulativeFrequencies|
      ensures stats.cumulativeFrequencies[i].1 * 100.0 == curve[i].1
    {
      CurveAt(wf, Total(wf), i);
    }
    if 1 <= targetWords <= |wf| {
      CurveAt(wf, Total(wf), targetWords - 1);
    }
  }

  /**
   * On a ranked counter, stopping after the first N items reports as its
   * coverage the cumulative percentage, divided by 100, that the
   * stop-at-target walk over the same counter reaches at its N-th item.
   */
  lemma StopModesAgree(c: seq<Entry>, n: nat)
    requires Total(c) > 0 && 1 <= n <= |c|
    ensures CalculateCoverage(Rank(c), n).Ok?
    ensures CalculateCoverage(Rank(c), n).value.coverageAchieved * 100.0
         == CumulativeCurve(Rank(c), Total(c))[n - 1].1
  {
    RankTotal(c);
    SharesArePercentages(Rank(c), n);
  }

  /**
   * The worked example: the tokens `a a b c c c` count as
   * `{a: 2, b: 1, c: 3}`, which ranks as `c, a, b`.
   */
  lemma ExampleRank()
    ensures Rank([Entry("a", 2), Entry("b", 1), Entry("c", 3)]) == [Entry("c", 3), Entry("a", 2), Entry("b", 1)]
  {
    var c := [Entry("a", 2), Entry("b", 1), Entry("c", 3)];
    assert c[1..] == [Entry("b", 1), Entry("c", 3)] && c[1..][1..] == [Entry("c", 3)];
    assert Rank([Entry("c", 3)]) == [Entry("c", 3)];
    assert Rank([Entry("b", 1), Entry("c", 3)]) == [Entry("c", 3), Entry("b", 1)];
  }

  /** Of the ranked example, the top two words cover half of the text and then five sixths of it. */
  lemma ExampleCoverage()
    ensures var stats := CalculateCoverage([Entry("c", 3), Entry("a", 2), Entry("b", 1)], 2).value;
      && stats.cumulativeFrequencies == [(1, 0.5), (2, 5.0 / 6.0)]
      && stats.coverageAchieved == 5.0 / 6.0
  {
    var r := [Entry("c", 3), Entry("a", 2), Entry("b", 1)];
    assert r[..1] == [Entry("c", 3)] && r[..2] == [Entry("c", 3), Entry("a", 2)];
    assert r[..2][..1] == r[..1] && r[..|r| - 1] == r[..2] && r[..1][..0] == [];
    assert Total(r[..1]) == 3;
    assert Total(r[..2]) == 5;
    assert Total(r) == Total(r[..2]) + 1;
  }
}
