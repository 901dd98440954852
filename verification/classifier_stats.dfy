/** `Proctor::printClassifierStats`: in each trial the true model's classifier
    votes are ranked against every candidate's, and two summaries accumulate
    over the trials: the sum of `rank + tie / 2` (printed divided by the
    number of trials as the average rank) and the area under the cumulative
    rank histogram. The true model of each trial is an explicit input. */
module ClassifierStats {
  import opened Arith
  import opened Counting
  import opened Tables

  /** How the candidates from `mi` on compare with `votes`: how many score
      strictly more and how many exactly as much. */
  datatype Standing = Standing(above: nat, tied: nat)

  function Scan(row: Row, votes: real, mi: nat): (s: Standing)
    requires mi <= |row|
    ensures s.above + s.tied <= |row| - mi
    ensures forall a :: mi <= a < |row| && row[a] == votes ==> s.tied >= 1
    decreases |row| - mi
  {
    if mi == |row| then Standing(0, 0)
    else
      var rest := Scan(row, votes, mi + 1);
      if row[mi] > votes then Standing(rest.above + 1, rest.tied)
      else if row[mi] == votes then Standing(rest.above, rest.tied + 1)
      else rest
  }

  function Above(votes: real): real -> bool {
    x => x > votes
  }

  function Level(votes: real): real -> bool {
    x => x == votes
  }

  /** The scan counts exactly the candidates above and level with `votes`. */
  lemma {:induction false} ScanCounts(row: Row, votes: real, mi: nat)
    requires mi <= |row|
    ensures Scan(row, votes, mi).above == Count(row[mi..], Above(votes))
    ensures Scan(row, votes, mi).tied == Count(row[mi..], Level(votes))
    decreases |row| - mi
  {
    if mi < |row| {
      ScanCounts(row, votes, mi + 1);
      assert row[mi..][1..] == row[mi + 1..];
      assert Above(votes)(row[mi]) == (row[mi] > votes);
      assert Level(votes)(row[mi]) == (row[mi] == votes);
    }
  }

  /** Rank of the true model in one trial and the number of candidates tied
      with it, the true model's own slot included. */
  datatype Placing = Placing(rank: nat, tie: nat)

  function PlacingOf(row: Row, answer: nat): (p: Placing)
    requires answer < |row|
    ensures 1 <= p.rank <= |row|
    ensures 1 <= p.tie
    ensures p.rank - 1 + p.tie <= |row|
  {
    var s := Scan(row, row[answer], 0);
    Placing(1 + s.above, s.tied)
  }

  /** Rank is one more than the number of candidates voted strictly higher;
      tie is the number voted exactly as high. */
  lemma PlacingCounts(row: Row, answer: nat)
    requires answer < |row|
    ensures PlacingOf(row, answer).rank == 1 + Count(row, Above(row[answer]))
    ensures PlacingOf(row, answer).tie == Count(row, Level(row[answer]))
  {
    ScanCounts(row, row[answer], 0);
    assert row[0..] == row;
  }

  /** `avgTwice` is twice the sum of `rank + tie / 2` (kept integral);
      `area` is the sum of `numModels - rank + 1`. */
  datatype Stats = Stats(avgTwice: int, area: int)

  predicate Valid(classifier: Table, truth: seq<nat>, numModels: nat) {
    Shaped(classifier, |classifier|, numModels) && ValidTruth(truth, |classifier|, numModels)
  }

  /** Statistics over trials `ni ..`: each trial adds between 1 and
      `numModels` to the area and between 3 and `2 * numModels + 1` to
      `avgTwice`. */
  function AccumulateFrom(classifier: Table, truth: seq<nat>, numModels: nat, ni: nat): (s: Stats)
    requires Valid(classifier, truth, numModels) && ni <= |classifier|
    ensures var n := |classifier| - ni;
      && n <= s.area <= numModels * n
      && 3 * n <= s.avgTwice <= (2 * numModels + 1) * n
    decreases |classifier| - ni
  {
    if ni == |classifier| then Stats(0, 0)
    else
      var p := PlacingOf(classifier[ni], truth[ni]);
      var rest := AccumulateFrom(classifier, truth, numModels, ni + 1);
      MulStep(numModels, |classifier| - ni - 1);
      MulStep(2 * numModels + 1, |classifier| - ni - 1);
      Stats(rest.avgTwice + 2 * p.rank + p.tie, rest.area + numModels - p.rank + 1)
  }

  /** The two sums of `printClassifierStats` over all `numTrials` trials:
      `numTrials <= area <= numModels * numTrials` and
      `3 * numTrials <= avgTwice <= (2 * numModels + 1) * numTrials`. */
  function Accumulate(classifier: Table, truth: seq<nat>, numModels: nat): (s: Stats)
    requires Valid(classifier, truth, numModels)
    ensures |classifier| <= s.area <= numModels * |classifier|
    ensures 3 * |classifier| <= s.avgTwice <= (2 * numModels + 1) * |classifier|
  {
    AccumulateFrom(classifier, truth, numModels, 0)
  }

  /** A sum of `n` per-trial values, each between 3 and `2 * m + 1` halves,
      averages between 1.5 and `m + 0.5`. */
  lemma HalvedMeanBetween(a: int, n: nat, m: nat)
    requires n > 0 && 3 * n <= a <= (2 * m + 1) * n
    ensures 1.5 <= a as real / (2 * n) as real <= m as real + 0.5
  {
    var x, y := a as real, (2 * n) as real;
    CastProduct(2 * m + 1, n);
    assert (2 * m + 1) as real * n as real == (m as real + 0.5) * y;
    DivAtLeast(x, y, 1.5);
    DivAtMost(x, y, m as real + 0.5);
  }

  /** The printed average rank, `avg / num_trials`, where `avg` is half of
      `avgTwice`. Over at least one trial it lies between 1.5 and
      `numModels + 0.5`. */
  function MeanRank(classifier: Table, truth: seq<nat>, numModels: nat): (r: real)
    requires Valid(classifier, truth, numModels) && |classifier| > 0
    ensures 1.5 <= r <= numModels as real + 0.5
  {
    var s := Accumulate(classifier, truth, numModels);
    HalvedMeanBetween(s.avgTwice, |classifier|, numModels);
    s.avgTwice as real / (2 * |classifier|) as real
  }

  /** The true model's votes are strictly the highest of the row. */
  predicate StrictlyFirst(row: Row, answer: nat) {
    answer < |row| && forall mi :: 0 <= mi < |row| && mi != answer ==> row[mi] < row[answer]
  }

  /** In every trial the true model's votes are strictly the highest. */
  predicate AlwaysStrictlyFirst(classifier: Table, truth: seq<nat>) {
    |truth| == |classifier| && forall ni :: 0 <= ni < |classifier| ==> StrictlyFirst(classifier[ni], truth[ni])
  }

  /** A perfect classifier: rank 1 and a tie of 1 (its own slot). */
  lemma PerfectPlacing(row: Row, answer: nat)
    requires StrictlyFirst(row, answer)
    ensures PlacingOf(row, answer) == Placing(1, 1)
  {
    PerfectScan(row, answer, 0);
  }

  lemma {:induction false} PerfectScan(row: Row, answer: nat, mi: nat)
    requires answer < |row| && mi <= |row|
    requires forall j :: 0 <= j < |row| && j != answer ==> row[j] < row[answer]
    ensures Scan(row, row[answer], mi) == Standing(0, if mi <= answer then 1 else 0)
    decreases |row| - mi
  {
    if mi < |row| {
      PerfectScan(row, answer, mi + 1);
    }
  }

  lemma {:induction false} PerfectFrom(classifier: Table, truth: seq<nat>, numModels: nat, ni: nat)
    requires Valid(classifier, truth, numModels) && AlwaysStrictlyFirst(classifier, truth)
    requires ni <= |classifier|
    ensures AccumulateFrom(classifier, truth, numModels, ni)
            == Stats(3 * (|classifier| - ni), numModels * (|classifier| - ni))
    decreases |classifier| - ni
  {
    if ni < |classifier| {
      PerfectFrom(classifier, truth, numModels, ni + 1);
      PerfectPlacing(classifier[ni], truth[ni]);
      MulStep(numModels, |classifier| - ni - 1);
    }
  }

  /** When the true model always has strictly the most votes the area reaches
      its maximum `numModels * numTrials`, but because the true model's own
      slot counts as a tie the reported average rank is 1.5, not 1. */
  lemma PerfectClassifier(classifier: Table, truth: seq<nat>, numModels: nat)
    requires Valid(classifier, truth, numModels) && AlwaysStrictlyFirst(classifier, truth)
    ensures Accumulate(classifier, truth, numModels).area == numModels * |classifier|
    ensures |classifier| > 0 ==> MeanRank(classifier, truth, numModels) == 1.5
  {
    PerfectFrom(classifier, truth, numModels, 0);
    if |classifier| > 0 {
      Ratio(3, 2, |classifier|);
    }
  }

  /** One trial with two candidates, the true model strictly ahead: the
      reported average rank is 1.5. */
  lemma SelfTieExample()
    ensures MeanRank([[1.0, 0.0]], [0], 2) == 1.5
  {
    PerfectClassifier([[1.0, 0.0]], [0], 2);
  }

  /** Twice the mid-rank `rank + (tie - 1) / 2` of one trial: the tied block
      occupies positions `rank .. rank + tie - 1`, whose midpoint this is. It
      lies between 1 and the number of candidates. */
  function MidRankTwice(row: Row, answer: nat): (m: int)
    requires answer < |row|
    ensures 2 <= m <= 2 * |row|
  {
    var p := PlacingOf(row, answer);
    2 * p.rank + p.tie - 1
  }

  /** Twice the sum of the mid-ranks of trials `ni ..`. */
  function MidRankTwiceFrom(classifier: Table, truth: seq<nat>, numModels: nat, ni: nat): int
    requires Valid(classifier, truth, numModels) && ni <= |classifier|
    decreases |classifier| - ni
  {
    if ni == |classifier| then 0
    else MidRankTwiceFrom(classifier, truth, numModels, ni + 1) + MidRankTwice(classifier[ni], truth[ni])
  }

  /** Average mid-rank over all trials. */
  function MeanMidRank(classifier: Table, truth: seq<nat>, numModels: nat): real
    requires Valid(classifier, truth, numModels) && |classifier| > 0
  {
    MidRankTwiceFrom(classifier, truth, numModels, 0) as real / (2 * |classifier|) as real
  }

  lemma {:induction false} PerfectMidRankFrom(classifier: Table, truth: seq<nat>, numModels: nat, ni: nat)
    requires Valid(classifier, truth, numModels) && AlwaysStrictlyFirst(classifier, truth)
    requires ni <= |classifier|
    ensures MidRankTwiceFrom(classifier, truth, numModels, ni) == 2 * (|classifier| - ni)
    decreases |classifier| - ni
  {
    if ni < |classifier| {
      PerfectMidRankFrom(classifier, truth, numModels, ni + 1);
      PerfectPlacing(classifier[ni], truth[ni]);
    }
  }

  /** With mid-ranks a perfect classifier has average rank exactly 1. */
  lemma PerfectClassifierMidRank(classifier: Table, truth: seq<nat>, numModels: nat)
    requires Valid(classifier, truth, numModels) && AlwaysStrictlyFirst(classifier, truth)
    requires |classifier| > 0
    ensures MeanMidRank(classifier, truth, numModels) == 1.0
  {
    PerfectMidRankFrom(classifier, truth, numModels, 0);
    Ratio(2, 2, |classifier|);
  }

  /** Each trial's mid-rank lies between 1 and `numModels`, so the `n`
      mid-ranks of trials `ni ..` sum to between `n` and `numModels * n`. */
  lemma {:induction false} MidRankBoundsFrom(classifier: Table, truth: seq<nat>, numModels: nat, ni: nat)
    requires Valid(classifier, truth, numModels) && ni <= |classifier|
    ensures forall j :: ni <= j < |classifier| ==> 2 <= MidRankTwice(classifier[j], truth[j]) <= 2 * numModels
    ensures var m, n := MidRankTwiceFrom(classifier, truth, numModels, ni), |classifier| - ni;
      2 * n <= m <= 2 * numModels * n
    decreases |classifier| - ni
  {
    if ni < |classifier| {
      MidRankBoundsFrom(classifier, truth, numModels, ni + 1);
      MulStep(2 * numModels, |classifier| - ni - 1);
    }
  }
}
