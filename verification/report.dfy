/** `Proctor::printResults` as far as it derives numbers: the precision-recall
    curve and the classifier statistics computed from the tables a test run
    leaves behind. */
module Report {
  import opened Arith
  import opened Tables
  import opened Confusion
  import opened Trials
  import opened PrecisionRecall
  import opened ClassifierStats

  /** A row of equal votes puts the true model first, tied with every
      candidate. */
  lemma {:induction false} LevelScan(row: Row, mi: nat)
    requires mi <= |row| && IsZeroRow(row)
    ensures Scan(row, 0.0, mi) == Standing(0, |row| - mi)
    decreases |row| - mi
  {
    if mi < |row| {
      LevelScan(row, mi + 1);
    }
  }

  lemma {:induction false} ZeroRowsFrom(classifier: Table, truth: seq<nat>, numModels: nat, ni: nat)
    requires Valid(classifier, truth, numModels) && ni <= |classifier|
    requires forall j :: 0 <= j < |classifier| ==> IsZeroRow(classifier[j])
    ensures AccumulateFrom(classifier, truth, numModels, ni)
            == Stats((2 + numModels) * (|classifier| - ni), numModels * (|classifier| - ni))
    decreases |classifier| - ni
  {
    if ni < |classifier| {
      ZeroRowsFrom(classifier, truth, numModels, ni + 1);
      LevelScan(classifier[ni], 0);
      MulStep(numModels, |classifier| - ni - 1);
      MulStep(2 + numModels, |classifier| - ni - 1);
    }
  }

  /** A run in which every query raised: the curve is empty, yet each
      abstained trial's all-zero classifier row ranks the true model first
      (tied with all candidates), so the area is at its maximum
      `numModels * numTrials` and `avgTwice` is `(2 + numModels) * numTrials`. */
  lemma AlwaysRaisingReport(catalog: seq<Id>, detector: Scene -> QueryResult, numModels: nat,
                            numTrials: nat, truth: seq<nat>)
    requires |catalog| > 0
    requires forall ni :: 0 <= ni < numTrials ==> Query(catalog, detector, ni) == Raised
    requires ValidTruth(truth, numTrials, numModels)
    ensures PrecisionRecallCurve(Test(catalog, detector, numModels, numTrials).registration, truth) == []
    ensures Accumulate(Test(catalog, detector, numModels, numTrials).classifier, truth, numModels)
            == Stats((2 + numModels) * numTrials, numModels * numTrials)
  {
    var st := Test(catalog, detector, numModels, numTrials);
    AlwaysRaising(catalog, detector, numModels, numTrials);
    NoAttemptsNoDetections(st.registration);
    ZeroRowsFrom(st.classifier, truth, numModels, 0);
  }

  /** For any test run, any order `std::sort` leaves and any choice of true
      models, the curve has at most one point per trial: no two points come
      from the same trial, and there are at most `numTrials` of them. */
  lemma CurveAtMostOnePerTrial(catalog: seq<Id>, detector: Scene -> QueryResult, numModels: nat,
                               numTrials: nat, truth: seq<nat>, sorted: seq<Detection>)
    requires |catalog| > 0
    requires IsSortingOf(sorted, Detections(Test(catalog, detector, numModels, numTrials).registration))
    ensures forall k, l :: 0 <= k < l < |Curve(sorted, truth)| ==>
      sorted[Curve(sorted, truth)[k].seen - 1].ni != sorted[Curve(sorted, truth)[l].seen - 1].ni
    ensures |Curve(sorted, truth)| <= numTrials
  {
    SortedHitsPerTrial(Test(catalog, detector, numModels, numTrials).registration, truth, sorted);
  }
}
