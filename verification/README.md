# Proctor evaluation harness — Dafny model

This project models the experiment protocol and the statistics engine of
Proctor, the harness that evaluates a pluggable 3-D object-recognition
detector (`proctor/src/proctor.cpp`). Point-cloud acquisition and the
detector's own algorithms are external collaborators and appear only as
abstract functions.

Modules (one file each):

- `Counting` (`counting.dfy`) — `Count(s, p)`, the number of elements
  satisfying a test, and the fact that it only depends on the multiset of
  elements. Every tally below is such a count.
- `Tables` (`tables.dfy`) — result rows and tables (votes and registration
  distances as `real`), zero rows, table shape, the per-trial true model.
- `Sampling` (`random_subset.dfy`) — `randomSubset`, the swap-to-back partial
  Fisher-Yates sampler: a loop over the `bag` and `subset` vectors (held as
  sequences) and `Draw`, a recursive reference definition of the same draws.
- `Confusion` (`confusion.dfy`) — the confusion matrix as the sequence of its
  `increment` calls, with `Cell`, `Trace` and `Total`.
- `Trials` (`trials.dfy`) — `train` (catalog order, abort on the first
  failure) and `test` (round-robin ground truth, success and failure
  bookkeeping) as a fold over trials.
- `PrecisionRecall` (`precision_recall.dfy`) — detections, the sort by
  distance, and the ranked walk that emits (precision, recall, distance).
- `ClassifierStats` (`classifier_stats.dfy`) — rank and tie of the true
  model per trial, the `avg` and `area` accumulators.
- `Arith` (`arith.dfy`) — the few facts about integer products, Euclidean
  division and real quotients that the proofs above use.
- `Report` (`report.dfy`) — properties that run from a test run's tables to
  both statistics.

Modelling choices:

- `rand() % edge` in `randomSubset` is `rolls[i] % edge`, where `rolls` are
  the values `rand()` returns (non-negative, as `rand()` promises); the
  contract holds for every such sequence.
- The detector's `query` is a total function from the presented scene
  (trial index and ground-truth id, standing for the scanned cloud) to
  `Guessed(guessId, classifierRow, registrationRow)` or `Raised`, a
  `std::exception` that the handler at proctor/src/proctor.cpp:111 catches.
  Training is a function `(position, id) -> bool` saying whether
  acquiring and training on that model completed.
- The true model of each trial is an explicit input `truth` to both
  statistics. The source reads it from `scenes[ni].mi`, which nothing in
  `proctor.cpp` assigns: the loop that filled it is commented out.
- `std::sort` is not stable. Properties of the curve therefore hold for
  every `sorted` with `IsSortingOf(sorted, Detections(reg))`: ascending by
  distance and a permutation of the detection list. `Sort` (an insertion
  sort) is one such ordering.
- The average rank is kept integral as `avgTwice`, the sum of
  `2 * rank + tie`; the printed value is `avgTwice / (2 * numTrials)`.
- `ni % |catalog|` is computed by `Slot` through repeated subtraction, and
  `SlotIsModulo` proves it equals `%`.
- `bag` and `subset` in `randomSubset` are `std::vector`s updated in place;
  the model holds them as sequence values. The partition invariant is proved
  on the recursive `Draw`, which the loop is shown to compute (`LoopStep`).

Consequences of the code that the model keeps:

- `std::sort` is not stable, so detections at equal distance may come out in
  any order.
- `test` writes only row `ni` of each table and never clears them; line 83
  clears a different array (`confusion`). Each modelled row is the
  detector's output or zeros.
- A perfect classifier scores average rank 1.5 because of the self-tie (see
  Findings).

## Model

| member | source | states |
|---|---|---|
| Sampling.RandomSubset | proctor/src/proctor.cpp:29-41 | For `r <= n` and any `rand()` outcomes the loop returns the reference draws `Draw(0 .. n - 1, rolls)`: exactly `r` values, each in `[0, n)`, pairwise distinct; when `r == n` every index is drawn |
| Sampling.LoopStep | proctor/src/proctor.cpp:35-39 | One loop iteration keeps "values picked so far followed by the draws still due from the live prefix `bag[..edge]`" equal to the full draw, although the swap writes into the whole vector |
| Sampling.SwapToBack | proctor/src/proctor.cpp:36-38 | One pick keeps the partition: live bag and picked values are duplicate-free, disjoint, and together hold exactly `[0, n)` |
| Sampling.InitialPartition | proctor/src/proctor.cpp:31-33 | The filled bag `0 .. n - 1` with nothing picked is such a partition |
| Sampling.DrawKeepsPartition | proctor/src/proctor.cpp:35-39 | Drawing from a partitioned bag adds only in-range values not picked before; drawing the bag empty yields every index |
| Sampling.DrawIsSubset | proctor/src/proctor.cpp:29-41 | The reference draws from the full bag are `r` distinct indices in `[0, n)`, all of them when `r == n` |
| Confusion.Empty | proctor/src/proctor.cpp:86 | A fresh matrix has zero total, zero trace and every cell zero |
| Confusion.Increment | proctor/src/proctor.cpp:108 | `increment` adds one to its own cell only; total grows by one, trace grows exactly when truth equals guess |
| Confusion.ReplayRecords | proctor/src/proctor.cpp:108 | A sequence of `increment` calls on a fresh matrix records exactly those calls |
| Confusion.ReplayTotals | proctor/src/proctor.cpp:216 | After any calls, `total()` is the call count, `trace()` the count of calls with guess = truth, and each cell the count of its pair |
| Confusion.ReplayOrderIndependent | proctor/src/proctor.cpp:216 | Reordering the calls changes no cell, no total and no trace |
| Trials.Train | proctor/src/proctor.cpp:43-68 | Training completes iff every model succeeds, and then the detector saw the first `numModels` catalog ids in catalog order; otherwise it aborts at the first failure with all earlier models trained |
| Trials.Touch | proctor/src/proctor.cpp:93 | `guesses[truth_id]` creates an empty tally for the truth id and changes no count |
| Trials.Bump | proctor/src/proctor.cpp:107 | `guesses_for_id[guessed_id] += 1` adds one to that (truth, guess) count only |
| Trials.RunTrials | proctor/src/proctor.cpp:88-121 | After `k` trials there are `k` rows per table; row `ni` is the detector's output when trial `ni` answered and `numModels` zeros when it raised |
| Trials.Test | proctor/src/proctor.cpp:82-121 | A test run records one classifier row and one registration row per trial, as the detector left them or zeroed on failure |
| Trials.TotalCountsAnswered | proctor/src/proctor.cpp:103-117 | Confusion total equals the number of trials whose query did not raise |
| Trials.TraceCountsCorrect | proctor/src/proctor.cpp:105-108 | Confusion trace equals the number of trials whose guess was the ground truth |
| Trials.CellCountsPairs | proctor/src/proctor.cpp:105-108 | Each cell counts exactly the answered trials with that (truth, guess) |
| Trials.AnsweredAtMost | proctor/src/proctor.cpp:88-117 | At most `k` of `k` trials answer, and exactly `k` iff none raised |
| Trials.TotalAtMostTrials | proctor/src/proctor.cpp:88-117 | Confusion total is at most the number of trials, and equal iff no query raised |
| Trials.TallyMatchesMatrix | proctor/src/proctor.cpp:91-108 | The per-truth guess tally and the confusion matrix agree on every pair; every ground truth used has a tally entry, even if all its queries failed |
| Trials.AlwaysRaising | proctor/src/proctor.cpp:111-117 | A detector that always raises leaves total 0 and every row of both tables all-zero with `numModels` entries |
| Trials.TablesShaped | proctor/src/proctor.cpp:105-116 | If the detector writes rows of the configured width, both tables are `numTrials` by `numModels` |
| Trials.TruthId | proctor/src/proctor.cpp:91 | The ground truth of trial `ni` is catalog entry `ni % size` |
| Trials.SlotIsModulo | proctor/src/proctor.cpp:91 | The catalog position used in trial `ni` is `ni % size` |
| Trials.RoundRobinCoverage | proctor/src/proctor.cpp:88-91 | Over `T` trials each catalog position is ground truth `T / size` times, plus one for the first `T % size` positions |
| Trials.RoundRobinExample | proctor/src/proctor.cpp:91 | Catalog A, B, C over 7 trials gives A, B, C, A, B, C, A |
| PrecisionRecall.RowDetections | proctor/src/proctor.cpp:140-144 | Every detection of a trial is a nonzero registration entry of that trial, carrying that entry's distance, in model order |
| PrecisionRecall.RowDetectionsMembers | proctor/src/proctor.cpp:140-144 | A detection is in a trial's list exactly when it is a nonzero registration entry of that trial |
| PrecisionRecall.DetectionsFrom | proctor/src/proctor.cpp:139-145 | Detections of the later trials are exactly their nonzero entries, in row-major order |
| PrecisionRecall.Detections | proctor/src/proctor.cpp:137-145 | The detection list holds exactly the nonzero registration entries, none at distance 0, each slot once |
| PrecisionRecall.NoAttemptsNoDetections | proctor/src/proctor.cpp:142 | An all-zero registration table gives no detections |
| PrecisionRecall.Insert | proctor/src/proctor.cpp:132-134 | Inserting into a list that is sorted under `operator<` on distances (no entry less than an earlier one) keeps it sorted and adds exactly that detection |
| PrecisionRecall.Sort | proctor/src/proctor.cpp:146 | The result is ascending by distance and a permutation of the input |
| PrecisionRecall.Walk | proctor/src/proctor.cpp:147-158 | Each emitted point sits at a true-model detection, at a strictly later rank than the previous one, with the running correct count |
| PrecisionRecall.WalkLength | proctor/src/proctor.cpp:148-150 | The walk emits one point per true-model detection |
| PrecisionRecall.WalkEmitsEveryHit | proctor/src/proctor.cpp:149-151 | No true-model detection is skipped |
| PrecisionRecall.CurveCountsPrefix | proctor/src/proctor.cpp:147-157 | At each point, the correct count is the number of true-model detections among the first `di + 1` ranked detections |
| PrecisionRecall.Curve | proctor/src/proctor.cpp:147-158 | The `k`-th point has correct count `k + 1`, rank positions strictly increase, and the detection at each point's rank is a true-model one |
| PrecisionRecall.CurveLength | proctor/src/proctor.cpp:148-157 | The curve has exactly one point per true-model detection in the ranking |
| PrecisionRecall.CurveEmitsEveryHit | proctor/src/proctor.cpp:149-151 | Every true-model detection produces a point at its own rank |
| PrecisionRecall.PrecisionInUnitRange | proctor/src/proctor.cpp:153 | Precision `correct / (di + 1)` is in (0, 1] at every point |
| PrecisionRecall.RecallIncreasing | proctor/src/proctor.cpp:154 | Recall `correct / num_trials` strictly increases from point to point |
| PrecisionRecall.RowHits | proctor/src/proctor.cpp:140-149 | A trial's detections contain one true-model detection exactly when its true model's registration was attempted, and none otherwise |
| PrecisionRecall.DetectionHitsPerTrial | proctor/src/proctor.cpp:139-149 | No two true-model detections in the list belong to the same trial, so there are at most as many as trials |
| PrecisionRecall.CurvePointsDistinctTrials | proctor/src/proctor.cpp:146-151 | Whatever order the sort leaves, no two curve points come from the same trial |
| PrecisionRecall.SortedHitsPerTrial | proctor/src/proctor.cpp:146-150 | Whatever order the sort leaves, the curve has one point per hit, no two points share a trial, and there are at most as many points as trials |
| PrecisionRecall.CurveBoundedByTrials | proctor/src/proctor.cpp:147-157 | Correct count never exceeds the number of trials and recall never exceeds 1 |
| PrecisionRecall.PrecisionRecallCurve | proctor/src/proctor.cpp:136-159 | The whole derivation emits exactly one point per true-model detection in the detection list, and no more points than trials |
| PrecisionRecall.UnattemptedTruthNeverCounted | proctor/src/proctor.cpp:142-149 | A trial whose true model has registration distance 0 never produces a point |
| ClassifierStats.Scan | proctor/src/proctor.cpp:170-173 | Above and tied counts never exceed the candidates scanned; a candidate level with the votes makes the tie at least 1 |
| ClassifierStats.ScanCounts | proctor/src/proctor.cpp:170-173 | The scan counts exactly the candidates voted strictly higher and those voted equal |
| ClassifierStats.PlacingOf | proctor/src/proctor.cpp:165-173 | `1 <= rank <= numModels`, `tie >= 1`, and `(rank - 1) + tie <= numModels` |
| ClassifierStats.PlacingCounts | proctor/src/proctor.cpp:165-173 | `rank` is 1 plus the number of strictly higher votes; `tie` the number of equal votes, the true model's own slot included |
| ClassifierStats.AccumulateFrom | proctor/src/proctor.cpp:164-178 | Over the `n` trials from `ni` on, each adds between 1 and `numModels` to the area and between 3 and `2 * numModels + 1` to `avgTwice`: `n <= area <= numModels * n`, `3n <= avgTwice <= (2 * numModels + 1) * n` |
| ClassifierStats.Accumulate | proctor/src/proctor.cpp:164-178 | Over all trials: `numTrials <= area <= numModels * numTrials` and `3 * numTrials <= avgTwice <= (2 * numModels + 1) * numTrials` |
| ClassifierStats.MeanRank | proctor/src/proctor.cpp:164-179 | The printed average rank `avg / num_trials`, over at least one trial, lies between 1.5 and `numModels + 0.5` |
| ClassifierStats.PerfectPlacing | proctor/src/proctor.cpp:166-173 | A true model strictly ahead of all others has rank 1 and tie 1 |
| ClassifierStats.PerfectClassifier | proctor/src/proctor.cpp:164-179 | If the true model always strictly leads, area is `numModels * numTrials` and the reported average rank is 1.5 |
| ClassifierStats.SelfTieExample | proctor/src/proctor.cpp:175 | One trial, votes [1.0, 0.0], true model 0: the reported average rank is 1.5 |
| ClassifierStats.PerfectClassifierMidRank | proctor/src/proctor.cpp:175 | With mid-ranks `rank + (tie - 1) / 2`, a perfect classifier's average rank is 1.0 |
| ClassifierStats.MidRankTwice | proctor/src/proctor.cpp:165-175 | Twice one trial's mid-rank `rank + (tie - 1) / 2` lies between 2 and twice the number of candidates |
| ClassifierStats.MidRankBoundsFrom | proctor/src/proctor.cpp:175 | Each trial's mid-rank lies between 1 and `numModels`, and the mid-ranks of `n` trials sum to between `n` and `numModels * n`, so their mean lies in `[1, numModels]` |
| Report.ZeroRowsFrom | proctor/src/proctor.cpp:164-178 | All-zero classifier rows rank the true model first with a tie of `numModels` in every trial |
| Report.AlwaysRaisingReport | proctor/src/proctor.cpp:111-182 | If every query raises, the curve is empty, yet the area is at its maximum `numModels * numTrials` |
| Report.CurveAtMostOnePerTrial | proctor/src/proctor.cpp:136-159 | For any test run and any order the sort leaves, the curve has at most one point per trial |

## Left out

- Console output: every `cout`/`printf`, `printTimer`, `printResults`'s
  formatting and `printConfusionMatrix`. Its percentage at
  proctor/src/proctor.cpp:216 is a float division by `total()` and is
  undefined when no query succeeded; it is not modelled.
- The timer accumulators and phases (proctor/src/proctor.cpp:50, 65, 95-118,
  190-193): they measure wall-clock time. In the code the training-phase
  stop at line 65 covers the whole loop, detector training included.
- `ConfusionMatrix` internals and `printMatrix`: `confusion_matrix.h` is not
  part of this model. The matrix is modelled only through `increment`,
  `trace` and `total`.
- `Scene`, `PointCloud`, VTK and the model source's `getModelIDs`,
  `getTrainingModel` and `getTestModel`: foreign library calls. Their
  outcomes during training are folded into the training oracle; a scan
  during testing is folded into the scene the detector is given.
- The detector's `train` and `query` algorithms and `printTimer`.
- The viewpoint constants (proctor/src/proctor.cpp:17-27) and the
  commented-out scene preparation (lines 72-80): no logic uses them.
- `srand(seed)` and the uniformity of `rand()`: the random source is the
  explicit `rolls` input, so the sampler's distribution is not modelled.
- Float behaviour: votes and distances are `real`, so NaN, negative zero
  and rounding of the `float` accumulator `avg` are not modelled.
- Sampling.RandomSubset requires `r <= n` and non-negative sizes: with
  `r > n` the source's loop reaches `rand() % 0`, which is undefined, and a
  negative `n` fails when the vector is built.
- ClassifierStats.MeanRank and the curve's `Recall` require at least one
  trial; the source divides by `num_trials`, a positive configuration
  constant.
- Trials.Test: assumes `getTestModel` never throws and `query` throws only
  `std::exception`. In the source, `getTestModel` (line 96) runs outside the
  `try` at line 103, and the handler at line 111 catches only
  `std::exception`; any other throw ends `test`, so the later trials do not
  run and `printConfusionMatrix` (line 123) is skipped. The model has no
  aborting outcome for testing.
- Trials.Train: states completion and order, not what the detector does
  with each scene (the detector is opaque).

## Findings

| source | as written | input that shows it | evidently intended | confidence | as-written member | corrected member |
|---|---|---|---|---|---|---|
| proctor/src/proctor.cpp:175 | each trial adds `rank` plus half of `tie`, where `tie` counts the true model's own slot | one trial, votes [1.0, 0.0], true model 0: rank 1, tie 1, average rank 1.5 | the comments at lines 162 ("average rank of correct id") and 174 ("contribute to average rank") call it the true model's average rank; under the usual mid-rank convention, `rank + (tie - 1) / 2`, a perfect classifier averages 1.0 | medium, not executed | ClassifierStats.SelfTieExample | ClassifierStats.PerfectClassifierMidRank |

The printed statistics (`ClassifierStats.Accumulate`, used by `Report`) keep
the as-written formula; `ClassifierStats.MeanMidRank` is the corrected
average.
