/** The experiment protocol of `Proctor::train` and `Proctor::test`.

    The model source and the detector are collaborators whose internals are not
    part of this model. Training is an oracle saying, per catalog position,
    whether acquiring the training scene and training on it completed (a C++
    exception there aborts the run). A test query is a total function from the
    scene presented (trial index and ground-truth id, standing for the scanned
    cloud) to the detector's answer: a guessed id with the two result rows it
    wrote, or a `std::exception`, the only kind the test loop catches. */
module Trials {
  import opened Arith
  import opened Tables
  import opened Confusion

  // ---------------------------------------------------------------- training

  datatype TrainResult =
    | Trained(order: seq<Id>)   // ids handed to the detector, in that order
    | Aborted(at: nat)          // catalog position whose acquisition or training threw

  /** Training positions `mi .. numModels - 1` in catalog order. */
  function TrainFrom(ids: seq<Id>, numModels: nat, trains: (nat, Id) -> bool, mi: nat): (r: TrainResult)
    requires numModels <= |ids| && mi <= numModels
    ensures r.Trained? <==> forall j :: mi <= j < numModels ==> trains(j, ids[j])
    ensures r.Trained? ==> r.order == ids[mi..numModels]
    ensures r.Aborted? ==> mi <= r.at < numModels && !trains(r.at, ids[r.at])
    ensures r.Aborted? ==> forall j :: mi <= j < r.at ==> trains(j, ids[j])
    decreases numModels - mi
  {
    if mi == numModels then Trained([])
    else if !trains(mi, ids[mi]) then Aborted(mi)
    else match TrainFrom(ids, numModels, trains, mi + 1)
      case Trained(later) =>
        assert ids[mi..numModels] == [ids[mi]] + ids[mi + 1..numModels];
        Trained([ids[mi]] + later)
      case Aborted(at) => Aborted(at)
  }

  /** `train`: the first `numModels` catalog ids are trained one by one in
      catalog order; the run completes only if every one of them succeeds, and
      otherwise stops at the first failure with all earlier models trained.
      The source indexes the catalog up to the configured model count without
      a check, so the catalog must be at least that long. */
  function Train(ids: seq<Id>, numModels: nat, trains: (nat, Id) -> bool): (r: TrainResult)
    requires numModels <= |ids|
    ensures r.Trained? <==> forall mi :: 0 <= mi < numModels ==> trains(mi, ids[mi])
    ensures r.Trained? ==> r.order == ids[..numModels]
    ensures r.Aborted? ==> r.at < numModels && !trains(r.at, ids[r.at])
    ensures r.Aborted? ==> forall mi :: 0 <= mi < r.at ==> trains(mi, ids[mi])
  {
    var r := TrainFrom(ids, numModels, trains, 0);
    assert ids[0..numModels] == ids[..numModels];
    r
  }

  // ----------------------------------------------------------------- testing

  datatype Scene = Scene(trial: nat, truthId: Id)

  datatype QueryResult =
    | Guessed(guessId: Id, classifierRow: Row, registrationRow: Row)
    | Raised

  /** Catalog position used in trial `ni`: `ni % size`, written as repeated
      subtraction so that it stays linear arithmetic (see `SlotIsModulo`). */
  function Slot(ni: nat, size: nat): (slot: nat)
    requires size > 0
    ensures slot < size
  {
    if ni < size then ni else Slot(ni - size, size)
  }

  lemma {:induction false} SlotIsModulo(ni: nat, size: nat)
    requires size > 0
    ensures Slot(ni, size) == ni % size
  {
    if ni >= size {
      SlotIsModulo(ni - size, size);
      DivModUnique(ni, size, (ni - size) / size + 1, (ni - size) % size);
    }
  }

  /** Ground truth of trial `ni`: the catalog, round-robin. */
  function TruthId(catalog: seq<Id>, ni: nat): (id: Id)
    requires |catalog| > 0
    ensures id == catalog[ni % |catalog|]
  {
    SlotIsModulo(ni, |catalog|);
    catalog[Slot(ni, |catalog|)]
  }

  /** The detector's answer in trial `ni`. */
  function Query(catalog: seq<Id>, detector: Scene -> QueryResult, ni: nat): QueryResult
    requires |catalog| > 0
  {
    detector(Scene(ni, TruthId(catalog, ni)))
  }

  /** The per-truth guess tally `guesses[truth][guess]`. */
  type Tally = map<Id, map<Id, nat>>

  function Guesses(g: Tally, truth: Id, guess: Id): nat {
    if truth in g && guess in g[truth] then g[truth][guess] else 0
  }

  /** `guesses[truth_id]`: default-inserts an empty inner map, counting nothing. */
  function Touch(g: Tally, truth: Id): (g': Tally)
    ensures truth in g' && g'.Keys == g.Keys + {truth}
    ensures forall t, x :: Guesses(g', t, x) == Guesses(g, t, x)
  {
    if truth in g then g else g[truth := map[]]
  }

  /** `guesses_for_id[guessed_id] += 1`: one count added to that pair alone. */
  function Bump(g: Tally, truth: Id, guess: Id): (g': Tally)
    requires truth in g
    ensures g'.Keys == g.Keys
    ensures Guesses(g', truth, guess) == Guesses(g, truth, guess) + 1
    ensures forall t, x :: (t, x) != (truth, guess) ==> Guesses(g', t, x) == Guesses(g, t, x)
  {
    var row: map<Id, nat> := g[truth][guess := Guesses(g, truth, guess) + 1];
    g[truth := row]
  }

  datatype TestState = TestState(classifier: Table, registration: Table, confusion: Matrix, guesses: Tally)

  /** The rows trial bookkeeping leaves for an answer: the detector's own rows
      on success, `numModels` zeros after a caught `std::exception`. */
  predicate RowsAfter(q: QueryResult, numModels: nat, classifierRow: Row, registrationRow: Row) {
    match q
    case Guessed(_, c, r) => classifierRow == c && registrationRow == r
    case Raised => classifierRow == Zeros(numModels) && registrationRow == Zeros(numModels)
  }

  /** State after trials `0 .. k - 1`. */
  function RunTrials(catalog: seq<Id>, detector: Scene -> QueryResult, numModels: nat, k: nat): (st: TestState)
    requires |catalog| > 0
    ensures |st.classifier| == k && |st.registration| == k
    ensures forall ni :: 0 <= ni < k ==>
      RowsAfter(Query(catalog, detector, ni), numModels, st.classifier[ni], st.registration[ni])
    decreases k
  {
    if k == 0 then TestState([], [], Empty(), map[])
    else
      var st := RunTrials(catalog, detector, numModels, k - 1);
      var truth := TruthId(catalog, k - 1);
      var guesses := Touch(st.guesses, truth);
      match Query(catalog, detector, k - 1)
      case Guessed(guess, c, r) =>
        TestState(st.classifier + [c], st.registration + [r],
                  Increment(st.confusion, truth, guess), Bump(guesses, truth, guess))
      case Raised =>
        TestState(st.classifier + [Zeros(numModels)], st.registration + [Zeros(numModels)],
                  st.confusion, guesses)
  }

  /** `test`: `numTrials` trials over a non-empty catalog (the source takes
      the trial index modulo the catalog size). */
  function Test(catalog: seq<Id>, detector: Scene -> QueryResult, numModels: nat, numTrials: nat): (st: TestState)
    requires |catalog| > 0
    ensures |st.classifier| == numTrials && |st.registration| == numTrials
    ensures forall ni :: 0 <= ni < numTrials ==>
      RowsAfter(Query(catalog, detector, ni), numModels, st.classifier[ni], st.registration[ni])
  {
    RunTrials(catalog, detector, numModels, numTrials)
  }

  // --------------------------------------------------------------- properties

  /** Trials among the first `k` in which the detector produced a guess. */
  function Answered(catalog: seq<Id>, detector: Scene -> QueryResult, k: nat): set<nat>
    requires |catalog| > 0
  {
    set ni: nat | ni < k && Query(catalog, detector, ni).Guessed?
  }

  /** Answered trials whose guess was the ground truth. */
  function Correct(catalog: seq<Id>, detector: Scene -> QueryResult, k: nat): set<nat>
    requires |catalog| > 0
  {
    set ni: nat | ni < k && Query(catalog, detector, ni).Guessed?
                         && Query(catalog, detector, ni).guessId == TruthId(catalog, ni)
  }

  /** Answered trials with ground truth `truth` and guess `guess`. */
  function Pair(catalog: seq<Id>, detector: Scene -> QueryResult, k: nat, truth: Id, guess: Id): set<nat>
    requires |catalog| > 0
  {
    set ni: nat | ni < k && Query(catalog, detector, ni).Guessed?
                         && TruthId(catalog, ni) == truth
                         && Query(catalog, detector, ni).guessId == guess
  }

  /** One trial's effect on the confusion matrix and the tally. */
  lemma TrialStep(catalog: seq<Id>, detector: Scene -> QueryResult, numModels: nat, k: nat)
    requires |catalog| > 0 && k > 0
    ensures var before := RunTrials(catalog, detector, numModels, k - 1);
            var after := RunTrials(catalog, detector, numModels, k);
            var truth := TruthId(catalog, k - 1);
            var q := Query(catalog, detector, k - 1);
            && after.guesses.Keys == before.guesses.Keys + {truth}
            && (q.Guessed? ==>
                  after.confusion == Increment(before.confusion, truth, q.guessId) &&
                  after.guesses == Bump(Touch(before.guesses, truth), truth, q.guessId))
            && (q.Raised? ==>
                  after.confusion == before.confusion &&
                  after.guesses == Touch(before.guesses, truth))
  {
  }

  lemma AnsweredStep(catalog: seq<Id>, detector: Scene -> QueryResult, k: nat)
    requires |catalog| > 0 && k > 0
    ensures |Answered(catalog, detector, k)| == |Answered(catalog, detector, k - 1)|
              + (if Query(catalog, detector, k - 1).Guessed? then 1 else 0)
  {
    var q := Query(catalog, detector, k - 1);
    assert Answered(catalog, detector, k)
           == Answered(catalog, detector, k - 1) + (if q.Guessed? then {k - 1} else {});
  }

  lemma CorrectStep(catalog: seq<Id>, detector: Scene -> QueryResult, k: nat)
    requires |catalog| > 0 && k > 0
    ensures var q := Query(catalog, detector, k - 1);
            |Correct(catalog, detector, k)| == |Correct(catalog, detector, k - 1)|
              + (if q.Guessed? && q.guessId == TruthId(catalog, k - 1) then 1 else 0)
  {
    var q := Query(catalog, detector, k - 1);
    assert Correct(catalog, detector, k)
           == Correct(catalog, detector, k - 1)
              + (if q.Guessed? && q.guessId == TruthId(catalog, k - 1) then {k - 1} else {});
  }

  lemma PairStep(catalog: seq<Id>, detector: Scene -> QueryResult, k: nat, t: Id, g: Id)
    requires |catalog| > 0 && k > 0
    ensures var q := Query(catalog, detector, k - 1);
            |Pair(catalog, detector, k, t, g)| == |Pair(catalog, detector, k - 1, t, g)|
              + (if q.Guessed? && TruthId(catalog, k - 1) == t && q.guessId == g then 1 else 0)
  {
    var q := Query(catalog, detector, k - 1);
    assert Pair(catalog, detector, k, t, g)
           == Pair(catalog, detector, k - 1, t, g)
              + (if q.Guessed? && TruthId(catalog, k - 1) == t && q.guessId == g then {k - 1} else {});
  }

  /** A failed query adds nothing to the confusion matrix and a successful one
      adds one entry: the total is the number of answered trials. */
  lemma {:induction false} TotalCountsAnswered(catalog: seq<Id>, detector: Scene -> QueryResult, numModels: nat, k: nat)
    requires |catalog| > 0
    ensures Total(RunTrials(catalog, detector, numModels, k).confusion) == |Answered(catalog, detector, k)|
  {
    if k > 0 {
      TotalCountsAnswered(catalog, detector, numModels, k - 1);
      AnsweredStep(catalog, detector, k);
      var before := RunTrials(catalog, detector, numModels, k - 1).confusion;
      var after := RunTrials(catalog, detector, numModels, k).confusion;
      assert Total(after) == Total(before) + (if Query(catalog, detector, k - 1).Guessed? then 1 else 0) by {
        TrialStep(catalog, detector, numModels, k);
      }
    }
  }

  /** The trace is the number of trials whose guess was the ground truth. */
  lemma {:induction false} TraceCountsCorrect(catalog: seq<Id>, detector: Scene -> QueryResult, numModels: nat, k: nat)
    requires |catalog| > 0
    ensures Trace(RunTrials(catalog, detector, numModels, k).confusion) == |Correct(catalog, detector, k)|
  {
    if k > 0 {
      TraceCountsCorrect(catalog, detector, numModels, k - 1);
      CorrectStep(catalog, detector, k);
      var before := RunTrials(catalog, detector, numModels, k - 1).confusion;
      var after := RunTrials(catalog, detector, numModels, k).confusion;
      var q := Query(catalog, detector, k - 1);
      assert Trace(after) == Trace(before) + (if q.Guessed? && q.guessId == TruthId(catalog, k - 1) then 1 else 0) by {
        TrialStep(catalog, detector, numModels, k);
      }
    }
  }

  /** Each cell counts exactly the answered trials with that (truth, guess). */
  lemma {:induction false} CellCountsPairs(catalog: seq<Id>, detector: Scene -> QueryResult, numModels: nat, k: nat, t: Id, g: Id)
    requires |catalog| > 0
    ensures Cell(RunTrials(catalog, detector, numModels, k).confusion, t, g) == |Pair(catalog, detector, k, t, g)|
  {
    if k > 0 {
      CellCountsPairs(catalog, detector, numModels, k - 1, t, g);
      PairStep(catalog, detector, k, t, g);
      var before := RunTrials(catalog, detector, numModels, k - 1).confusion;
      var after := RunTrials(catalog, detector, numModels, k).confusion;
      var q := Query(catalog, detector, k - 1);
      assert Cell(after, t, g) == Cell(before, t, g)
             + (if q.Guessed? && TruthId(catalog, k - 1) == t && q.guessId == g then 1 else 0) by {
        TrialStep(catalog, detector, numModels, k);
      }
    }
  }

  /** The confusion total never exceeds the number of trials; it falls short
      by exactly the number of failed queries. */
  lemma {:induction false} TotalAtMostTrials(catalog: seq<Id>, detector: Scene -> QueryResult, numModels: nat, k: nat)
    requires |catalog| > 0
    ensures Total(RunTrials(catalog, detector, numModels, k).confusion) <= k
    ensures Total(RunTrials(catalog, detector, numModels, k).confusion) == k <==>
            forall ni :: 0 <= ni < k ==> Query(catalog, detector, ni).Guessed?
  {
    TotalCountsAnswered(catalog, detector, numModels, k);
    AnsweredAtMost(catalog, detector, k);
  }

  lemma {:induction false} AnsweredAtMost(catalog: seq<Id>, detector: Scene -> QueryResult, k: nat)
    requires |catalog| > 0
    ensures |Answered(catalog, detector, k)| <= k
    ensures |Answered(catalog, detector, k)| == k <==> forall ni :: 0 <= ni < k ==> Query(catalog, detector, ni).Guessed?
  {
    if k > 0 {
      AnsweredAtMost(catalog, detector, k - 1);
      AnsweredStep(catalog, detector, k);
    }
  }

  /** The per-truth guess tally and the confusion matrix count the same
      pairs, and every ground-truth id used so far has a tally entry, even
      when all of its queries failed. */
  lemma {:induction false} TallyMatchesMatrix(catalog: seq<Id>, detector: Scene -> QueryResult, numModels: nat, k: nat)
    requires |catalog| > 0
    ensures forall t, g :: Guesses(RunTrials(catalog, detector, numModels, k).guesses, t, g)
                           == Cell(RunTrials(catalog, detector, numModels, k).confusion, t, g)
    ensures forall ni :: 0 <= ni < k ==> TruthId(catalog, ni) in RunTrials(catalog, detector, numModels, k).guesses
  {
    if k > 0 {
      TallyMatchesMatrix(catalog, detector, numModels, k - 1);
      var before := RunTrials(catalog, detector, numModels, k - 1);
      var after := RunTrials(catalog, detector, numModels, k);
      var q := Query(catalog, detector, k - 1);
      var truth := TruthId(catalog, k - 1);
      assert after.guesses.Keys == before.guesses.Keys + {truth} by {
        TrialStep(catalog, detector, numModels, k);
      }
      forall t, g
        ensures Guesses(after.guesses, t, g) == Cell(after.confusion, t, g)
      {
        var d := if q.Guessed? && t == truth && q.guessId == g then 1 else 0;
        assert Guesses(after.guesses, t, g) == Guesses(before.guesses, t, g) + d
            && Cell(after.confusion, t, g) == Cell(before.confusion, t, g) + d by {
          TrialStep(catalog, detector, numModels, k);
          assert Guesses(Touch(before.guesses, truth), t, g) == Guesses(before.guesses, t, g);
        }
      }
    }
  }

  /** A detector that always raises: nothing enters the confusion matrix and
      every result row is all zeros, yet every trial is recorded. */
  lemma AlwaysRaising(catalog: seq<Id>, detector: Scene -> QueryResult, numModels: nat, numTrials: nat)
    requires |catalog| > 0
    requires forall ni :: 0 <= ni < numTrials ==> Query(catalog, detector, ni) == Raised
    ensures Total(Test(catalog, detector, numModels, numTrials).confusion) == 0
    ensures Shaped(Test(catalog, detector, numModels, numTrials).classifier, numTrials, numModels)
    ensures Shaped(Test(catalog, detector, numModels, numTrials).registration, numTrials, numModels)
    ensures forall ni :: 0 <= ni < numTrials ==>
      IsZeroRow(Test(catalog, detector, numModels, numTrials).classifier[ni]) &&
      IsZeroRow(Test(catalog, detector, numModels, numTrials).registration[ni])
  {
    TotalCountsAnswered(catalog, detector, numModels, numTrials);
    assert Answered(catalog, detector, numTrials) == {};
  }

  /** When the detector fills rows of the configured width, both result
      tables have one row of `numModels` entries per trial. */
  lemma TablesShaped(catalog: seq<Id>, detector: Scene -> QueryResult, numModels: nat, numTrials: nat)
    requires |catalog| > 0
    requires forall ni :: 0 <= ni < numTrials && Query(catalog, detector, ni).Guessed? ==>
      |Query(catalog, detector, ni).classifierRow| == numModels &&
      |Query(catalog, detector, ni).registrationRow| == numModels
    ensures Shaped(Test(catalog, detector, numModels, numTrials).classifier, numTrials, numModels)
    ensures Shaped(Test(catalog, detector, numModels, numTrials).registration, numTrials, numModels)
  {
  }

  /** Trials whose ground truth is catalog position `k`. */
  function UsesOf(size: nat, k: nat, numTrials: nat): set<nat>
    requires size > 0
  {
    set ni: nat | ni < numTrials && Slot(ni, size) == k
  }

  /** One more trial adds trial `t` to the uses of its own slot only. */
  lemma UsesStep(size: nat, k: nat, t: nat)
    requires k < size
    ensures |UsesOf(size, k, t + 1)| == |UsesOf(size, k, t)| + (if Slot(t, size) == k then 1 else 0)
  {
    if Slot(t, size) == k {
      assert UsesOf(size, k, t + 1) == UsesOf(size, k, t) + {t};
    } else {
      assert UsesOf(size, k, t + 1) == UsesOf(size, k, t);
    }
  }

  /** The closed form grows by one exactly when trial `t` lands on `k`. */
  lemma QuotientStep(size: nat, k: nat, t: nat)
    requires k < size
    ensures (t + 1) / size + (if k < (t + 1) % size then 1 else 0)
         == t / size + (if k < t % size then 1 else 0) + (if t % size == k then 1 else 0)
  {
    var q, r := t / size, t % size;
    if r + 1 < size {
      DivModUnique(t + 1, size, q, r + 1);
    } else {
      DivModUnique(t + 1, size, q + 1, 0);
    }
  }

  /** Round-robin coverage: over `numTrials` trials each catalog position is the
      ground truth `numTrials / size` times, plus once more for the first
      `numTrials % size` positions. */
  lemma {:induction false} RoundRobinCoverage(size: nat, k: nat, numTrials: nat)
    requires k < size
    ensures |UsesOf(size, k, numTrials)| == numTrials / size + (if k < numTrials % size then 1 else 0)
  {
    if numTrials > 0 {
      var t := numTrials - 1;
      RoundRobinCoverage(size, k, t);
      UsesStep(size, k, t);
      QuotientStep(size, k, t);
      SlotIsModulo(t, size);
    }
  }

  /** Three catalog models over seven trials: A, B, C, A, B, C, A. */
  lemma RoundRobinExample()
    ensures seq(7, ni requires 0 <= ni => TruthId(["A", "B", "C"], ni)) == ["A", "B", "C", "A", "B", "C", "A"]
  {
    assert Slot(6, 3) == Slot(3, 3) == Slot(0, 3) == 0;
    assert Slot(4, 3) == Slot(1, 3) == 1;
    assert Slot(5, 3) == Slot(2, 3) == 2;
  }
}
