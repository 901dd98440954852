/** `Proctor::printPrecisionRecall`: every attempted registration becomes a
    detection, detections are ranked by ascending registration distance, and a
    curve point is emitted at each detection whose candidate is the trial's
    true model. The printed triple (precision, recall, distance) is returned as
    data instead of printed. */
module PrecisionRecall {
  import opened Arith
  import opened Counting
  import opened Tables

  /** One attempted registration: trial, candidate model, distance. */
  datatype Detection = Detection(ni: nat, mi: nat, distance: real)

  /** `operator<` on detections: compares distances only. */
  predicate Less(a: Detection, b: Detection) {
    a.distance < b.distance
  }

  /** Row-major order of the (trial, model) slots, the order the detection
      list is built in. */
  predicate SlotBefore(a: Detection, b: Detection) {
    a.ni < b.ni || (a.ni == b.ni && a.mi < b.mi)
  }

  predicate InSlotOrder(ds: seq<Detection>) {
    forall i, j :: 0 <= i < j < |ds| ==> SlotBefore(ds[i], ds[j])
  }

  /** A registration-table entry that is an attempted registration. */
  predicate Attempted(reg: Table, d: Detection) {
    d.ni < |reg| && d.mi < |reg[d.ni]| && reg[d.ni][d.mi] != 0.0 && d.distance == reg[d.ni][d.mi]
  }

  /** Detections of trial `ni` from model `mi` on; a zero distance means the
      detector did not attempt that model and is skipped. */
  function RowDetections(row: Row, ni: nat, mi: nat): (ds: seq<Detection>)
    requires mi <= |row|
    ensures forall k :: 0 <= k < |ds| ==>
      ds[k].ni == ni && mi <= ds[k].mi < |row| && row[ds[k].mi] != 0.0 && ds[k].distance == row[ds[k].mi]
    ensures InSlotOrder(ds)
    decreases |row| - mi
  {
    if mi == |row| then []
    else if row[mi] == 0.0 then RowDetections(row, ni, mi + 1)
    else [Detection(ni, mi, row[mi])] + RowDetections(row, ni, mi + 1)
  }

  /** A detection is in trial `ni`'s list from model `mi` on exactly when it
      is a nonzero entry of that row at or after `mi`. */
  lemma {:induction false} RowDetectionsMembers(row: Row, ni: nat, mi: nat)
    requires mi <= |row|
    ensures forall d :: d in RowDetections(row, ni, mi) <==>
      d.ni == ni && mi <= d.mi < |row| && row[d.mi] != 0.0 && d.distance == row[d.mi]
    decreases |row| - mi
  {
    if mi < |row| {
      RowDetectionsMembers(row, ni, mi + 1);
    }
  }

  /** Detections of trials `ni ..`, in row-major order. */
  function DetectionsFrom(reg: Table, ni: nat): (ds: seq<Detection>)
    requires ni <= |reg|
    ensures forall d :: d in ds <==> ni <= d.ni && Attempted(reg, d)
    ensures forall k :: 0 <= k < |ds| ==> ni <= ds[k].ni
    ensures InSlotOrder(ds)
    decreases |reg| - ni
  {
    if ni == |reg| then []
    else
      var row := RowDetections(reg[ni], ni, 0);
      RowDetectionsMembers(reg[ni], ni, 0);
      var rest := DetectionsFrom(reg, ni + 1);
      assert forall i, j :: 0 <= i < |row| && 0 <= j < |rest| ==> SlotBefore(row[i], rest[j]);
      row + rest
  }

  /** The detection list: exactly the attempted registrations, none with a
      zero distance, each (trial, model) slot once, in row-major order. */
  function Detections(reg: Table): (ds: seq<Detection>)
    ensures forall d :: d in ds <==> Attempted(reg, d)
    ensures forall k :: 0 <= k < |ds| ==> ds[k].distance != 0.0
    ensures InSlotOrder(ds)
  {
    DetectionsFrom(reg, 0)
  }

  /** A table in which no registration was attempted yields no detections. */
  lemma NoAttemptsNoDetections(reg: Table)
    requires forall ni :: 0 <= ni < |reg| ==> IsZeroRow(reg[ni])
    ensures Detections(reg) == []
  {
    NoAttemptsFrom(reg, 0);
  }

  lemma {:induction false} NoAttemptsFrom(reg: Table, ni: nat)
    requires ni <= |reg|
    requires forall j :: 0 <= j < |reg| ==> IsZeroRow(reg[j])
    ensures DetectionsFrom(reg, ni) == []
    decreases |reg| - ni
  {
    if ni < |reg| {
      NoAttemptsFrom(reg, ni + 1);
      NoAttemptsInRow(reg[ni], ni, 0);
    }
  }

  lemma {:induction false} NoAttemptsInRow(row: Row, ni: nat, mi: nat)
    requires mi <= |row| && IsZeroRow(row)
    ensures RowDetections(row, ni, mi) == []
    decreases |row| - mi
  {
    if mi < |row| {
      NoAttemptsInRow(row, ni, mi + 1);
    }
  }

  /** The order `std::sort` establishes with `operator<`: no detection is
      less than one before it. */
  predicate SortedByDistance(ds: seq<Detection>) {
    forall i, j :: 0 <= i < j < |ds| ==> !Less(ds[j], ds[i])
  }

  /** What `std::sort` may return: a permutation ascending by distance. The
      sort is not stable, so any order among equal distances is possible. */
  predicate IsSortingOf(sorted: seq<Detection>, ds: seq<Detection>) {
    SortedByDistance(sorted) && multiset(sorted) == multiset(ds)
  }

  function Insert(d: Detection, s: seq<Detection>): (r: seq<Detection>)
    requires SortedByDistance(s)
    ensures SortedByDistance(r)
    ensures multiset(r) == multiset{d} + multiset(s)
    ensures |r| == |s| + 1 && (r[0] == d || (|s| > 0 && r[0] == s[0]))
  {
    if |s| == 0 then [d]
    else if !Less(s[0], d) then [d] + s
    else
      var rest := Insert(d, s[1..]);
      assert s == [s[0]] + s[1..];
      assert |s| > 1 ==> !Less(s[1], s[0]);
      ConsSorted(s[0], rest);
      [s[0]] + rest
  }

  /** Putting a detection no farther than the head in front keeps the order. */
  lemma ConsSorted(x: Detection, rest: seq<Detection>)
    requires SortedByDistance(rest)
    requires |rest| > 0 ==> !Less(rest[0], x)
    ensures SortedByDistance([x] + rest)
  {
    var r := [x] + rest;
    assert forall k :: 0 < k < |r| ==> r[k] == rest[k - 1];
  }

  /** One ordering `std::sort` could produce. */
  function Sort(ds: seq<Detection>): (r: seq<Detection>)
    ensures IsSortingOf(r, ds)
  {
    if |ds| == 0 then []
    else
      assert ds == [ds[0]] + ds[1..];
      assert multiset(ds) == multiset{ds[0]} + multiset(ds[1..]);
      Insert(ds[0], Sort(ds[1..]))
  }

  /** A curve point: `correct` true detections among the first `seen` ranked
      detections, emitted at the distance of the `seen`-th. */
  datatype Point = Point(correct: nat, seen: nat, distance: real) {
    /** `correct / (di + 1)` */
    function Precision(): real
      requires seen > 0
    {
      correct as real / seen as real
    }

    /** `correct / num_trials` */
    function Recall(numTrials: nat): real
      requires numTrials > 0
    {
      correct as real / numTrials as real
    }
  }

  /** Detection of the trial's true model. Trials beyond `truth` never occur
      in a detection list built from a table with one row per trial. */
  predicate IsHit(d: Detection, truth: seq<nat>) {
    d.ni < |truth| && d.mi == truth[d.ni]
  }

  function Hit(truth: seq<nat>): Detection -> bool {
    d => IsHit(d, truth)
  }

  /** The ranked walk from position `di` with `correct` hits already counted. */
  function Walk(sorted: seq<Detection>, truth: seq<nat>, di: nat, correct: nat): (pts: seq<Point>)
    requires di <= |sorted|
    ensures forall k :: 0 <= k < |pts| ==> pts[k].correct == correct + k + 1
    ensures forall k :: 0 <= k < |pts| ==>
      di < pts[k].seen <= |sorted| && IsHit(sorted[pts[k].seen - 1], truth)
      && pts[k].distance == sorted[pts[k].seen - 1].distance
    ensures forall k, l :: 0 <= k < l < |pts| ==> pts[k].seen < pts[l].seen
    decreases |sorted| - di
  {
    if di == |sorted| then []
    else
      if IsHit(sorted[di], truth) then
        var rest := Walk(sorted, truth, di + 1, correct + 1);
        var pts := [Point(correct + 1, di + 1, sorted[di].distance)] + rest;
        assert forall k :: 0 < k < |pts| ==> pts[k] == rest[k - 1];
        pts
      else
        Walk(sorted, truth, di + 1, correct)
  }

  /** The walk emits one point per true-model detection from `di` on. */
  lemma {:induction false} WalkLength(sorted: seq<Detection>, truth: seq<nat>, di: nat, correct: nat)
    requires di <= |sorted|
    ensures |Walk(sorted, truth, di, correct)| == Count(sorted[di..], Hit(truth))
    decreases |sorted| - di
  {
    if di < |sorted| {
      var tail := sorted[di..];
      assert tail[1..] == sorted[di + 1..];
      assert Hit(truth)(tail[0]) == IsHit(sorted[di], truth);
      if IsHit(sorted[di], truth) {
        WalkLength(sorted, truth, di + 1, correct + 1);
      } else {
        WalkLength(sorted, truth, di + 1, correct);
      }
    }
  }

  /** No true-model detection is skipped: each one yields a point at its rank. */
  lemma {:induction false} WalkEmitsEveryHit(sorted: seq<Detection>, truth: seq<nat>, di: nat, correct: nat, i: nat)
    requires di <= i < |sorted| && IsHit(sorted[i], truth)
    ensures exists k :: 0 <= k < |Walk(sorted, truth, di, correct)| && Walk(sorted, truth, di, correct)[k].seen == i + 1
    decreases |sorted| - di
  {
    var pts := Walk(sorted, truth, di, correct);
    if di == i {
      assert pts[0].seen == i + 1;
    } else if IsHit(sorted[di], truth) {
      WalkEmitsEveryHit(sorted, truth, di + 1, correct + 1, i);
      var rest := Walk(sorted, truth, di + 1, correct + 1);
      var k :| 0 <= k < |rest| && rest[k].seen == i + 1;
      assert pts[k + 1] == rest[k];
    } else {
      WalkEmitsEveryHit(sorted, truth, di + 1, correct, i);
    }
  }

  /** The points emitted for a ranked detection list: one per true-model
      detection, at its rank, carrying the running count of such detections. */
  function Curve(sorted: seq<Detection>, truth: seq<nat>): (pts: seq<Point>)
    ensures forall k :: 0 <= k < |pts| ==> pts[k].correct == k + 1
    ensures forall k :: 0 <= k < |pts| ==>
      0 < pts[k].seen <= |sorted| && IsHit(sorted[pts[k].seen - 1], truth)
      && pts[k].distance == sorted[pts[k].seen - 1].distance
    ensures forall k, l :: 0 <= k < l < |pts| ==> pts[k].seen < pts[l].seen
  {
    assert sorted[0..] == sorted;
    Walk(sorted, truth, 0, 0)
  }

  /** The curve has one point per true-model detection in the ranking. */
  lemma CurveLength(sorted: seq<Detection>, truth: seq<nat>)
    ensures |Curve(sorted, truth)| == Count(sorted, Hit(truth))
  {
    WalkLength(sorted, truth, 0, 0);
    assert sorted[0..] == sorted;
  }

  /** Every true-model detection in the ranking produces a point at its rank. */
  lemma CurveEmitsEveryHit(sorted: seq<Detection>, truth: seq<nat>, i: nat)
    requires i < |sorted| && IsHit(sorted[i], truth)
    ensures exists k :: 0 <= k < |Curve(sorted, truth)| && Curve(sorted, truth)[k].seen == i + 1
  {
    WalkEmitsEveryHit(sorted, truth, 0, 0, i);
    var pts := Walk(sorted, truth, 0, 0);
    assert Curve(sorted, truth) == pts;
    var k :| 0 <= k < |pts| && pts[k].seen == i + 1;
    assert Curve(sorted, truth)[k].seen == i + 1;
  }

  /** One more ranked detection adds its own vote to the prefix count. */
  lemma PrefixCountStep(sorted: seq<Detection>, truth: seq<nat>, di: nat)
    requires di < |sorted|
    ensures Count(sorted[..di + 1], Hit(truth))
            == Count(sorted[..di], Hit(truth)) + (if IsHit(sorted[di], truth) then 1 else 0)
  {
    assert sorted[..di + 1] == sorted[..di] + [sorted[di]];
    CountAppend(sorted[..di], [sorted[di]], Hit(truth));
    CountCons(sorted[di], [], Hit(truth));
    assert [sorted[di]] + [] == [sorted[di]];
    assert Hit(truth)(sorted[di]) == IsHit(sorted[di], truth);
  }

  /** Started with the count of hits before `di`, the walk's running count at
      every point is the number of true-model detections among the first
      `seen` ranked detections. */
  lemma {:induction false} WalkCountsPrefix(sorted: seq<Detection>, truth: seq<nat>, di: nat, correct: nat)
    requires di <= |sorted| && correct == Count(sorted[..di], Hit(truth))
    ensures forall k :: 0 <= k < |Walk(sorted, truth, di, correct)| ==>
      Walk(sorted, truth, di, correct)[k].correct
      == Count(sorted[..Walk(sorted, truth, di, correct)[k].seen], Hit(truth))
    decreases |sorted| - di
  {
    if di < |sorted| {
      PrefixCountStep(sorted, truth, di);
      var pts := Walk(sorted, truth, di, correct);
      if IsHit(sorted[di], truth) {
        WalkCountsPrefix(sorted, truth, di + 1, correct + 1);
        var rest := Walk(sorted, truth, di + 1, correct + 1);
        assert pts == [Point(correct + 1, di + 1, sorted[di].distance)] + rest;
        forall k | 0 <= k < |pts|
          ensures pts[k].correct == Count(sorted[..pts[k].seen], Hit(truth))
        {
          if k > 0 {
            assert pts[k] == rest[k - 1];
          }
        }
      } else {
        WalkCountsPrefix(sorted, truth, di + 1, correct);
      }
    }
  }

  /** The printed `correct` at each point is the number of true-model
      detections among the first `di + 1` ranked detections, so precision is
      exactly that count over `di + 1`. */
  lemma CurveCountsPrefix(sorted: seq<Detection>, truth: seq<nat>)
    ensures forall k :: 0 <= k < |Curve(sorted, truth)| ==>
      Curve(sorted, truth)[k].correct == Count(sorted[..Curve(sorted, truth)[k].seen], Hit(truth))
  {
    assert sorted[..0] == [];
    WalkCountsPrefix(sorted, truth, 0, 0);
    assert Curve(sorted, truth) == Walk(sorted, truth, 0, 0);
  }

  /** Points are emitted at strictly later ranks, so the `k`-th point has seen
      at least `k + 1` detections. */
  lemma {:induction false} SeenAtLeastRank(pts: seq<Point>, k: nat)
    requires forall j, l :: 0 <= j < l < |pts| ==> pts[j].seen < pts[l].seen
    requires forall j :: 0 <= j < |pts| ==> 0 < pts[j].seen
    requires k < |pts|
    ensures pts[k].seen >= k + 1
  {
    if k > 0 {
      SeenAtLeastRank(pts, k - 1);
    }
  }

  /** Precision at every emitted point lies in (0, 1]: it never counts more
      true detections than detections seen. */
  lemma PrecisionInUnitRange(sorted: seq<Detection>, truth: seq<nat>)
    ensures forall k :: 0 <= k < |Curve(sorted, truth)| ==>
      0.0 < Curve(sorted, truth)[k].Precision() <= 1.0
  {
    var pts := Curve(sorted, truth);
    forall k | 0 <= k < |pts|
      ensures 0.0 < pts[k].Precision() <= 1.0
    {
      SeenAtLeastRank(pts, k);
      DivAtMost(pts[k].correct as real, pts[k].seen as real, 1.0);
    }
  }

  /** Recall strictly grows from one emitted point to the next: it is the
      running count of true detections over the fixed number of trials. */
  lemma RecallIncreasing(sorted: seq<Detection>, truth: seq<nat>, numTrials: nat)
    requires numTrials > 0
    ensures forall k, l :: 0 <= k < l < |Curve(sorted, truth)| ==>
      Curve(sorted, truth)[k].Recall(numTrials) < Curve(sorted, truth)[l].Recall(numTrials)
  {
    var pts := Curve(sorted, truth);
    forall k, l | 0 <= k < l < |pts|
      ensures pts[k].Recall(numTrials) < pts[l].Recall(numTrials)
    {
      QuotientMonotone(pts[k].correct as real, pts[l].correct as real, numTrials as real);
    }
  }

  /** Hits in the detections of one trial from model `mi` on: one exactly when
      the true model is at or after `mi` and its registration was attempted. */
  lemma RowHits(row: Row, ni: nat, mi: nat, truth: seq<nat>)
    requires mi <= |row|
    ensures Count(RowDetections(row, ni, mi), Hit(truth))
            == (if ni < |truth| && mi <= truth[ni] < |row| && row[truth[ni]] != 0.0 then 1 else 0)
  {
    if ni < |truth| && mi <= truth[ni] < |row| {
      OneHitInRow(row, ni, mi, truth);
    } else {
      NoHitInRow(row, ni, mi, truth);
    }
  }

  /** The true model lies at or after `mi`: its own entry decides the count. */
  lemma {:induction false} OneHitInRow(row: Row, ni: nat, mi: nat, truth: seq<nat>)
    requires ni < |truth| && mi <= truth[ni] < |row|
    ensures Count(RowDetections(row, ni, mi), Hit(truth)) == (if row[truth[ni]] != 0.0 then 1 else 0)
    decreases |row| - mi
  {
    RowStep(row, ni, mi, truth);
    if mi == truth[ni] {
      NoHitInRow(row, ni, mi + 1, truth);
    } else {
      OneHitInRow(row, ni, mi + 1, truth);
    }
  }

  /** The true model lies before `mi` or outside the row: no hit remains. */
  lemma {:induction false} NoHitInRow(row: Row, ni: nat, mi: nat, truth: seq<nat>)
    requires mi <= |row|
    requires !(ni < |truth| && mi <= truth[ni] < |row|)
    ensures Count(RowDetections(row, ni, mi), Hit(truth)) == 0
    decreases |row| - mi
  {
    if mi < |row| {
      RowStep(row, ni, mi, truth);
      NoHitInRow(row, ni, mi + 1, truth);
    } else {
      assert RowDetections(row, ni, mi) == [];
    }
  }

  /** Model `mi` adds one hit exactly when it is the trial's true model and
      its registration was attempted. */
  lemma RowStep(row: Row, ni: nat, mi: nat, truth: seq<nat>)
    requires mi < |row|
    ensures Count(RowDetections(row, ni, mi), Hit(truth))
            == Count(RowDetections(row, ni, mi + 1), Hit(truth))
               + (if row[mi] != 0.0 && ni < |truth| && truth[ni] == mi then 1 else 0)
  {
    var rest := RowDetections(row, ni, mi + 1);
    if row[mi] != 0.0 {
      var d := Detection(ni, mi, row[mi]);
      assert RowDetections(row, ni, mi) == [d] + rest;
      CountCons(d, rest, Hit(truth));
      assert Hit(truth)(d) == IsHit(d, truth);
    } else {
      assert RowDetections(row, ni, mi) == rest;
    }
  }

  /** No two true-model detections of `ds` belong to the same trial. */
  predicate HitsInDistinctTrials(ds: seq<Detection>, truth: seq<nat>) {
    forall i, j :: 0 <= i < j < |ds| && IsHit(ds[i], truth) && IsHit(ds[j], truth) ==> ds[i].ni != ds[j].ni
  }

  /** Each trial contributes at most one hit: no two hits in the detection
      list of trials `ni ..` share a trial, so there are at most `|reg| - ni`. */
  lemma {:induction false} DetectionHitsPerTrial(reg: Table, ni: nat, truth: seq<nat>)
    requires ni <= |reg|
    ensures HitsInDistinctTrials(DetectionsFrom(reg, ni), truth)
    ensures Count(DetectionsFrom(reg, ni), Hit(truth)) <= |reg| - ni
    decreases |reg| - ni
  {
    if ni < |reg| {
      RowHits(reg[ni], ni, 0, truth);
      DetectionHitsPerTrial(reg, ni + 1, truth);
      CountAppend(RowDetections(reg[ni], ni, 0), DetectionsFrom(reg, ni + 1), Hit(truth));
    }
  }

  /** A list in row-major slot order holds each detection at most once. */
  lemma {:induction false} SlotOrderSingle(ds: seq<Detection>)
    requires InSlotOrder(ds)
    ensures forall d :: multiset(ds)[d] <= 1
  {
    if |ds| > 0 {
      var tail := ds[1..];
      assert InSlotOrder(tail) by {
        assert forall i :: 0 <= i < |tail| ==> tail[i] == ds[i + 1];
      }
      SlotOrderSingle(tail);
      forall i | 0 <= i < |tail|
        ensures tail[i] != ds[0]
      {
        assert SlotBefore(ds[0], ds[i + 1]);
      }
      assert ds == [ds[0]] + tail;
      assert multiset(ds) == multiset{ds[0]} + multiset(tail);
    }
  }

  /** A value at two positions of a sequence occurs twice in its multiset. */
  lemma TwiceInMultiset<T>(s: seq<T>, i: nat, j: nat)
    requires i < j < |s| && s[i] == s[j]
    ensures multiset(s)[s[i]] >= 2
  {
    assert s == s[..j] + [s[j]] + s[j + 1..];
    assert s[i] in s[..j];
    assert multiset(s) == multiset(s[..j]) + multiset{s[j]} + multiset(s[j + 1..]);
  }

  /** Two hits of the same trial are the same detection: the true model's
      attempted registration. */
  lemma SameTrialHitsEqual(reg: Table, truth: seq<nat>, a: Detection, b: Detection)
    requires Attempted(reg, a) && Attempted(reg, b) && IsHit(a, truth) && IsHit(b, truth)
    requires a.ni == b.ni
    ensures a == b
  {
  }

  /** Two hits at different ranks of a sorting of the detection list come
      from different trials. */
  lemma RankedHitsDistinctTrials(reg: Table, truth: seq<nat>, sorted: seq<Detection>, i: nat, j: nat)
    requires multiset(sorted) == multiset(Detections(reg))
    requires i < j < |sorted| && IsHit(sorted[i], truth) && IsHit(sorted[j], truth)
    ensures sorted[i].ni != sorted[j].ni
  {
    var ds := Detections(reg);
    if sorted[i].ni == sorted[j].ni {
      assert sorted[i] in multiset(ds) && sorted[j] in multiset(ds);
      assert Attempted(reg, sorted[i]) && Attempted(reg, sorted[j]);
      SameTrialHitsEqual(reg, truth, sorted[i], sorted[j]);
      SlotOrderSingle(ds);
      TwiceInMultiset(sorted, i, j);
      assert false;
    }
  }

  /** Whatever order the sort leaves, no two curve points come from the same
      trial. */
  lemma CurvePointsDistinctTrials(reg: Table, truth: seq<nat>, sorted: seq<Detection>)
    requires IsSortingOf(sorted, Detections(reg))
    ensures forall k, l :: 0 <= k < l < |Curve(sorted, truth)| ==>
      sorted[Curve(sorted, truth)[k].seen - 1].ni != sorted[Curve(sorted, truth)[l].seen - 1].ni
  {
    var pts := Curve(sorted, truth);
    forall k, l | 0 <= k < l < |pts|
      ensures sorted[pts[k].seen - 1].ni != sorted[pts[l].seen - 1].ni
    {
      RankedHitsDistinctTrials(reg, truth, sorted, pts[k].seen - 1, pts[l].seen - 1);
    }
  }

  /** Sorting keeps the hits: the curve has one point per hit, no two points
      share a trial, and so there are at most as many points as trials. */
  lemma SortedHitsPerTrial(reg: Table, truth: seq<nat>, sorted: seq<Detection>)
    requires IsSortingOf(sorted, Detections(reg))
    ensures |Curve(sorted, truth)| == Count(sorted, Hit(truth)) <= |reg|
    ensures forall k, l :: 0 <= k < l < |Curve(sorted, truth)| ==>
      sorted[Curve(sorted, truth)[k].seen - 1].ni != sorted[Curve(sorted, truth)[l].seen - 1].ni
  {
    CurveLength(sorted, truth);
    CountPermutation(sorted, Detections(reg), Hit(truth));
    DetectionHitsPerTrial(reg, 0, truth);
    CurvePointsDistinctTrials(reg, truth, sorted);
  }

  /** However `std::sort` orders ties, the running count never exceeds the
      number of trials and recall never exceeds 1. */
  lemma CurveBoundedByTrials(reg: Table, truth: seq<nat>, sorted: seq<Detection>)
    requires |reg| > 0
    requires IsSortingOf(sorted, Detections(reg))
    ensures |Curve(sorted, truth)| <= |reg|
    ensures forall k :: 0 <= k < |Curve(sorted, truth)| ==>
      Curve(sorted, truth)[k].correct <= |reg| && Curve(sorted, truth)[k].Recall(|reg|) <= 1.0
  {
    var pts := Curve(sorted, truth);
    SortedHitsPerTrial(reg, truth, sorted);
    forall k | 0 <= k < |pts|
      ensures pts[k].Recall(|reg|) <= 1.0
    {
      DivAtMost(pts[k].correct as real, |reg| as real, 1.0);
    }
  }

  /** A trial whose true model was not registered (distance 0) never yields a
      curve point, whatever order the sort leaves. */
  lemma UnattemptedTruthNeverCounted(reg: Table, truth: seq<nat>, sorted: seq<Detection>, ni: nat)
    requires IsSortingOf(sorted, Detections(reg))
    requires ni < |reg| && ni < |truth| && truth[ni] < |reg[ni]| && reg[ni][truth[ni]] == 0.0
    ensures forall k :: 0 <= k < |Curve(sorted, truth)| ==>
      sorted[Curve(sorted, truth)[k].seen - 1].ni != ni
  {
    var pts := Curve(sorted, truth);
    forall k | 0 <= k < |pts|
      ensures sorted[pts[k].seen - 1].ni != ni
    {
      var d := sorted[pts[k].seen - 1];
      assert d in multiset(Detections(reg));
      assert Attempted(reg, d);
    }
  }

  /** The whole derivation, with `Sort` standing for `std::sort`: one point
      per true-model detection of the unsorted list, and no more points than
      trials. */
  function PrecisionRecallCurve(reg: Table, truth: seq<nat>): (pts: seq<Point>)
    ensures |pts| == Count(Detections(reg), Hit(truth)) <= |reg|
  {
    var sorted := Sort(Detections(reg));
    SortedHitsPerTrial(reg, truth, sorted);
    CountPermutation(sorted, Detections(reg), Hit(truth));
    Curve(sorted, truth)
  }
}
