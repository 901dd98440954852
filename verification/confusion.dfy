/** The confusion matrix `test` fills: truth-versus-guess counts keyed by model
    id. It is kept as the sequence of its `increment` calls; a cell is the
    number of calls with that (truth, guess) pair, `trace` the number of calls
    whose guess was the truth, `total` the number of calls. Rendering
    (`printMatrix`) is not modelled. */
module Confusion {
  import opened Counting

  type Id = string

  datatype Entry = Entry(truth: Id, guess: Id)

  datatype Matrix = Matrix(entries: seq<Entry>)

  /** The test that selects cell (`truth`, `guess`). */
  function At(truth: Id, guess: Id): Entry -> bool {
    e => e == Entry(truth, guess)
  }

  predicate Diagonal(e: Entry) {
    e.truth == e.guess
  }

  /** A freshly constructed matrix: no cells. */
  function Empty(): (m: Matrix)
    ensures Total(m) == 0 && Trace(m) == 0
    ensures forall t, g :: Cell(m, t, g) == 0
  {
    Matrix([])
  }

  function Cell(m: Matrix, truth: Id, guess: Id): nat {
    Count(m.entries, At(truth, guess))
  }

  function Total(m: Matrix): nat {
    |m.entries|
  }

  function Trace(m: Matrix): nat {
    Count(m.entries, Diagonal)
  }

  /** `increment(truth, guess)`: that one cell grows by one and no other cell
      changes; the total grows by one and the trace grows exactly when the
      guess is the truth. */
  function Increment(m: Matrix, truth: Id, guess: Id): (m': Matrix)
    ensures Cell(m', truth, guess) == Cell(m, truth, guess) + 1
    ensures forall t, g :: (t, g) != (truth, guess) ==> Cell(m', t, g) == Cell(m, t, g)
    ensures Total(m') == Total(m) + 1
    ensures Trace(m') == Trace(m) + (if truth == guess then 1 else 0)
  {
    var m' := Matrix(m.entries + [Entry(truth, guess)]);
    assert [Entry(truth, guess)][1..] == [];
    CountAppend(m.entries, [Entry(truth, guess)], Diagonal);
    forall t, g
      ensures Cell(m', t, g) == Cell(m, t, g) + (if (t, g) == (truth, guess) then 1 else 0)
    {
      CountAppend(m.entries, [Entry(truth, guess)], At(t, g));
    }
    m'
  }

  /** The matrix after a sequence of `increment` calls on a fresh one. */
  function Replay(calls: seq<Entry>): (m: Matrix)
    decreases |calls|
  {
    if |calls| == 0 then Empty()
    else
      var last := calls[|calls| - 1];
      Increment(Replay(calls[..|calls| - 1]), last.truth, last.guess)
  }

  /** Replaying calls on a fresh matrix records exactly those calls, in order. */
  lemma {:induction false} ReplayRecords(calls: seq<Entry>)
    ensures Replay(calls).entries == calls
  {
    if |calls| > 0 {
      ReplayRecords(calls[..|calls| - 1]);
      assert calls == calls[..|calls| - 1] + [calls[|calls| - 1]];
    }
  }

  /** After any sequence of calls, `total()` is the number of calls and
      `trace()` the number of calls whose guess was the truth. */
  lemma ReplayTotals(calls: seq<Entry>)
    ensures Total(Replay(calls)) == |calls|
    ensures Trace(Replay(calls)) == Count(calls, Diagonal)
    ensures forall t, g :: Cell(Replay(calls), t, g) == Count(calls, At(t, g))
  {
    ReplayRecords(calls);
  }

  /** The order of the calls does not matter: any reordering of the same calls
      gives the same cells, total and trace. */
  lemma ReplayOrderIndependent(a: seq<Entry>, b: seq<Entry>)
    requires multiset(a) == multiset(b)
    ensures Total(Replay(a)) == Total(Replay(b))
    ensures Trace(Replay(a)) == Trace(Replay(b))
    ensures forall t, g :: Cell(Replay(a), t, g) == Cell(Replay(b), t, g)
  {
    ReplayTotals(a);
    ReplayTotals(b);
    assert |a| == |multiset(a)| == |multiset(b)| == |b|;
    CountPermutation(a, b, Diagonal);
    forall t, g
      ensures Cell(Replay(a), t, g) == Cell(Replay(b), t, g)
    {
      CountPermutation(a, b, At(t, g));
    }
  }
}
