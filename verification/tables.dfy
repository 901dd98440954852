/** The two per-trial result tables of the harness: row `ni` of the classifier
    table holds one vote per candidate model, row `ni` of the registration table
    one registration distance per candidate model (0 = not attempted). The source
    stores them as `float`/`double`; they are only compared, so `real` is used. */
module Tables {

  type Row = seq<real>
  type Table = seq<Row>

  /** A row in which every candidate model scored 0. */
  predicate IsZeroRow(row: Row) {
    forall mi :: 0 <= mi < |row| ==> row[mi] == 0.0
  }

  /** The row a failed query leaves behind: `numModels` zeros. */
  function Zeros(numModels: nat): (row: Row)
    ensures |row| == numModels && IsZeroRow(row)
  {
    seq(numModels, _ => 0.0)
  }

  /** `numTrials` rows of `numModels` entries each. */
  predicate Shaped(t: Table, numTrials: nat, numModels: nat) {
    |t| == numTrials && forall ni :: 0 <= ni < |t| ==> |t[ni]| == numModels
  }

  /** One true model index per trial, each a valid column. */
  predicate ValidTruth(truth: seq<nat>, numTrials: nat, numModels: nat) {
    |truth| == numTrials && forall ni :: 0 <= ni < |truth| ==> truth[ni] < numModels
  }
}
