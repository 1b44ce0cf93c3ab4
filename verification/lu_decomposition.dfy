/**
 * The step generator behind "Decompose Matrix": unpivoted Gaussian
 * elimination in Doolittle form (L has a unit diagonal), recording a snapshot
 * of A, L and U around every row operation.
 */
module LuDecomposition {
  import opened Matrices

  /** The description template of a snapshot; `number` is the "Step N" label it shows. */
  datatype Description =
    | InitialState
    | ComputingMultiplier(number: nat)
    | ApplyingRowOperation(number: nat)
    | FinalResult

  /**
   * One snapshot. `currentRow` and `pivotRow` are -1 on the initial and the
   * final snapshot; the two multiplier fields carry the same value.
   */
  datatype Step = Step(
    description: Description,
    a: Matrix,
    l: Matrix,
    u: Matrix,
    currentRow: int,
    pivotRow: int,
    multiplier: real,
    rawMultiplier: real)

  /** The working state of the elimination loops: the current L, U and the snapshots so far. */
  datatype Run = Run(l: Matrix, u: Matrix, steps: seq<Step>)

  /** The shapes every working state keeps: A, L and U are n-by-n. */
  predicate Shaped(a: Matrix, r: Run) {
    IsSquare(a, |a|) && IsSquare(r.l, |a|) && IsSquare(r.u, |a|)
  }

  /** Row i minus m times row k, over columns k..n-1 only. */
  function RowOperation(u: Matrix, k: nat, i: nat, m: real): (u': Matrix)
    requires IsSquare(u, |u|) && k < i < |u|
    ensures IsSquare(u', |u|)
    ensures forall r :: 0 <= r < |u| && r != i ==> u'[r] == u[r]
    ensures forall j :: 0 <= j < k ==> u'[i][j] == u[i][j]
    ensures u[k][k] != 0.0 && m == u[i][k] / u[k][k] ==> u'[i][k] == 0.0
  {
    var row := seq(|u|, j requires 0 <= j < |u| => if j < k then u[i][j] else u[i][j] - m * u[k][j]);
    u[i := row]
  }

  /** Sets entry (i, k) of a square matrix. */
  function SetEntry(l: Matrix, i: nat, k: nat, v: real): (l': Matrix)
    requires IsSquare(l, |l|) && i < |l| && k < |l|
    ensures IsSquare(l', |l|)
    ensures forall r, c :: 0 <= r < |l| && 0 <= c < |l| ==> l'[r][c] == if r == i && c == k then v else l[r][c]
  {
    l[i := l[i][k := v]]
  }

  /**
   * One pass of the inner loop body for pivot column k and row i: skipped
   * when the pivot is exactly zero; otherwise the multiplier goes into
   * L[i][k], a "before" snapshot is taken, the row operation is applied and
   * an "after" snapshot is taken.
   */
  function EliminateRow(a: Matrix, k: nat, i: nat, r: Run): (r': Run)
    requires Shaped(a, r) && k < i < |a|
    ensures Shaped(a, r')
    ensures r.u[k][k] == 0.0 ==> r' == r
    ensures r.u[k][k] != 0.0 ==> |r'.steps| == |r.steps| + 2
    ensures r.steps <= r'.steps
    ensures forall row :: 0 <= row < |a| && row != i ==> r'.u[row] == r.u[row]
    ensures forall row, c :: 0 <= row < |a| && 0 <= c < |a| && (row != i || c != k) ==> r'.l[row][c] == r.l[row][c]
    ensures r.u[k][k] != 0.0 ==> r'.u[i][k] == 0.0 && r'.l[i][k] == r.u[i][k] / r.u[k][k]
  {
    if r.u[k][k] == 0.0 then r
    else
      var m := r.u[i][k] / r.u[k][k];
      var l' := SetEntry(r.l, i, k, m);
      var before := Step(ComputingMultiplier(|r.steps| + 1), DeepCopy(a), l', r.u, i, k, m, m);
      var u' := RowOperation(r.u, k, i, m);
      var after := Step(ApplyingRowOperation(|r.steps| + 2), DeepCopy(a), l', u', i, k, m, m);
      Run(l', u', r.steps + [before, after])
  }

  /**
   * The inner loop over rows i..n-1 for pivot column k. Skipping is all or
   * nothing: the pivot row is never written, so either every row below it
   * is eliminated or none is.
   */
  function EliminateColumn(a: Matrix, k: nat, i: nat, r: Run): (r': Run)
    requires Shaped(a, r) && k < i <= |a|
    ensures Shaped(a, r')
    ensures r.steps <= r'.steps
    ensures forall row :: 0 <= row < i ==> r'.u[row] == r.u[row]
    ensures r.u[k][k] == 0.0 ==> r' == r
    ensures r.u[k][k] != 0.0 ==> |r'.steps| == |r.steps| + 2 * (|a| - i)
    ensures r.u[k][k] != 0.0 ==> forall row :: i <= row < |a| ==> r'.u[row][k] == 0.0
    decreases |a| - i
  {
    if i == |a| then r
    else EliminateColumn(a, k, i + 1, EliminateRow(a, k, i, r))
  }

  /** The outer loop over pivot columns k..n-1; rows up to k are left as they are. */
  function EliminateFrom(a: Matrix, k: nat, r: Run): (r': Run)
    requires Shaped(a, r) && k <= |a|
    ensures Shaped(a, r')
    ensures r.steps <= r'.steps
    ensures forall row :: 0 <= row <= k && row < |a| ==> r'.u[row] == r.u[row]
    decreases |a| - k
  {
    if k == |a| then r
    else EliminateFrom(a, k + 1, EliminateColumn(a, k, k + 1, r))
  }

  /** The first snapshot: L is the identity, U a copy of A, no rows selected. */
  function InitialStep(a: Matrix): Step
    requires IsSquare(a, |a|)
  {
    Step(InitialState, DeepCopy(a), Identity(|a|), DeepCopy(a), -1, -1, 0.0, 0.0)
  }

  /** The working state once both loops have finished. */
  function Eliminate(a: Matrix): (r: Run)
    requires IsSquare(a, |a|)
    ensures Shaped(a, r)
    ensures |r.steps| >= 1 && r.steps[0] == InitialStep(a)
  {
    EliminateFrom(a, 0, Run(Identity(|a|), DeepCopy(a), [InitialStep(a)]))
  }

  /**
   * `performLUDecomposition`: no snapshots at all for an empty matrix,
   * otherwise the initial snapshot, two per eliminated (row, column) pair,
   * and the final snapshot.
   */
  function Decompose(a: Matrix): (steps: seq<Step>)
    requires IsSquare(a, |a|)
    ensures |a| == 0 <==> steps == []
    ensures |a| > 0 ==> |steps| >= 2 && steps[0] == InitialStep(a)
  {
    if |a| == 0 then []
    else
      var r := Eliminate(a);
      r.steps + [Step(FinalResult, DeepCopy(a), r.l, r.u, -1, -1, 0.0, 0.0)]
  }
}
