/**
 * What the snapshot sequence of `performLUDecomposition` guarantees, stated
 * over `Decompose` alone.
 */
module LuTheorems {
  import opened Matrices
  import opened LuDecomposition
  import opened LuProofs

  /**
   * Induction over the inner loop: whatever one pass of its body keeps
   * holds once the loop has reached the last row.
   */
  lemma {:induction false} ColumnInduction(a: Matrix, k: nat, i: nat, r: Run, inv: (nat, Run) -> bool)
    requires Shaped(a, r) && k < i <= |a| && inv(i, r)
    requires forall j: nat, s: Run :: Shaped(a, s) && k < j < |a| && inv(j, s) ==> inv(j + 1, EliminateRow(a, k, j, s))
    ensures inv(|a|, EliminateColumn(a, k, i, r))
    decreases |a| - i
  {
    if i < |a| {
      ColumnInduction(a, k, i + 1, EliminateRow(a, k, i, r), inv);
    }
  }

  /** The inner loop keeps the invariant all the way to the last row. */
  lemma EliminateColumnKeepsRunInv(a: Matrix, k: nat, i: nat, r: Run)
    requires RunInv(a, k, i, r)
    ensures RunInv(a, k, |a|, EliminateColumn(a, k, i, r))
  {
    var inv := (j: nat, s: Run) => RunInv(a, k, j, s);
    RowStepsKeepRunInv(a, k);
    ColumnInduction(a, k, i, r, inv);
  }

  lemma RowStepsKeepRunInv(a: Matrix, k: nat)
    ensures forall j: nat, s: Run :: Shaped(a, s) && k < j < |a| && RunInv(a, k, j, s) ==>
              RunInv(a, k, j + 1, EliminateRow(a, k, j, s))
  {
    forall j: nat, s: Run | Shaped(a, s) && k < j < |a| && RunInv(a, k, j, s)
      ensures RunInv(a, k, j + 1, EliminateRow(a, k, j, s))
    {
      RowKeepsRunInv(a, k, j, s);
    }
  }

  /** The outer loop keeps the invariant to the end, where k = n - 1 and i = n. */
  lemma {:induction false} EliminateFromKeepsRunInv(a: Matrix, k: nat, r: Run)
    requires RunInv(a, k, k + 1, r)
    ensures RunInv(a, |a| - 1, |a|, EliminateFrom(a, k, r))
    decreases |a| - k
  {
    var r1 := EliminateColumn(a, k, k + 1, r);
    EliminateColumnKeepsRunInv(a, k, k + 1, r);
    if k + 1 < |a| {
      NextColumnRunInv(a, k, r1);
      EliminateFromKeepsRunInv(a, k + 1, r1);
    } else {
      assert EliminateFrom(a, k + 1, r1) == r1;
    }
  }

  /** The invariant of the finished loops. */
  lemma EliminateRunInv(a: Matrix)
    requires IsSquare(a, |a|) && |a| > 0
    ensures RunInv(a, |a| - 1, |a|, Eliminate(a))
  {
    InitialRunInv(a);
    EliminateFromKeepsRunInv(a, 0, Run(Identity(|a|), DeepCopy(a), [InitialStep(a)]));
  }

  /**
   * No pivot column before k was skipped: the pivots of those columns, which
   * are the final U's diagonal entries (PivotsAreFinalDiagonal), are nonzero.
   * The last column has no rows below it, so its pivot never matters.
   */
  ghost predicate NoSkipBefore(a: Matrix, k: int)
    requires IsSquare(a, |a|)
  {
    forall c :: 0 <= c < k && c < |a| - 1 ==> Eliminate(a).u[c][c] != 0.0
  }

  /** Every pivot the elimination divides by is nonzero: no pivot column is skipped. */
  ghost predicate NoZeroPivot(a: Matrix)
    requires IsSquare(a, |a|)
  {
    NoSkipBefore(a, |a|)
  }

  /**
   * Every snapshot carries the unchanged input and a unit lower-triangular
   * L; the first shows L = I and U = A, the last the final L and U, and
   * both have no rows selected and zero multipliers.
   */
  lemma SnapshotsFrame(a: Matrix)
    requires IsSquare(a, |a|) && |a| > 0
    ensures var steps := Decompose(a);
            && (forall p :: 0 <= p < |steps| ==>
                  steps[p].a == a && IsSquare(steps[p].l, |a|) && IsSquare(steps[p].u, |a|) && UnitLowerTriangular(steps[p].l))
            && steps[0].description == InitialState
            && steps[0].l == Identity(|a|) && steps[0].u == a
            && steps[0].currentRow == -1 && steps[0].pivotRow == -1
            && steps[0].multiplier == 0.0 && steps[0].rawMultiplier == 0.0
            && steps[|steps| - 1].description == FinalResult
            && steps[|steps| - 1].l == Eliminate(a).l && steps[|steps| - 1].u == Eliminate(a).u
            && steps[|steps| - 1].currentRow == -1 && steps[|steps| - 1].pivotRow == -1
            && steps[|steps| - 1].multiplier == 0.0 && steps[|steps| - 1].rawMultiplier == 0.0
  {
    var r := Eliminate(a);
    var steps := Decompose(a);
    EliminateRunInv(a);
    DeepCopyIsSame(a);
    assert steps == r.steps + [Step(FinalResult, a, r.l, r.u, -1, -1, 0.0, 0.0)];
    forall p | 0 <= p < |steps|
      ensures steps[p].a == a && IsSquare(steps[p].l, |a|) && IsSquare(steps[p].u, |a|) && UnitLowerTriangular(steps[p].l)
    {
      if p < |r.steps| {
        assert steps[p] == r.steps[p];
        assert SnapshotShape(a, r.steps[p]);
      }
    }
  }

  /**
   * The snapshots strictly between the first and the last come in
   * before/after pairs at positions p, p + 1 (p odd). The "before" one is
   * labelled "Step p+1", keeps the previous U, and puts the multiplier
   * U[i][k] / U[k][k] (nonzero pivot) into the still-zero L[i][k]; the
   * "after" one is labelled "Step p+2", shares rows, multipliers and L, and
   * holds U after the row operation, which leaves U[i][k] = 0.
   */
  lemma SnapshotPair(a: Matrix, p: nat)
    requires IsSquare(a, |a|) && |a| > 0
    requires 0 < p < |Decompose(a)| - 1 && p % 2 == 1
    ensures var steps := Decompose(a);
            var b, c := steps[p], steps[p + 1];
            var i, k, m := b.currentRow, b.pivotRow, b.multiplier;
            && 0 <= k < i < |a|
            && IsSquare(b.u, |a|) && IsSquare(b.l, |a|) && IsSquare(steps[p - 1].l, |a|)
            && b.description == ComputingMultiplier(p + 1)
            && c.description == ApplyingRowOperation(p + 2)
            && b.u == steps[p - 1].u
            && b.u[k][k] != 0.0
            && m == b.u[i][k] / b.u[k][k] && b.rawMultiplier == m
            && steps[p - 1].l[i][k] == 0.0
            && b.l == SetEntry(steps[p - 1].l, i, k, m)
            && c.currentRow == i && c.pivotRow == k && c.multiplier == m && c.rawMultiplier == m
            && c.l == b.l
            && c.u == RowOperation(b.u, k, i, m)
            && c.u[i][k] == 0.0
  {
    var r := Eliminate(a);
    var steps := Decompose(a);
    EliminateRunInv(a);
    DeepCopyIsSame(a);
    assert steps == r.steps + [Step(FinalResult, a, r.l, r.u, -1, -1, 0.0, 0.0)];
    assert steps[p - 1] == r.steps[p - 1] && steps[p] == r.steps[p] && steps[p + 1] == r.steps[p + 1];
    assert SnapshotShape(a, steps[p - 1]) && SnapshotShape(a, steps[p]) && SnapshotShape(a, steps[p + 1]);
    assert IntermediateStep(a, steps[p], p) && IntermediateStep(a, steps[p + 1], p + 1);
    assert BeforeStep(a, steps[p - 1], steps[p]) && AfterStep(a, steps[p], steps[p + 1]);
  }

  /**
   * The pivot a pair divides by is the final U's diagonal entry of its
   * column: the pivot row is never written once its column is reached.
   */
  lemma PivotsAreFinalDiagonal(a: Matrix)
    requires IsSquare(a, |a|) && |a| > 0
    ensures var steps := Decompose(a);
            forall p :: 0 < p < |steps| - 1 ==>
              var k := steps[p].pivotRow;
              0 <= k < |a| && IsSquare(steps[p].u, |a|) && steps[p].u[k][k] == Eliminate(a).u[k][k]
  {
    var r := Eliminate(a);
    var steps := Decompose(a);
    EliminateRunInv(a);
    DeepCopyIsSame(a);
    assert steps == r.steps + [Step(FinalResult, a, r.l, r.u, -1, -1, 0.0, 0.0)];
    forall p | 0 < p < |steps| - 1
      ensures 0 <= steps[p].pivotRow < |a| && IsSquare(steps[p].u, |a|)
      ensures steps[p].u[steps[p].pivotRow] == r.u[steps[p].pivotRow]
    {
      assert steps[p] == r.steps[p];
      assert SnapshotShape(a, r.steps[p]) && IntermediateStep(a, r.steps[p], p);
    }
  }

  /**
   * Every L entry below the diagonal is written at most once: the
   * (pivotRow, currentRow) pairs of the "before" snapshots strictly increase.
   */
  lemma MultipliersWrittenOnce(a: Matrix)
    requires IsSquare(a, |a|) && |a| > 0
    ensures var steps := Decompose(a);
            forall p, q :: 0 < p < q < |steps| - 1 && p % 2 == 1 && q % 2 == 1 ==>
              steps[p].pivotRow < steps[q].pivotRow
              || (steps[p].pivotRow == steps[q].pivotRow && steps[p].currentRow < steps[q].currentRow)
  {
    var r := Eliminate(a);
    var steps := Decompose(a);
    EliminateRunInv(a);
    DeepCopyIsSame(a);
    assert steps == r.steps + [Step(FinalResult, a, r.l, r.u, -1, -1, 0.0, 0.0)];
    forall p, q | 0 < p < q < |steps| - 1 && p % 2 == 1 && q % 2 == 1
      ensures ComesBefore(steps[p], steps[q].pivotRow, steps[q].currentRow)
    {
      assert steps[p] == r.steps[p] && steps[q] == r.steps[q];
    }
  }

  /**
   * The initial snapshot and every "after" snapshot satisfy L * U = A
   * exactly, provided no pivot column before theirs was skipped.
   */
  lemma SettledSnapshotsFactorise(a: Matrix)
    requires IsSquare(a, |a|) && |a| > 0
    ensures var steps := Decompose(a);
            forall p :: 0 <= p < |steps| - 1 && p % 2 == 0 ==>
              && ProductDefined(steps[p].l, steps[p].u)
              && (NoSkipBefore(a, steps[p].pivotRow) ==> Product(steps[p].l, steps[p].u) == a)
  {
    var r := Eliminate(a);
    var steps := Decompose(a);
    EliminateRunInv(a);
    DeepCopyIsSame(a);
    assert steps == r.steps + [Step(FinalResult, a, r.l, r.u, -1, -1, 0.0, 0.0)];
    forall p | 0 <= p < |steps| - 1 && p % 2 == 0
      ensures ProductDefined(steps[p].l, steps[p].u)
      ensures NoSkipBefore(a, steps[p].pivotRow) ==> Product(steps[p].l, steps[p].u) == a
    {
      assert steps[p] == r.steps[p];
      assert steps[p].pivotRow < |a| - 1 || p == 0;
      assert SnapshotShape(a, r.steps[p]) && r.steps[p].pivotRow < |a|;
      assert FactorisedUnlessSkipped(a, r.steps[p], r.u);
      SquareProductDefined(steps[p].l, steps[p].u, |a|);
    }
  }

  /** With no zero pivot the final U is upper-triangular and L * U = A exactly. */
  lemma FinalFactorisation(a: Matrix)
    requires IsSquare(a, |a|) && |a| > 0 && NoZeroPivot(a)
    ensures var last := Decompose(a)[|Decompose(a)| - 1];
            && UnitLowerTriangular(last.l)
            && UpperTriangular(last.u)
            && ProductDefined(last.l, last.u)
            && Product(last.l, last.u) == a
  {
    var r := Eliminate(a);
    EliminateRunInv(a);
    SnapshotsFrame(a);
    assert NoSkipSoFar(r.u, |a| - 1, |a|);
    SquareProductDefined(r.l, r.u, |a|);
  }

  /**
   * A "before" snapshot is not a factorisation: L already holds a nonzero
   * multiplier while U is not yet updated, so entry (i, k) of L * U is off
   * by multiplier * pivot.
   */
  lemma BeforeSnapshotDoesNotFactorise(a: Matrix, p: nat)
    requires IsSquare(a, |a|) && |a| > 0
    requires 0 < p < |Decompose(a)| - 1 && p % 2 == 1
    requires Decompose(a)[p].multiplier != 0.0 && NoSkipBefore(a, Decompose(a)[p].pivotRow)
    ensures ProductDefined(Decompose(a)[p].l, Decompose(a)[p].u)
    ensures Product(Decompose(a)[p].l, Decompose(a)[p].u) != a
  {
    var steps := Decompose(a);
    SnapshotPair(a, p);
    var prev, b := steps[p - 1], steps[p];
    var i, k, m := b.currentRow, b.pivotRow, b.multiplier;
    PreviousSnapshotFactorises(a, p);
    SquareProductDefined(b.l, b.u, |a|);
    SquareProductDefined(prev.l, prev.u, |a|);
    assert b.l[i] == prev.l[i][k := m];
    var x := Product(b.l, b.u)[i][k];
    assert x == RowTimesColumn(b.l[i], prev.u, k, |a|);
    assert a[i][k] == RowTimesColumn(prev.l[i], prev.u, k, |a|);
    NewMultiplierShiftsEntry(prev.l[i], b.l[i], prev.u, k, |a|, m);
    NonzeroShift(a[i][k], m, b.u[k][k], x);
    assert Product(b.l, b.u)[i] != a[i];
  }

  /** The snapshot just before a "before" snapshot is a factorisation when no earlier column was skipped. */
  lemma PreviousSnapshotFactorises(a: Matrix, p: nat)
    requires IsSquare(a, |a|) && |a| > 0
    requires 0 < p < |Decompose(a)| - 1 && p % 2 == 1
    requires NoSkipBefore(a, Decompose(a)[p].pivotRow)
    ensures IsSquare(Decompose(a)[p - 1].l, |a|) && IsSquare(Decompose(a)[p - 1].u, |a|)
    ensures ProductDefined(Decompose(a)[p - 1].l, Decompose(a)[p - 1].u)
    ensures Product(Decompose(a)[p - 1].l, Decompose(a)[p - 1].u) == a
  {
    var steps := Decompose(a);
    var k := steps[p].pivotRow;
    SnapshotPair(a, p);
    SnapshotsFrame(a);
    SettledSnapshotsFactorise(a);
    if p > 1 {
      SnapshotPair(a, p - 2);
      MultipliersWrittenOnce(a);
      assert steps[p - 2].pivotRow <= k;
    }
    assert NoSkipBefore(a, steps[p - 1].pivotRow);
  }

  lemma NewMultiplierShiftsEntry(lrow: seq<real>, lrow': seq<real>, u: Matrix, k: nat, n: nat, m: real)
    requires |lrow| == n && IsSquare(u, n) && k < n
    requires lrow[k] == 0.0 && lrow' == lrow[k := m]
    ensures RowTimesColumn(lrow', u, k, n) == RowTimesColumn(lrow, u, k, n) + m * u[k][k]
  {
    RowTimesColumnRowUpdate(lrow, u, k, n, k, m);
  }

  lemma NonzeroShift(base: real, m: real, pivot: real, x: real)
    requires m != 0.0 && pivot != 0.0 && x == base + m * pivot
    ensures x != base
  {
  }

  /**
   * Pairs eliminated from column k on, read off the final U: column c
   * contributes its n - 1 - c rows below the pivot when its pivot is nonzero.
   */
  ghost function EliminatedPairs(u: Matrix, k: nat): nat
    requires IsSquare(u, |u|) && k <= |u|
    decreases |u| - k
  {
    if k == |u| then 0
    else (if u[k][k] != 0.0 then |u| - 1 - k else 0) + EliminatedPairs(u, k + 1)
  }

  lemma {:induction false} EliminateFromCount(a: Matrix, k: nat, r: Run)
    requires Shaped(a, r) && k <= |a|
    ensures |EliminateFrom(a, k, r).steps| == |r.steps| + 2 * EliminatedPairs(EliminateFrom(a, k, r).u, k)
    decreases |a| - k
  {
    if k < |a| {
      var n := |a|;
      var r1 := EliminateColumn(a, k, k + 1, r);
      var f := EliminateFrom(a, k + 1, r1);
      assert EliminateFrom(a, k, r) == f;
      EliminateFromCount(a, k + 1, r1);
      var pivot := r.u[k][k];
      assert f.u[k][k] == pivot by {
        assert f.u[k] == r1.u[k];
        assert r1.u[k] == r.u[k];
      }
      assert |r1.steps| == |r.steps| + (if pivot != 0.0 then 2 * (n - 1 - k) else 0);
      assert EliminatedPairs(f.u, k) == (if pivot != 0.0 then n - 1 - k else 0) + EliminatedPairs(f.u, k + 1);
    }
  }

  /** With every pivot of columns k.. nonzero, the pairs are all (row, column) pairs below the diagonal. */
  lemma {:induction false} AllPairsEliminated(u: Matrix, k: nat)
    requires IsSquare(u, |u|) && k <= |u|
    requires forall c :: k <= c < |u| - 1 ==> u[c][c] != 0.0
    ensures 2 * EliminatedPairs(u, k) == (|u| - k) * (|u| - k - 1)
    decreases |u| - k
  {
    if k < |u| {
      AllPairsEliminated(u, k + 1);
    }
  }

  /**
   * The sequence holds 2 + 2 * (eliminated pairs) snapshots; with no zero
   * pivot that is 2 + n(n - 1).
   */
  lemma SnapshotCount(a: Matrix)
    requires IsSquare(a, |a|) && |a| > 0
    ensures IsSquare(Eliminate(a).u, |a|)
    ensures |Decompose(a)| == 2 + 2 * EliminatedPairs(Eliminate(a).u, 0)
    ensures NoZeroPivot(a) ==> |Decompose(a)| == 2 + |a| * (|a| - 1)
  {
    DeepCopyIsSame(a);
    EliminateFromCount(a, 0, Run(Identity(|a|), a, [InitialStep(a)]));
    if NoZeroPivot(a) {
      AllPairsEliminated(Eliminate(a).u, 0);
    }
  }
}
