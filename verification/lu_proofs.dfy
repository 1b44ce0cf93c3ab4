/**
 * What the elimination guarantees over exact reals: L stays unit
 * lower-triangular, every row operation keeps L * U = A while no pivot
 * column has been skipped, and with no zero pivot U ends upper-triangular.
 */
module LuProofs {
  import opened Matrices
  import opened LuDecomposition

  /**
   * The shape of L while row i of pivot column k is next: unit
   * lower-triangular, columns after k still those of the identity, and
   * column k not yet written from row i down.
   */
  ghost predicate LShape(l: Matrix, n: nat, k: nat, i: nat) {
    && k < n
    && IsSquare(l, n)
    && UnitLowerTriangular(l)
    && (forall r, c :: 0 <= r < n && k < c < n && r != c ==> l[r][c] == 0.0)
    && (forall r :: i <= r < n ==> l[r][k] == 0.0)
  }

  /**
   * The elimination is on track at (k, i): L * U = A, the columns before k
   * are zero below the diagonal, and so is column k down to row i - 1.
   */
  ghost predicate Clean(a: Matrix, l: Matrix, u: Matrix, k: nat, i: nat)
    requires IsSquare(a, |a|) && |a| > 0 && IsSquare(l, |a|) && IsSquare(u, |a|)
  {
    SquareProductDefined(l, u, |a|);
    && Product(l, u) == a
    && (forall r, c :: 0 <= c < k && c < r < |a| ==> u[r][c] == 0.0)
    && (forall r :: k < r < i && r < |a| ==> u[r][k] == 0.0)
  }

  /** No pivot column before k has been skipped, nor column k once a row of it was processed. */
  ghost predicate NoSkipSoFar(u: Matrix, k: nat, i: nat)
    requires IsSquare(u, |u|) && k < |u|
  {
    (forall c :: 0 <= c < k ==> u[c][c] != 0.0) && (i == k + 1 || u[k][k] != 0.0)
  }

  /** One row operation with a nonzero pivot keeps L * U = A and clears U[i][k]. */
  lemma RowOperationKeepsFactorisation(a: Matrix, k: nat, i: nat, r: Run)
    requires Shaped(a, r) && k < i < |a|
    requires LShape(r.l, |a|, k, i)
    requires r.u[k][k] != 0.0
    requires Clean(a, r.l, r.u, k, i)
    ensures Clean(a, EliminateRow(a, k, i, r).l, EliminateRow(a, k, i, r).u, k, i + 1)
  {
    var n := |a|;
    var m := r.u[i][k] / r.u[k][k];
    var l' := SetEntry(r.l, i, k, m);
    var u' := RowOperation(r.u, k, i, m);
    assert EliminateRow(a, k, i, r).l == l' && EliminateRow(a, k, i, r).u == u';
    SquareProductDefined(r.l, r.u, n);
    SquareProductDefined(l', u', n);
    var p := Product(l', u');
    forall row | 0 <= row < n
      ensures p[row] == a[row]
    {
      forall j | 0 <= j < n
        ensures p[row][j] == a[row][j]
      {
        EntryKept(a, k, i, r, m, l', u', row, j);
      }
    }
  }

  lemma {:induction false} EntryKept(a: Matrix, k: nat, i: nat, r: Run, m: real, l': Matrix, u': Matrix, row: nat, j: nat)
    requires Shaped(a, r) && k < i < |a| && row < |a| && j < |a|
    requires LShape(r.l, |a|, k, i)
    requires Clean(a, r.l, r.u, k, i)
    requires l' == SetEntry(r.l, i, k, m) && u' == RowOperation(r.u, k, i, m)
    ensures RowTimesColumn(l'[row], u', j, |a|) == a[row][j]
  {
    var n := |a|;
    assert a[row][j] == RowTimesColumn(r.l[row], r.u, j, n) by {
      SquareProductDefined(r.l, r.u, n);
    }
    assert u'[i][j] == r.u[i][j] - m * r.u[k][j] by {
      RowOperationEntry(r.u, k, i, m, j);
      if j < k {
        assert r.u[k][j] == 0.0;
        ZeroProduct(m);
      }
    }
    assert r.l[row][i] == if row == i then 1.0 else 0.0;
    assert r.l[i][k] == 0.0;
    assert l'[row] == if row == i then r.l[i][k := m] else r.l[row];
    EntryKeptStep(a[row][j], r.l[row], l'[row], r.u, u', n, i, j, k, m, row == i);
  }

  /** Entry j of the new row i: kept before column k, reduced by m times the pivot row's entry from k on. */
  lemma RowOperationEntry(u: Matrix, k: nat, i: nat, m: real, j: nat)
    requires IsSquare(u, |u|) && k < i < |u| && j < |u|
    ensures RowOperation(u, k, i, m)[i][j] == if j < k then u[i][j] else u[i][j] - m * u[k][j]
  {
  }

  lemma ZeroProduct(m: real)
    ensures m * 0.0 == 0.0 && 0.0 * m == 0.0
  {
  }

  /** The arithmetic of one entry of L * U across a row operation. */
  lemma {:induction false} EntryKeptStep(target: real, lrow: seq<real>, lrow': seq<real>, u: Matrix, u': Matrix,
                      n: nat, i: nat, j: nat, k: nat, m: real, isRow: bool)
    requires |lrow| == n && |lrow'| == n && IsSquare(u, n) && IsSquare(u', n)
    requires k < n && i < n && j < n && k != i
    requires target == RowTimesColumn(lrow, u, j, n)
    requires forall t :: 0 <= t < n && t != i ==> u'[t] == u[t]
    requires u'[i][j] == u[i][j] - m * u[k][j]
    requires lrow[i] == if isRow then 1.0 else 0.0
    requires isRow ==> lrow[k] == 0.0 && lrow' == lrow[k := m]
    requires !isRow ==> lrow' == lrow
    ensures RowTimesColumn(lrow', u', j, n) == target
  {
    var x := u[k][j];
    var s1 := RowTimesColumn(lrow, u', j, n);
    assert s1 == target + lrow[i] * (u'[i][j] - u[i][j]) by {
      RowTimesColumnMatrixUpdate(lrow, u, u', j, n, i);
    }
    if isRow {
      var s2 := RowTimesColumn(lrow', u', j, n);
      assert s2 == s1 + (m - lrow[k]) * u'[k][j] by {
        RowTimesColumnRowUpdate(lrow, u', j, n, k, m);
      }
      assert u'[k][j] == x;
      Cancel(target, s1, s2, u[i][j], u'[i][j], m, x);
    } else {
      ZeroProduct(u'[i][j] - u[i][j]);
    }
  }

  /** Adding m x to an entry that lost m x restores the sum. */
  lemma Cancel(target: real, s1: real, s2: real, before: real, after: real, m: real, x: real)
    requires after == before - m * x
    requires s1 == target + 1.0 * (after - before)
    requires s2 == s1 + (m - 0.0) * x
    ensures s2 == target
  {
  }

  /** Facts every snapshot carries: the unchanged input, n-by-n factors, unit lower-triangular L. */
  ghost predicate SnapshotShape(a: Matrix, s: Step) {
    s.a == a && IsSquare(s.l, |a|) && IsSquare(s.u, |a|) && UnitLowerTriangular(s.l)
  }

  /**
   * A snapshot between the first and the last, at position p: the pivot
   * row is above the current row, both multipliers agree, L already holds
   * the multiplier, and the label is "Step p+1" of the right kind.
   */
  ghost predicate IntermediateStep(a: Matrix, s: Step, p: nat)
    requires SnapshotShape(a, s)
  {
    && 0 <= s.pivotRow < s.currentRow < |a|
    && s.multiplier == s.rawMultiplier
    && s.l[s.currentRow][s.pivotRow] == s.multiplier
    && s.description == (if p % 2 == 1 then ComputingMultiplier(p + 1) else ApplyingRowOperation(p + 1))
  }

  /**
   * A "before" snapshot against the one preceding it: U is still the
   * previous U, the pivot is nonzero, the multiplier is the ratio read from
   * that U, and L differs from the previous L only by the new multiplier,
   * written into an entry that was still zero.
   */
  ghost predicate BeforeStep(a: Matrix, prev: Step, s: Step)
    requires SnapshotShape(a, prev) && SnapshotShape(a, s) && 0 <= s.pivotRow < s.currentRow < |a|
  {
    && s.u == prev.u
    && prev.l[s.currentRow][s.pivotRow] == 0.0
    && s.u[s.pivotRow][s.pivotRow] != 0.0
    && s.multiplier == s.u[s.currentRow][s.pivotRow] / s.u[s.pivotRow][s.pivotRow]
    && s.l == SetEntry(prev.l, s.currentRow, s.pivotRow, s.multiplier)
  }

  /** An "after" snapshot against its "before": same rows, multipliers and L; U has had the row operation. */
  ghost predicate AfterStep(a: Matrix, before: Step, s: Step)
    requires SnapshotShape(a, before) && SnapshotShape(a, s) && 0 <= before.pivotRow < before.currentRow < |a|
  {
    && s.currentRow == before.currentRow
    && s.pivotRow == before.pivotRow
    && s.multiplier == before.multiplier
    && s.rawMultiplier == before.rawMultiplier
    && s.l == before.l
    && s.u == RowOperation(before.u, before.pivotRow, before.currentRow, before.multiplier)
  }

  /** (pivotRow, currentRow) of s comes before (k, i) in the loops' order. */
  predicate ComesBefore(s: Step, k: int, i: int) {
    s.pivotRow < k || (s.pivotRow == k && s.currentRow < i)
  }

  /**
   * The initial and every "after" snapshot is a factorisation of A, as long
   * as no pivot column before its own was skipped; u is the current (or
   * final) U, whose rows above the pivot no longer change.
   */
  ghost predicate FactorisedUnlessSkipped(a: Matrix, s: Step, u: Matrix)
    requires SnapshotShape(a, s) && |a| > 0 && IsSquare(u, |a|) && s.pivotRow < |a|
  {
    SquareProductDefined(s.l, s.u, |a|);
    (forall c :: 0 <= c < s.pivotRow ==> u[c][c] != 0.0) ==> Product(s.l, s.u) == a
  }

  /** The snapshot sequence is well formed, step by step, relative to the working state r at (k, i). */
  ghost predicate StepsInv(a: Matrix, k: nat, i: nat, r: Run)
    requires Shaped(a, r) && 0 < |a|
  {
    var steps := r.steps;
    && |steps| % 2 == 1
    && steps[0] == InitialStep(a)
    && steps[|steps| - 1].l == r.l && steps[|steps| - 1].u == r.u
    && (forall p :: 0 <= p < |steps| ==> SnapshotShape(a, steps[p]) && steps[p].pivotRow < |a|)
    && (forall p :: 0 < p < |steps| ==> IntermediateStep(a, steps[p], p) && ComesBefore(steps[p], k, i))
    && (forall p :: 0 < p < |steps| ==> steps[p].u[steps[p].pivotRow] == r.u[steps[p].pivotRow])
    && (forall p :: 0 < p < |steps| && p % 2 == 1 ==>
          p + 1 < |steps| && BeforeStep(a, steps[p - 1], steps[p]) && AfterStep(a, steps[p], steps[p + 1]))
    && (forall p :: 0 <= p < |steps| && p % 2 == 0 ==> FactorisedUnlessSkipped(a, steps[p], r.u))
    && (forall p, q :: 0 < p < q < |steps| && p % 2 == 1 && q % 2 == 1 ==> ComesBefore(steps[p], steps[q].pivotRow, steps[q].currentRow))
  }

  /** Everything the loops keep while row i of pivot column k is next. */
  ghost predicate RunInv(a: Matrix, k: nat, i: nat, r: Run) {
    && Shaped(a, r)
    && k < i <= |a|
    && LShape(r.l, |a|, k, i)
    && (NoSkipSoFar(r.u, k, i) ==> Clean(a, r.l, r.u, k, i))
    && StepsInv(a, k, i, r)
  }

  lemma DeepCopyIsSame(m: Matrix)
    ensures DeepCopy(m) == m
  {
  }

  /** The loops start on track: L = I, U = A, and only the initial snapshot. */
  lemma InitialRunInv(a: Matrix)
    requires IsSquare(a, |a|) && |a| > 0
    ensures RunInv(a, 0, 1, Run(Identity(|a|), DeepCopy(a), [InitialStep(a)]))
  {
    DeepCopyIsSame(a);
    IdentityLeftUnit(a, |a|);
  }

  /** Skipping a row with a zero pivot keeps every part of the invariant. */
  lemma SkippedRowKeepsRunInv(a: Matrix, k: nat, i: nat, r: Run)
    requires RunInv(a, k, i, r) && i < |a| && r.u[k][k] == 0.0
    ensures RunInv(a, k, i + 1, EliminateRow(a, k, i, r))
  {
    assert EliminateRow(a, k, i, r) == r;
    assert !NoSkipSoFar(r.u, k, i + 1);
    StepsInvLater(a, k, i, i + 1, r);
  }

  /** The snapshot facts at (k, i) still hold at any later row of the same column. */
  lemma StepsInvLater(a: Matrix, k: nat, i: nat, i': nat, r: Run)
    requires Shaped(a, r) && 0 < |a| && StepsInv(a, k, i, r) && i <= i'
    ensures StepsInv(a, k, i', r)
  {
  }

  /** L after writing the multiplier of row i into column k keeps its shape one row further on. */
  lemma SetEntryKeepsLShape(l: Matrix, n: nat, k: nat, i: nat, m: real)
    requires LShape(l, n, k, i) && k < i < n
    ensures LShape(SetEntry(l, i, k, m), n, k, i + 1)
  {
  }

  /** Eliminating one row with a nonzero pivot keeps every part of the invariant. */
  lemma EliminatedRowKeepsRunInv(a: Matrix, k: nat, i: nat, r: Run)
    requires RunInv(a, k, i, r) && i < |a| && r.u[k][k] != 0.0
    ensures RunInv(a, k, i + 1, EliminateRow(a, k, i, r))
  {
    var n := |a|;
    var r' := EliminateRow(a, k, i, r);
    var m := r.u[i][k] / r.u[k][k];
    SetEntryKeepsLShape(r.l, n, k, i, m);
    assert r'.l == SetEntry(r.l, i, k, m);
    assert r'.u == RowOperation(r.u, k, i, m);
    if NoSkipSoFar(r'.u, k, i + 1) {
      assert NoSkipSoFar(r.u, k, i);
      RowOperationKeepsFactorisation(a, k, i, r);
    }
    EliminatedRowKeepsStepsInv(a, k, i, r);
  }

  lemma EliminatedRowKeepsStepsInv(a: Matrix, k: nat, i: nat, r: Run)
    requires RunInv(a, k, i, r) && i < |a| && r.u[k][k] != 0.0
    requires NoSkipSoFar(EliminateRow(a, k, i, r).u, k, i + 1) ==> Clean(a, EliminateRow(a, k, i, r).l, EliminateRow(a, k, i, r).u, k, i + 1)
    ensures StepsInv(a, k, i + 1, EliminateRow(a, k, i, r))
  {
    var r' := EliminateRow(a, k, i, r);
    var p0 := |r.steps|;
    AppendedSteps(a, k, i, r);
    AppendedShapes(a, k, i, r);
    AppendedPairs(a, k, i, r);
    AppendedFactorisations(a, k, i, r);
    AppendedOrder(a, k, i, r);
    AppendedEnds(a, k, i, r);
    AppendedPivotRows(a, k, i, r);
  }

  lemma AppendedEnds(a: Matrix, k: nat, i: nat, r: Run)
    requires Shaped(a, r) && k < i < |a| && r.u[k][k] != 0.0
    requires |r.steps| % 2 == 1 && r.steps[0] == InitialStep(a)
    ensures var r' := EliminateRow(a, k, i, r);
            && |r'.steps| % 2 == 1
            && r'.steps[0] == InitialStep(a)
            && r'.steps[|r'.steps| - 1].l == r'.l && r'.steps[|r'.steps| - 1].u == r'.u
  {
    var r' := EliminateRow(a, k, i, r);
    AppendedSteps(a, k, i, r);
    assert |r'.steps| == |r.steps| + 2;
    assert r'.steps[0] == r.steps[0];
    var last := r'.steps[|r'.steps| - 1];
    assert last.l == r'.l && last.u == r'.u;
  }

  lemma AppendedPivotRows(a: Matrix, k: nat, i: nat, r: Run)
    requires Shaped(a, r) && k < i < |a| && r.u[k][k] != 0.0 && StepsInv(a, k, i, r)
    ensures var r' := EliminateRow(a, k, i, r);
            forall p :: 0 < p < |r'.steps| ==> r'.steps[p].u[r'.steps[p].pivotRow] == r'.u[r'.steps[p].pivotRow]
  {
    var r' := EliminateRow(a, k, i, r);
    var p0 := |r.steps|;
    AppendedSteps(a, k, i, r);
    forall p | 0 < p < |r'.steps|
      ensures r'.steps[p].u[r'.steps[p].pivotRow] == r'.u[r'.steps[p].pivotRow]
    {
      if p < p0 {
        assert r'.steps[p] == r.steps[p];
        assert ComesBefore(r.steps[p], k, i);
      }
    }
  }

  /** The two snapshots EliminateRow appends, written out. */
  lemma AppendedSteps(a: Matrix, k: nat, i: nat, r: Run)
    requires Shaped(a, r) && k < i < |a| && r.u[k][k] != 0.0
    ensures var m := r.u[i][k] / r.u[k][k];
            var r' := EliminateRow(a, k, i, r);
            && r'.l == SetEntry(r.l, i, k, m)
            && r'.u == RowOperation(r.u, k, i, m)
            && r'.steps == r.steps + [Step(ComputingMultiplier(|r.steps| + 1), a, r'.l, r.u, i, k, m, m),
                                      Step(ApplyingRowOperation(|r.steps| + 2), a, r'.l, r'.u, i, k, m, m)]
  {
    DeepCopyIsSame(a);
  }

  lemma AppendedShapes(a: Matrix, k: nat, i: nat, r: Run)
    requires RunInv(a, k, i, r) && i < |a| && r.u[k][k] != 0.0
    ensures var steps := EliminateRow(a, k, i, r).steps;
            && (forall p :: 0 <= p < |steps| ==> SnapshotShape(a, steps[p]) && steps[p].pivotRow < |a|)
            && (forall p :: 0 < p < |steps| ==> IntermediateStep(a, steps[p], p) && ComesBefore(steps[p], k, i + 1))
  {
    var r' := EliminateRow(a, k, i, r);
    var p0 := |r.steps|;
    var steps := r'.steps;
    AppendedSteps(a, k, i, r);
    SetEntryKeepsLShape(r.l, |a|, k, i, r.u[i][k] / r.u[k][k]);
    forall p | 0 <= p < |steps|
      ensures SnapshotShape(a, steps[p]) && steps[p].pivotRow < |a|
    {
      if p < p0 { assert steps[p] == r.steps[p]; }
    }
    forall p | 0 < p < |steps|
      ensures IntermediateStep(a, steps[p], p) && ComesBefore(steps[p], k, i + 1)
    {
      if p < p0 { assert steps[p] == r.steps[p]; }
    }
  }

  lemma AppendedPairs(a: Matrix, k: nat, i: nat, r: Run)
    requires RunInv(a, k, i, r) && i < |a| && r.u[k][k] != 0.0
    requires var steps := EliminateRow(a, k, i, r).steps;
             forall p :: 0 <= p < |steps| ==> SnapshotShape(a, steps[p]) && steps[p].pivotRow < |a|
    requires var steps := EliminateRow(a, k, i, r).steps;
             forall p :: 0 < p < |steps| ==> IntermediateStep(a, steps[p], p)
    ensures var steps := EliminateRow(a, k, i, r).steps;
            forall p :: 0 < p < |steps| && p % 2 == 1 ==>
              p + 1 < |steps| && BeforeStep(a, steps[p - 1], steps[p]) && AfterStep(a, steps[p], steps[p + 1])
  {
    var r' := EliminateRow(a, k, i, r);
    var p0 := |r.steps|;
    var steps := r'.steps;
    AppendedSteps(a, k, i, r);
    forall p | 0 < p < |steps| && p % 2 == 1
      ensures p + 1 < |steps| && BeforeStep(a, steps[p - 1], steps[p]) && AfterStep(a, steps[p], steps[p + 1])
    {
      if p < p0 {
        assert steps[p - 1] == r.steps[p - 1] && steps[p] == r.steps[p] && steps[p + 1] == r.steps[p + 1];
      } else {
        assert p == p0 && steps[p - 1] == r.steps[p0 - 1];
      }
    }
  }

  lemma AppendedFactorisations(a: Matrix, k: nat, i: nat, r: Run)
    requires RunInv(a, k, i, r) && i < |a| && r.u[k][k] != 0.0
    requires NoSkipSoFar(EliminateRow(a, k, i, r).u, k, i + 1) ==> Clean(a, EliminateRow(a, k, i, r).l, EliminateRow(a, k, i, r).u, k, i + 1)
    requires var steps := EliminateRow(a, k, i, r).steps;
             forall p :: 0 <= p < |steps| ==> SnapshotShape(a, steps[p]) && steps[p].pivotRow < |a|
    ensures var r' := EliminateRow(a, k, i, r);
            forall p :: 0 <= p < |r'.steps| && p % 2 == 0 ==> FactorisedUnlessSkipped(a, r'.steps[p], r'.u)
  {
    var r' := EliminateRow(a, k, i, r);
    var p0 := |r.steps|;
    var steps := r'.steps;
    AppendedSteps(a, k, i, r);
    assert forall c :: 0 <= c <= k ==> r'.u[c] == r.u[c];
    forall p | 0 <= p < |steps| && p % 2 == 0
      ensures FactorisedUnlessSkipped(a, steps[p], r'.u)
    {
      if p < p0 {
        assert steps[p] == r.steps[p];
        assert FactorisedUnlessSkipped(a, r.steps[p], r.u);
      } else {
        assert p == p0 + 1;
      }
    }
  }

  lemma AppendedOrder(a: Matrix, k: nat, i: nat, r: Run)
    requires Shaped(a, r) && k < i < |a| && r.u[k][k] != 0.0 && StepsInv(a, k, i, r)
    ensures var steps := EliminateRow(a, k, i, r).steps;
            forall p, q :: 0 < p < q < |steps| && p % 2 == 1 && q % 2 == 1 ==>
              ComesBefore(steps[p], steps[q].pivotRow, steps[q].currentRow)
  {
    var r' := EliminateRow(a, k, i, r);
    var p0 := |r.steps|;
    var steps := r'.steps;
    AppendedSteps(a, k, i, r);
    forall p, q | 0 < p < q < |steps| && p % 2 == 1 && q % 2 == 1
      ensures ComesBefore(steps[p], steps[q].pivotRow, steps[q].currentRow)
    {
      if q < p0 { assert steps[p] == r.steps[p] && steps[q] == r.steps[q]; }
      else { assert steps[p] == r.steps[p]; }
    }
  }

  /**
   * One pass of the inner loop body, skipped or not, keeps the invariant.
   * The invariant is compared with true so that callers pass it on as one
   * fact instead of re-proving each of its conjuncts.
   */
  lemma RowKeepsRunInv(a: Matrix, k: nat, i: nat, r: Run)
    requires RunInv(a, k, i, r) == true && i < |a|
    ensures RunInv(a, k, i + 1, EliminateRow(a, k, i, r)) == true
  {
    if r.u[k][k] == 0.0 {
      SkippedRowKeepsRunInv(a, k, i, r);
    } else {
      EliminatedRowKeepsRunInv(a, k, i, r);
    }
  }

  /** Finishing column k is starting column k + 1. */
  lemma NextColumnRunInv(a: Matrix, k: nat, r: Run)
    requires RunInv(a, k, |a|, r) && k + 1 < |a|
    ensures RunInv(a, k + 1, k + 2, r)
  {
    NextColumnLShape(r.l, |a|, k);
    NextColumnClean(a, r.l, r.u, k);
    NextColumnSteps(a, k, r);
  }

  lemma NextColumnLShape(l: Matrix, n: nat, k: nat)
    requires LShape(l, n, k, n) && k + 1 < n
    ensures LShape(l, n, k + 1, k + 2)
  {
  }

  lemma NextColumnClean(a: Matrix, l: Matrix, u: Matrix, k: nat)
    requires IsSquare(a, |a|) && k + 1 < |a| && IsSquare(l, |a|) && IsSquare(u, |a|)
    requires NoSkipSoFar(u, k, |a|) ==> Clean(a, l, u, k, |a|)
    ensures NoSkipSoFar(u, k + 1, k + 2) ==> Clean(a, l, u, k + 1, k + 2)
  {
    if NoSkipSoFar(u, k + 1, k + 2) {
      assert NoSkipSoFar(u, k, |a|);
    }
  }

  lemma NextColumnSteps(a: Matrix, k: nat, r: Run)
    requires Shaped(a, r) && k + 1 < |a| && StepsInv(a, k, |a|, r)
    ensures StepsInv(a, k + 1, k + 2, r)
  {
  }
}
