/**
 * The step panel: "Step i of n", a rounded percentage, the row operation
 * line r_i -> r_i - m x r_k for snapshots that have rows selected, and the
 * three matrices, with L highlighted at the multiplier's cell and U at the
 * current row.
 */
module StepVisualizer {
  import opened Wrappers
  import opened JsMath
  import opened Matrices
  import opened Fractions
  import opened MatrixDisplay
  import opened LuDecomposition
  import opened LuTheorems

  /** The multiplier shown: `rawMultiplier` when the snapshot has one, else `multiplier`. */
  function MultiplierValue(rawMultiplier: Option<real>, multiplier: real): real {
    rawMultiplier.GetOr(multiplier)
  }

  /**
   * The multiplier's text: "0" for zero, the fraction formatter otherwise.
   * The formatter already answers "0" for zero, so the text is always the
   * formatter's, the same text the L grid shows for that value.
   */
  function MultiplierText(v: real): (r: Rendering)
    ensures r == DecimalToFraction(v)
    ensures r == FormatValue(v, true)
  {
    if v != 0.0 then DecimalToFraction(v) else Int(false, 0)
  }

  /**
   * `Math.round(stepIndex / (totalSteps - 1) * 100)`. With a single step
   * the quotient is 0 / 0, NaN, shown as None.
   */
  function Progress(stepIndex: int, total: int): (pct: Option<int>)
    requires 0 <= stepIndex < total
    ensures pct.None? <==> total == 1
    ensures pct.Some? ==> 0 <= pct.value <= 100
    ensures pct.Some? && stepIndex == 0 ==> pct.value == 0
    ensures pct.Some? && stepIndex == total - 1 ==> pct.value == 100
  {
    if total == 1 then None
    else
      var q := stepIndex as real / (total - 1) as real;
      RatioBounds(stepIndex as real, (total - 1) as real);
      Some(Round(q * 100.0))
  }

  lemma RatioBounds(i: real, d: real)
    requires 0.0 <= i <= d && d >= 1.0
    ensures 0.0 <= i / d <= 1.0
    ensures i == 0.0 ==> i / d == 0.0
    ensures i == d ==> i / d == 1.0
  {
    NonNegativeQuotient(i, d);
    NonNegativeQuotient(d - i, d);
    QuotientDifference(d, i, d);
  }

  /** The percentage never decreases as the step index grows. */
  lemma ProgressMonotone(i: int, j: int, total: int)
    requires 0 <= i <= j < total && total >= 2
    ensures Progress(i, total).value <= Progress(j, total).value
  {
    var d := (total - 1) as real;
    RatioMonotone(i as real, j as real, d);
    RoundMonotone(i as real / d * 100.0, j as real / d * 100.0);
  }

  lemma RatioMonotone(i: real, j: real, d: real)
    requires i <= j && d > 0.0
    ensures i / d <= j / d
  {
    QuotientDifference(j, i, d);
    NonNegativeQuotient(j - i, d);
  }

  lemma RoundMonotone(x: real, y: real)
    requires x <= y
    ensures Round(x) <= Round(y)
  {
  }

  /** The row operation line: the 1-based current row, the multiplier text and the 1-based pivot row. */
  datatype RowLine = RowLine(row: int, multiplier: Rendering, pivot: int)

  /** The line is shown when both the current row and the pivot row are selected (non-negative). */
  function RowOperationLine(step: Step): (line: Option<RowLine>)
    ensures line.Some? <==> step.currentRow >= 0 && step.pivotRow >= 0
  {
    if step.currentRow >= 0 && step.pivotRow >= 0 then
      Some(RowLine(step.currentRow + 1, MultiplierText(MultiplierValue(Some(step.rawMultiplier), step.multiplier)), step.pivotRow + 1))
    else None
  }

  /** The whole panel for one snapshot. */
  datatype View = View(
    position: int,                      // "Step {stepIndex + 1}"
    total: int,                         // "of {totalSteps}"
    progress: Option<int>,
    line: Option<RowLine>,
    a: Option<seq<seq<Cell>>>,          // A: nothing highlighted, two decimals
    l: Option<seq<seq<Cell>>>,          // L: current row and pivot column, multiplier at the crossing, fractions
    u: Option<seq<seq<Cell>>>)          // U: current row, fractions

  function Render(step: Step, stepIndex: int, total: int): View
    requires 0 <= stepIndex < total
  {
    View(stepIndex + 1, total, Progress(stepIndex, total), RowOperationLine(step),
         Display(step.a, -1, -1, None, false),
         Display(step.l, step.currentRow, step.pivotRow, Some(step.multiplier), true),
         Display(step.u, step.currentRow, -1, None, true))
  }

  /**
   * Every snapshot strictly between the first and the last selects a pivot
   * row above its current row, stores the multiplier as rawMultiplier too,
   * and has the multiplier in L at (current row, pivot row).
   */
  lemma IntermediateSnapshot(a: Matrix, p: nat)
    requires IsSquare(a, |a|) && |a| > 0
    requires 0 < p < |Decompose(a)| - 1
    ensures var s := Decompose(a)[p];
            && 0 <= s.pivotRow < s.currentRow < |a|
            && IsSquare(s.l, |a|)
            && s.rawMultiplier == s.multiplier
            && s.l[s.currentRow][s.pivotRow] == s.multiplier
  {
    var steps := Decompose(a);
    if p % 2 == 1 {
      SnapshotPair(a, p);
    } else {
      SnapshotPair(a, p - 1);
    }
  }

  /**
   * On the snapshots of a decomposition, the row operation line appears
   * exactly on the snapshots between the first and the last, with labels
   * 1 <= pivot < row <= n and the multiplier of the snapshot, which is the
   * entry of L at the labelled position.
   */
  lemma RowLineOnIntermediateSteps(a: Matrix, p: nat)
    requires IsSquare(a, |a|) && |a| > 0
    requires p < |Decompose(a)|
    ensures var s := Decompose(a)[p];
            var line := RowOperationLine(s);
            && IsSquare(s.l, |a|)
            && (line.Some? <==> 0 < p < |Decompose(a)| - 1)
            && (line.Some? ==>
                  && 1 <= line.value.pivot < line.value.row <= |a|
                  && line.value.multiplier == DecimalToFraction(s.multiplier)
                  && s.l[line.value.row - 1][line.value.pivot - 1] == s.multiplier)
  {
    if 0 < p < |Decompose(a)| - 1 {
      IntermediateSnapshot(a, p);
    } else {
      SnapshotsFrame(a);
    }
  }

  /**
   * On an intermediate snapshot the L grid highlights the current row and
   * the pivot column, and the substitute value at their crossing is the
   * entry already there, so it shows that entry as a fraction. The U grid
   * highlights exactly the current row and emphasises no cell.
   */
  lemma HighlightsOnIntermediateSteps(a: Matrix, p: nat)
    requires IsSquare(a, |a|) && |a| > 0
    requires 0 < p < |Decompose(a)| - 1
    ensures var s := Decompose(a)[p];
            var v := Render(s, p, |Decompose(a)|);
            && IsSquare(s.l, |a|) && 0 <= s.pivotRow < s.currentRow < |a|
            && v.l == Display(s.l, s.currentRow, s.pivotRow, None, true)
            && v.l.value[s.currentRow][s.pivotRow].text == DecimalToFraction(s.multiplier)
            && v.l.value[s.currentRow][s.pivotRow].emphasised
            && IsSquare(s.u, |a|)
            && (forall r, c :: 0 <= r < |a| && 0 <= c < |a| ==>
                  (v.u.value[r][c].highlighted <==> r == s.currentRow) && !v.u.value[r][c].emphasised)
  {
    var s := Decompose(a)[p];
    IntermediateSnapshot(a, p);
    SnapshotsFrame(a);
    MatchingSubstituteInvisible(s.l, s.currentRow, s.pivotRow, true);
    HighlightShape(s.u, s.currentRow, -1, None, true);
  }

  /**
   * On an intermediate snapshot the row operation line and the emphasised
   * cell of the L grid show the same text for the multiplier.
   */
  lemma LineMatchesLCell(a: Matrix, p: nat)
    requires IsSquare(a, |a|) && |a| > 0
    requires 0 < p < |Decompose(a)| - 1
    ensures var s := Decompose(a)[p];
            var v := Render(s, p, |Decompose(a)|);
            && v.line.Some? && v.l.Some?
            && 0 <= s.currentRow < |v.l.value| && 0 <= s.pivotRow < |v.l.value[s.currentRow]|
            && v.line.value.multiplier == v.l.value[s.currentRow][s.pivotRow].text
  {
    RowLineOnIntermediateSteps(a, p);
    HighlightsOnIntermediateSteps(a, p);
  }

  /**
   * The first and the last snapshot show no row operation and highlight
   * nothing; the first shows 0% and the last 100%.
   */
  lemma EndpointViews(a: Matrix)
    requires IsSquare(a, |a|) && |a| > 0
    ensures var steps := Decompose(a);
            var first, last := Render(steps[0], 0, |steps|), Render(steps[|steps| - 1], |steps| - 1, |steps|);
            && first.line.None? && last.line.None?
            && first.progress == Some(0) && last.progress == Some(100)
            && first.l == Display(steps[0].l, -1, -1, None, true)
            && last.l == Display(steps[|steps| - 1].l, -1, -1, None, true)
  {
    var steps := Decompose(a);
    SnapshotsFrame(a);
    DefaultsSubstituteUnused(steps[0].l, 0.0);
    DefaultsSubstituteUnused(steps[|steps| - 1].l, 0.0);
  }

  /** With no row selected, a substitute value is never shown. */
  lemma DefaultsSubstituteUnused(m: Matrix, v: real)
    ensures Display(m, -1, -1, Some(v), true) == Display(m, -1, -1, None, true)
  {
    if |m| > 0 {
      var g1 := Display(m, -1, -1, Some(v), true).value;
      var g2 := Display(m, -1, -1, None, true).value;
      forall r | 0 <= r < |m|
        ensures g1[r] == g2[r]
      {
        assert |g1[r]| == |g2[r]|;
      }
      assert g1 == g2;
    }
  }

  /**
   * The "Step i of n" label runs from 1 to the number of snapshots, and the
   * percentage is always defined and never decreases along the walk.
   */
  lemma PositionsAndProgress(a: Matrix, p: nat, q: nat)
    requires IsSquare(a, |a|) && |a| > 0
    requires p <= q < |Decompose(a)|
    ensures var n := |Decompose(a)|;
            var vp, vq := Render(Decompose(a)[p], p, n), Render(Decompose(a)[q], q, n);
            && 1 <= vp.position <= vq.position <= vp.total == n
            && vp.progress.Some? && vq.progress.Some?
            && vp.progress.value <= vq.progress.value
  {
    ProgressMonotone(p, q, |Decompose(a)|);
  }
}
