/**
 * The result panel: it multiplies the final L and U, rounding every entry
 * of the product to three decimals, and compares the rounded product with
 * the input entry by entry within 0.001 to decide between "The
 * decomposition is correct" and "has some errors".
 */
module ResultDisplay {
  import opened JsMath
  import opened Matrices
  import opened LuDecomposition
  import opened LuProofs
  import opened LuTheorems

  /** The comparison tolerance of `isMatrixEqual`. */
  const Tolerance: real := 0.001

  /** `Math.round(s * 1000) / 1000`: s rounded to the nearest thousandth. */
  function Round3(s: real): (r: real)
    ensures s - 0.0005 < r <= s + 0.0005
    ensures IsThousandths(r)
  {
    var n := Round(s * 1000.0);
    assert (n as real / 1000.0) * 1000.0 == n as real;
    n as real / 1000.0
  }

  /** r is a whole number of thousandths. */
  predicate IsThousandths(r: real) {
    (r * 1000.0).Floor as real == r * 1000.0
  }

  /** A value that is already a whole number of thousandths is left alone. */
  lemma Round3Fixes(r: real)
    requires IsThousandths(r)
    ensures Round3(r) == r
  {
    var n := (r * 1000.0).Floor;
    RoundInteger(n);
    assert r * 1000.0 == n as real;
  }

  /** Rounding twice is rounding once. */
  lemma Round3Idempotent(s: real)
    ensures Round3(Round3(s)) == Round3(s)
  {
    Round3Fixes(Round3(s));
  }

  /**
   * The product the panel displays and checks: the exact product of x and
   * y with every entry rounded to thousandths.
   */
  function RoundedProduct(x: Matrix, y: Matrix): (p: Matrix)
    requires ProductDefined(x, y)
    ensures |p| == |x|
    ensures forall r :: 0 <= r < |p| ==> |p[r]| == |y[0]|
    ensures forall r, j :: 0 <= r < |p| && 0 <= j < |y[0]| ==>
              IsThousandths(p[r][j]) && Product(x, y)[r][j] - 0.0005 < p[r][j] <= Product(x, y)[r][j] + 0.0005
  {
    var exact := Product(x, y);
    seq(|x|, r requires 0 <= r < |x| => seq(|y[0]|, j requires 0 <= j < |y[0]| => Round3(exact[r][j])))
  }

  /**
   * `multiplyMatrices`: three nested loops accumulate
   * x[i][0]*y[0][j] + ... left to right, then round the sum.
   */
  method MultiplyMatrices(x: Matrix, y: Matrix) returns (p: Matrix)
    requires ProductDefined(x, y)
    ensures p == RoundedProduct(x, y)
  {
    var target := RoundedProduct(x, y);
    p := [];
    var i := 0;
    while i < |x|
      invariant 0 <= i <= |x|
      invariant p == target[..i]
    {
      var row: seq<real> := [];
      var j := 0;
      while j < |y[0]|
        invariant 0 <= j <= |y[0]|
        invariant row == target[i][..j]
      {
        var sum := 0.0;
        var k := 0;
        while k < |x[0]|
          invariant 0 <= k <= |x[0]|
          invariant ColumnPrefixExists(y, j, k)
          invariant sum == RowTimesColumn(x[i], y, j, k)
        {
          sum := sum + x[i][k] * y[k][j];
          k := k + 1;
        }
        row := row + [Round3(sum)];
        j := j + 1;
      }
      assert row == target[i];
      p := p + [row];
      i := i + 1;
    }
  }

  /**
   * Entry (i, j) counts as a mismatch: both entries exist and differ by more
   * than the tolerance. A missing entry reads as `undefined`, the
   * difference is NaN, and NaN > 0.001 is false, so it is no mismatch.
   */
  predicate Differs(a: Matrix, b: Matrix, i: nat, j: nat) {
    && i < |a| && i < |b| && j < |a[i]| && j < |b[i]|
    && Abs(a[i][j] - b[i][j]) > Tolerance
  }

  /**
   * What `isMatrixEqual` decides: the same number of rows, first rows of
   * the same length, and no mismatch within |a| rows and |a[0]| columns.
   */
  predicate ApproxEqual(a: Matrix, b: Matrix)
    requires |a| != |b| || |a| > 0
  {
    && |a| == |b|
    && |a[0]| == |b[0]|
    && forall i, j :: 0 <= i < |a| && 0 <= j < |a[0]| ==> !Differs(a, b, i, j)
  }

  /**
   * `isMatrixEqual`. Two empty matrices make the original read the first
   * row of an empty array and throw, so that case is excluded.
   */
  method IsMatrixEqual(a: Matrix, b: Matrix) returns (equal: bool)
    requires |a| != |b| || |a| > 0
    ensures equal == ApproxEqual(a, b)
  {
    if |a| != |b| || |a[0]| != |b[0]| {
      return false;
    }
    var i := 0;
    while i < |a|
      invariant 0 <= i <= |a|
      invariant forall i', j :: 0 <= i' < i && 0 <= j < |a[0]| ==> !Differs(a, b, i', j)
    {
      var j := 0;
      while j < |a[0]|
        invariant 0 <= j <= |a[0]|
        invariant forall j' :: 0 <= j' < j ==> !Differs(a, b, i, j')
      {
        if j < |a[i]| && j < |b[i]| && Abs(a[i][j] - b[i][j]) > Tolerance {
          assert Differs(a, b, i, j);
          return false;
        }
        j := j + 1;
      }
      i := i + 1;
    }
    return true;
  }

  /** On two matrices of one rectangular shape, ApproxEqual is "every entry within 0.001". */
  lemma ApproxEqualOnShape(a: Matrix, b: Matrix, rows: nat, cols: nat)
    requires rows > 0 && |a| == rows && |b| == rows
    requires forall i :: 0 <= i < rows ==> |a[i]| == cols && |b[i]| == cols
    ensures ApproxEqual(a, b) <==>
            forall i, j :: 0 <= i < rows && 0 <= j < cols ==> Abs(a[i][j] - b[i][j]) <= Tolerance
  {
    if ApproxEqual(a, b) {
      forall i, j | 0 <= i < rows && 0 <= j < cols
        ensures Abs(a[i][j] - b[i][j]) <= Tolerance
      {
        assert !Differs(a, b, i, j);
      }
    }
  }

  /** Every non-empty matrix is ApproxEqual to itself, ... */
  lemma ApproxEqualReflexive(a: Matrix)
    requires |a| > 0
    ensures ApproxEqual(a, a)
  {
    forall i, j | 0 <= i < |a| && 0 <= j < |a[0]|
      ensures !Differs(a, a, i, j)
    {
    }
  }

  /** ... the comparison does not depend on the order of its arguments ... */
  lemma ApproxEqualSymmetric(a: Matrix, b: Matrix)
    requires |a| > 0
    ensures ApproxEqual(a, b) <==> ApproxEqual(b, a)
  {
    if ApproxEqual(a, b) {
      forall i, j | 0 <= i < |b| && 0 <= j < |b[0]|
        ensures !Differs(b, a, i, j)
      {
        assert !Differs(a, b, i, j);
      }
    }
    if |b| > 0 && ApproxEqual(b, a) {
      forall i, j | 0 <= i < |a| && 0 <= j < |a[0]|
        ensures !Differs(a, b, i, j)
      {
        assert !Differs(b, a, i, j);
      }
    }
  }

  /** ... but it is not transitive: 0 ~ 0.001 ~ 0.002, yet 0 is not ~ 0.002. */
  lemma ApproxEqualNotTransitive()
    ensures ApproxEqual([[0.0]], [[0.001]]) && ApproxEqual([[0.001]], [[0.002]])
    ensures !ApproxEqual([[0.0]], [[0.002]])
  {
    assert !Differs([[0.0]], [[0.001]], 0, 0);
    assert !Differs([[0.001]], [[0.002]], 0, 0);
    assert Differs([[0.0]], [[0.002]], 0, 0);
  }

  /** Rounding an exact factorisation still passes the comparison. */
  lemma ExactProductPasses(a: Matrix, l: Matrix, u: Matrix)
    requires ProductDefined(l, u) && Product(l, u) == a
    ensures ApproxEqual(RoundedProduct(l, u), a)
  {
    var p := RoundedProduct(l, u);
    forall i, j | 0 <= i < |p| && 0 <= j < |p[0]|
      ensures !Differs(p, a, i, j)
    {
    }
  }

  /**
   * The `useEffect` of the panel: with both factors non-empty the verdict is
   * the comparison of their rounded product with the input; otherwise the
   * previous verdict stays.
   */
  function Verdict(previous: bool, a: Matrix, l: Matrix, u: Matrix): (correct: bool)
    requires |l| > 0 && |u| > 0 ==> ProductDefined(l, u)
    ensures |l| == 0 || |u| == 0 ==> correct == previous
    ensures |l| > 0 && |u| > 0 && correct ==> |a| == |l| && |a[0]| == |u[0]|
    ensures |l| > 0 && |u| > 0 && correct ==>
              forall i, j :: 0 <= i < |a| && 0 <= j < |a[0]| && j < |a[i]| ==> Abs(Product(l, u)[i][j] - a[i][j]) <= Tolerance + 0.0005
  {
    if |l| > 0 && |u| > 0 then
      var p := RoundedProduct(l, u);
      var correct := ApproxEqual(p, a);
      if correct then
        assert forall i, j :: 0 <= i < |a| && 0 <= j < |a[0]| && j < |a[i]| ==>
          Abs(Product(l, u)[i][j] - a[i][j]) <= Tolerance + 0.0005 by {
          forall i, j | 0 <= i < |a| && 0 <= j < |a[0]| && j < |a[i]|
            ensures Abs(Product(l, u)[i][j] - a[i][j]) <= Tolerance + 0.0005
          {
            assert !Differs(p, a, i, j);
            assert Abs(p[i][j] - Product(l, u)[i][j]) <= 0.0005;
          }
        }
        correct
      else correct
    else previous
  }

  /**
   * A decomposition without zero pivots is always reported correct: the
   * final L and U multiply to the input exactly, and rounding to
   * thousandths stays within the tolerance.
   */
  lemma DecompositionReportedCorrect(a: Matrix)
    requires IsSquare(a, |a|) && |a| > 0 && NoZeroPivot(a)
    ensures var last := Decompose(a)[|Decompose(a)| - 1];
            && ProductDefined(last.l, last.u)
            && Verdict(false, a, last.l, last.u)
  {
    var last := Decompose(a)[|Decompose(a)| - 1];
    FinalFactorisation(a);
    SnapshotsFrame(a);
    ExactProductPasses(a, last.l, last.u);
  }

  /**
   * A zero pivot can slip through: for [[0, 1], [1, 0]] the only column is
   * skipped, so the final L is the identity and U is the input itself.
   * L * U = A holds and the panel reports a correct decomposition although
   * U is not upper-triangular.
   */
  lemma ZeroPivotReportedCorrect()
    ensures var a := [[0.0, 1.0], [1.0, 0.0]];
            var last := Decompose(a)[|Decompose(a)| - 1];
            && last.l == Identity(2) && last.u == a
            && !UpperTriangular(last.u)
            && ProductDefined(last.l, last.u)
            && Verdict(false, a, last.l, last.u)
  {
    var a := [[0.0, 1.0], [1.0, 0.0]];
    DeepCopyIsSame(a);
    var r0 := Run(Identity(2), DeepCopy(a), [InitialStep(a)]);
    assert EliminateRow(a, 0, 1, r0) == r0;
    assert EliminateColumn(a, 0, 1, r0) == r0;
    assert EliminateFrom(a, 1, r0) == r0;
    assert Eliminate(a) == r0;
    IdentityLeftUnit(a, 2);
    ExactProductPasses(a, Identity(2), a);
  }

  /**
   * A skipped column does not always go unnoticed: for this input column 0
   * is skipped, row 3 of L × U comes out as [5, 3, 4] instead of [2, 3, 4],
   * and the panel reports the decomposition incorrect.
   */
  lemma ZeroPivotReportedIncorrect()
    ensures var a := [[0.0, 1.0, 2.0], [1.0, 1.0, 1.0], [2.0, 3.0, 4.0]];
            var last := Decompose(a)[|Decompose(a)| - 1];
            && last.l == [[1.0, 0.0, 0.0], [0.0, 1.0, 0.0], [0.0, 3.0, 1.0]]
            && last.u == [[0.0, 1.0, 2.0], [1.0, 1.0, 1.0], [2.0, 0.0, 1.0]]
            && ProductDefined(last.l, last.u)
            && Product(last.l, last.u)[2][0] == 5.0
            && !Verdict(false, a, last.l, last.u)
  {
    var a := [[0.0, 1.0, 2.0], [1.0, 1.0, 1.0], [2.0, 3.0, 4.0]];
    DeepCopyIsSame(a);
    var r0 := Run(Identity(3), DeepCopy(a), [InitialStep(a)]);
    assert EliminateRow(a, 0, 1, r0) == r0;
    assert EliminateRow(a, 0, 2, r0) == r0;
    assert EliminateColumn(a, 0, 1, r0) == r0;
    assert EliminateFrom(a, 0, r0) == EliminateFrom(a, 1, r0);
    var r1 := EliminateRow(a, 1, 2, r0);
    var l := [[1.0, 0.0, 0.0], [0.0, 1.0, 0.0], [0.0, 3.0, 1.0]];
    var u := [[0.0, 1.0, 2.0], [1.0, 1.0, 1.0], [2.0, 0.0, 1.0]];
    var id := Identity(3);
    assert id[0] == [1.0, 0.0, 0.0] && id[1] == [0.0, 1.0, 0.0] && id[2] == [0.0, 0.0, 1.0];
    assert r0.u[2][1] / r0.u[1][1] == 3.0;
    var l' := SetEntry(id, 2, 1, 3.0);
    assert l'[2] == l[2];
    assert l' == l;
    var u' := RowOperation(a, 1, 2, 3.0);
    assert u'[2][0] == 2.0 && u'[2][1] == 0.0 && u'[2][2] == 1.0;
    assert u'[2] == u[2];
    assert u' == u;
    assert r1.l == l && r1.u == u;
    assert EliminateColumn(a, 1, 2, r0) == r1;
    assert EliminateFrom(a, 1, r0) == EliminateFrom(a, 2, r1);
    assert EliminateFrom(a, 2, r1) == r1;
    assert Eliminate(a) == r1;
    assert ProductDefined(l, u);
    assert Product(l, u)[2][0] == RowTimesColumn(l[2], u, 0, 3) == 5.0;
    var p := RoundedProduct(l, u);
    assert Differs(p, a, 2, 0);
  }
}
