/**
 * The input panel: editing one cell of the matrix, and the example matrix
 * for each size.
 */
module MatrixInput {
  import opened Wrappers
  import opened Matrices
  import opened Gcd
  import opened Fractions
  import opened LuDecomposition
  import opened LuProofs
  import opened StepVisualizer

  /**
   * What the text of a cell reads as: empty, a number (`parseFloat`
   * succeeded), or something `parseFloat` turns into NaN.
   */
  datatype CellInput = Blank | Number(value: real) | NotANumber

  /**
   * `handleCellChange`: a blank cell stands for 0, an unreadable one leaves
   * the matrix as it is (None: `onMatrixChange` is not called), and any
   * other value replaces exactly the edited entry.
   */
  function HandleCellChange(m: Matrix, row: nat, col: nat, input: CellInput): (m': Option<Matrix>)
    requires row < |m| && col < |m[row]|
    ensures m'.None? <==> input.NotANumber?
    ensures m'.Some? ==> |m'.value| == |m| && forall r :: 0 <= r < |m| ==> |m'.value[r]| == |m[r]|
    ensures m'.Some? ==> forall r, c :: 0 <= r < |m| && 0 <= c < |m[r]| && (r != row || c != col) ==>
              m'.value[r][c] == m[r][c]
    ensures m'.Some? ==> m'.value[row][col] == (if input.Blank? then 0.0 else input.value)
  {
    match input
    case NotANumber => None
    case Blank => Some(m[row := m[row][col := 0.0]])
    case Number(v) => Some(m[row := m[row][col := v]])
  }

  /** Editing keeps a square matrix square. */
  lemma EditKeepsSquare(m: Matrix, n: nat, row: nat, col: nat, input: CellInput)
    requires IsSquare(m, n) && row < n && col < n && !input.NotANumber?
    ensures IsSquare(HandleCellChange(m, row, col, input).value, n)
  {
  }

  /** Writing an entry's own value back changes nothing. */
  lemma RewriteIsIdentity(m: Matrix, row: nat, col: nat)
    requires row < |m| && col < |m[row]|
    ensures HandleCellChange(m, row, col, Number(m[row][col])) == Some(m)
  {
    assert m[row][col := m[row][col]] == m[row];
    assert m[row := m[row]] == m;
  }

  /** Two edits of one cell: the second wins. */
  lemma LastEditWins(m: Matrix, row: nat, col: nat, first: real, second: CellInput)
    requires row < |m| && col < |m[row]| && !second.NotANumber?
    ensures HandleCellChange(HandleCellChange(m, row, col, Number(first)).value, row, col, second)
            == HandleCellChange(m, row, col, second)
  {
    var m1 := HandleCellChange(m, row, col, Number(first)).value;
    var v := if second.Blank? then 0.0 else second.value;
    assert m1[row][col := v] == m[row][col := v];
    assert m1[row := m[row][col := v]] == m[row := m[row][col := v]];
  }

  /** Edits of two different cells can be made in either order. */
  lemma EditsCommute(m: Matrix, r1: nat, c1: nat, v1: real, r2: nat, c2: nat, v2: real)
    requires r1 < |m| && c1 < |m[r1]| && r2 < |m| && c2 < |m[r2]| && (r1 != r2 || c1 != c2)
    ensures HandleCellChange(m, r1, c1, Number(v1)).Some?
    ensures HandleCellChange(m, r2, c2, Number(v2)).Some?
    ensures HandleCellChange(HandleCellChange(m, r1, c1, Number(v1)).value, r2, c2, Number(v2))
            == HandleCellChange(HandleCellChange(m, r2, c2, Number(v2)).value, r1, c1, Number(v1))
  {
    var a := HandleCellChange(HandleCellChange(m, r1, c1, Number(v1)).value, r2, c2, Number(v2)).value;
    var b := HandleCellChange(HandleCellChange(m, r2, c2, Number(v2)).value, r1, c1, Number(v1)).value;
    assert |a| == |b|;
    forall r | 0 <= r < |m|
      ensures a[r] == b[r]
    {
      assert |a[r]| == |b[r]|;
    }
    assert a == b;
  }

  /** The n-by-n tridiagonal matrix with 4 on the diagonal and -1 beside it. */
  function Tridiagonal(n: nat): (m: Matrix)
    ensures IsSquare(m, n)
    ensures forall i, j :: 0 <= i < n && 0 <= j < n ==>
              && m[i][j] == m[j][i]
              && (m[i][j] == 4.0 <==> i == j)
              && ((i - j == 1 || j - i == 1) ==> m[i][j] == -1.0)
              && (m[i][j] != 0.0 ==> -1 <= i - j <= 1)
  {
    seq(n, i => seq(n, j => if i == j then 4.0 else if i - j == 1 || j - i == 1 then -1.0 else 0.0))
  }

  /**
   * `generateExampleMatrix`: fixed matrices for sizes 2, 3 and 4, the
   * tridiagonal rule for every other size.
   */
  function GenerateExample(size: nat): (m: Matrix)
    ensures IsSquare(m, size)
    ensures size != 2 && size != 3 ==> m == Tridiagonal(size)
  {
    if size == 2 then [[4.0, 3.0], [6.0, 3.0]]
    else if size == 3 then [[2.0, -1.0, 0.0], [-1.0, 2.0, -1.0], [0.0, -1.0, 2.0]]
    else if size == 4 then
      var m := [[4.0, -1.0, 0.0, 0.0], [-1.0, 4.0, -1.0, 0.0], [0.0, -1.0, 4.0, -1.0], [0.0, 0.0, -1.0, 4.0]];
      assert m == Tridiagonal(4) by {
        var t := Tridiagonal(4);
        assert t[0] == m[0] && t[1] == m[1] && t[2] == m[2] && t[3] == m[3];
      }
      m
    else Tridiagonal(size)
  }

  /** The size-3 example is not the tridiagonal rule: it has 2, not 4, on its diagonal. */
  lemma SizeThreeExampleDiffers()
    ensures GenerateExample(3) != Tridiagonal(3)
  {
    assert GenerateExample(3)[0][0] == 2.0;
    assert Tridiagonal(3)[0][0] == 4.0;
  }

  /**
   * The size-2 example [[4, 3], [6, 3]] decomposes in four snapshots with
   * the one multiplier 6/4, shown as 3/2 on the row operation line, into
   * L = [[1, 0], [3/2, 1]] and U = [[4, 3], [0, -3/2]].
   */
  lemma SizeTwoExampleDecomposition()
    ensures var steps := Decompose(GenerateExample(2));
            && |steps| == 4
            && steps[1].multiplier == 1.5
            && RowOperationLine(steps[1]) == Some(RowLine(2, Frac(false, 3, 2), 1))
            && steps[3].l == [[1.0, 0.0], [1.5, 1.0]]
            && steps[3].u == [[4.0, 3.0], [0.0, -1.5]]
  {
    var a := GenerateExample(2);
    SizeTwoElimination();
    var r := Eliminate(a);
    var steps := Decompose(a);
    assert steps[1] == r.steps[1] && steps[3].l == r.l && steps[3].u == r.u;
    ThreeHalvesShown();
  }

  /** 1.5 is shown as the fraction 3/2. */
  lemma ThreeHalvesShown()
    ensures DecimalToFraction(1.5) == Frac(false, 3, 2)
  {
    assert Coprime(3, 2) by {
      forall c | Divides(c, 3) && Divides(c, 2)
        ensures c == 1
      {
      }
    }
    ExactFractionsShown(false, 3, 2);
    assert Signed(false, 3, 2) == 1.5;
  }

  /** The loops on the size-2 example: one eliminated pair, row 2 minus 3/2 times row 1. */
  lemma SizeTwoElimination()
    ensures var r := Eliminate(GenerateExample(2));
            && r.l == [[1.0, 0.0], [1.5, 1.0]]
            && r.u == [[4.0, 3.0], [0.0, -1.5]]
            && |r.steps| == 3
            && r.steps[1].currentRow == 1 && r.steps[1].pivotRow == 0
            && r.steps[1].multiplier == 1.5 && r.steps[1].rawMultiplier == 1.5
  {
    var a := GenerateExample(2);
    DeepCopyIsSame(a);
    var r0 := Run(Identity(2), a, [InitialStep(a)]);
    var l1 := [[1.0, 0.0], [1.5, 1.0]];
    var u1 := [[4.0, 3.0], [0.0, -1.5]];
    assert Identity(2) == [[1.0, 0.0], [0.0, 1.0]] by {
      assert Identity(2)[0] == [1.0, 0.0] && Identity(2)[1] == [0.0, 1.0];
    }
    assert SetEntry(Identity(2), 1, 0, 1.5) == l1 by {
      assert [0.0, 1.0][0 := 1.5] == [1.5, 1.0];
    }
    assert RowOperation(a, 0, 1, 1.5) == u1 by {
      assert RowOperation(a, 0, 1, 1.5)[1] == u1[1];
    }
    var r1 := EliminateRow(a, 0, 1, r0);
    assert r1.l == l1 && r1.u == u1 && |r1.steps| == 3;
    assert EliminateColumn(a, 0, 1, r0) == r1;
    assert EliminateFrom(a, 1, r1) == r1;
    assert Eliminate(a) == r1;
  }
}
