/**
 * The matrix component: a grid with one cell per entry, formatted either
 * with two decimals or as a fraction, where the cells of one row and one
 * column are highlighted and the cell at their crossing is emphasised and
 * may show a substitute value.
 */
module MatrixDisplay {
  import opened Wrappers
  import opened JsMath
  import opened Matrices
  import opened Fractions

  /**
   * `formatValue`: the fraction formatter when fractions are on, two
   * decimals of the value otherwise. Only the fraction formatter's fallback
   * formats |v| instead of v.
   */
  function FormatValue(v: real, useFractions: bool): (r: Rendering)
    ensures !useFractions ==> r == Fixed2(v)
    ensures useFractions ==> r == DecimalToFraction(v)
    ensures r.Fixed2? ==> r.value == if useFractions then Abs(v) else v
    ensures r.Int? || r.Frac? ==> useFractions && r.negative == (v < 0.0)
  {
    if useFractions then DecimalToFraction(v) else Fixed2(v)
  }

  /**
   * The text stands for a number whose magnitude is within 0.01 of |v|. It
   * is within 0.01 of v itself, except when fractions are on, v is negative
   * and the formatter falls back to two decimals of -v.
   */
  lemma FormatValueClose(v: real, useFractions: bool)
    ensures var r := FormatValue(v, useFractions);
            && Abs(Abs(r.Value()) - Abs(v)) <= Tolerance
            && (Abs(r.Value() - v) <= Tolerance || (useFractions && v < 0.0 && r == Fixed2(-v)))
  {
    if useFractions {
      MagnitudeClose(v);
    }
  }

  /** One cell of the grid. */
  datatype Cell = Cell(text: Rendering, highlighted: bool, emphasised: bool)

  /** The cell lies in the highlighted row or the highlighted column. */
  predicate IsHighlighted(row: int, col: int, highlightRow: int, highlightCol: int) {
    row == highlightRow || col == highlightCol
  }

  /** The cell is at the crossing of the highlighted row and column. */
  predicate IsSpecificHighlight(row: int, col: int, highlightRow: int, highlightCol: int) {
    row == highlightRow && col == highlightCol
  }

  /**
   * The text of one cell: the substitute value at the crossing when one is
   * given, the entry itself everywhere else.
   */
  function CellText(value: real, specific: bool, highlightValue: Option<real>, useFractions: bool): (r: Rendering)
    ensures specific && highlightValue.Some? ==> r == FormatValue(highlightValue.value, useFractions)
    ensures !(specific && highlightValue.Some?) ==> r == FormatValue(value, useFractions)
  {
    if specific && highlightValue.Some? then FormatValue(highlightValue.value, useFractions)
    else FormatValue(value, useFractions)
  }

  /**
   * `MatrixDisplay`: None ("No matrix data") for an empty matrix, otherwise
   * one row of cells per matrix row and one cell per entry.
   */
  function Display(m: Matrix, highlightRow: int, highlightCol: int, highlightValue: Option<real>, useFractions: bool)
    : (grid: Option<seq<seq<Cell>>>)
    ensures grid.None? <==> |m| == 0
    ensures grid.Some? ==> |grid.value| == |m| && forall r :: 0 <= r < |m| ==> |grid.value[r]| == |m[r]|
    ensures grid.Some? ==> forall r, c :: 0 <= r < |m| && 0 <= c < |m[r]| ==>
              grid.value[r][c] == Cell(
                CellText(m[r][c], IsSpecificHighlight(r, c, highlightRow, highlightCol), highlightValue, useFractions),
                IsHighlighted(r, c, highlightRow, highlightCol),
                IsSpecificHighlight(r, c, highlightRow, highlightCol))
  {
    if |m| == 0 then None
    else
      Some(seq(|m|, r requires 0 <= r < |m| => seq(|m[r]|, c requires 0 <= c < |m[r]| =>
        var specific := IsSpecificHighlight(r, c, highlightRow, highlightCol);
        Cell(CellText(m[r][c], specific, highlightValue, useFractions),
             IsHighlighted(r, c, highlightRow, highlightCol),
             specific))))
  }

  /**
   * With the defaults -1 and no substitute value nothing is highlighted and
   * every cell shows its own entry.
   */
  lemma DefaultsHighlightNothing(m: Matrix, useFractions: bool)
    requires |m| > 0
    ensures var grid := Display(m, -1, -1, None, useFractions).value;
            forall r, c :: 0 <= r < |m| && 0 <= c < |m[r]| ==>
              !grid[r][c].highlighted && !grid[r][c].emphasised && grid[r][c].text == FormatValue(m[r][c], useFractions)
  {
  }

  /**
   * At most one cell is emphasised, it is also highlighted, and only it can
   * show the substitute value; the highlighted cells are exactly those of
   * the highlighted row and column.
   */
  lemma HighlightShape(m: Matrix, highlightRow: int, highlightCol: int, highlightValue: Option<real>, useFractions: bool)
    requires |m| > 0
    ensures var grid := Display(m, highlightRow, highlightCol, highlightValue, useFractions).value;
            && (forall r, c :: 0 <= r < |m| && 0 <= c < |m[r]| && grid[r][c].emphasised ==>
                  r == highlightRow && c == highlightCol && grid[r][c].highlighted)
            && (forall r, c :: 0 <= r < |m| && 0 <= c < |m[r]| ==>
                  (grid[r][c].highlighted <==> r == highlightRow || c == highlightCol))
            && (forall r, c :: 0 <= r < |m| && 0 <= c < |m[r]| && !grid[r][c].emphasised ==>
                  grid[r][c].text == FormatValue(m[r][c], useFractions))
  {
  }

  /**
   * A substitute equal to the entry it replaces changes nothing: the grid is
   * the one without a substitute.
   */
  lemma MatchingSubstituteInvisible(m: Matrix, highlightRow: int, highlightCol: int, useFractions: bool)
    requires 0 <= highlightRow < |m| && 0 <= highlightCol < |m[highlightRow]|
    ensures Display(m, highlightRow, highlightCol, Some(m[highlightRow][highlightCol]), useFractions)
            == Display(m, highlightRow, highlightCol, None, useFractions)
  {
    var g1 := Display(m, highlightRow, highlightCol, Some(m[highlightRow][highlightCol]), useFractions).value;
    var g2 := Display(m, highlightRow, highlightCol, None, useFractions).value;
    assert |g1| == |g2|;
    forall r | 0 <= r < |m|
      ensures g1[r] == g2[r]
    {
      assert |g1[r]| == |g2[r]|;
      forall c | 0 <= c < |m[r]|
        ensures g1[r][c] == g2[r][c]
      {
      }
    }
    assert g1 == g2;
  }
}
