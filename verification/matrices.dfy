/**
 * Dense matrices over the reals, as the visualizer stores them: a sequence of
 * rows, each a sequence of entries. Exact `real` arithmetic stands in for
 * JavaScript doubles throughout.
 */
module Matrices {

  type Matrix = seq<seq<real>>

  /** `m` has exactly `n` rows of exactly `n` entries each. */
  predicate IsSquare(m: Matrix, n: nat) {
    |m| == n && forall r :: 0 <= r < n ==> |m[r]| == n
  }

  /** Ones on the diagonal and zeros above it. */
  predicate UnitLowerTriangular(m: Matrix)
    requires IsSquare(m, |m|)
  {
    forall r, c :: 0 <= r < |m| && 0 <= c < |m| ==>
      (r == c ==> m[r][c] == 1.0) && (r < c ==> m[r][c] == 0.0)
  }

  /** Zeros below the diagonal. */
  predicate UpperTriangular(m: Matrix)
    requires IsSquare(m, |m|)
  {
    forall r, c :: 0 <= c < r < |m| ==> m[r][c] == 0.0
  }

  /** The n-by-n identity matrix (`createIdentityMatrix`). */
  function Identity(n: nat): (id: Matrix)
    ensures IsSquare(id, n)
    ensures UnitLowerTriangular(id) && UpperTriangular(id)
  {
    seq(n, i => seq(n, j => if i == j then 1.0 else 0.0))
  }

  /** A row-by-row copy (`deepCopyMatrix`); with value semantics it is the same matrix. */
  function DeepCopy(m: Matrix): (copy: Matrix)
    ensures |copy| == |m|
    ensures forall r :: 0 <= r < |m| ==> copy[r] == m[r]
  {
    seq(|m|, r requires 0 <= r < |m| => seq(|m[r]|, c requires 0 <= c < |m[r]| => m[r][c]))
  }

  /** The entries that the product accumulation reads exist. */
  predicate ColumnPrefixExists(y: Matrix, j: nat, c: nat) {
    c <= |y| && forall t :: 0 <= t < c ==> j < |y[t]|
  }

  /**
   * row[0]*y[0][j] + ... + row[c-1]*y[c-1][j], summed left to right as the
   * product loop accumulates it.
   */
  function RowTimesColumn(row: seq<real>, y: Matrix, j: nat, c: nat): real
    requires c <= |row| && ColumnPrefixExists(y, j, c)
  {
    if c == 0 then 0.0 else RowTimesColumn(row, y, j, c - 1) + row[c - 1] * y[c - 1][j]
  }

  /**
   * What the product loop reads exists: `x` has a first row, whose length is
   * the inner dimension; every row of `x` is at least that long; `y` has at
   * least that many rows, each at least as long as its first row.
   */
  predicate ProductDefined(x: Matrix, y: Matrix) {
    && |x| > 0 && |y| > 0
    && |x[0]| <= |y|
    && (forall r :: 0 <= r < |x| ==> |x[0]| <= |x[r]|)
    && (forall t :: 0 <= t < |x[0]| ==> |y[0]| <= |y[t]|)
  }

  /** The exact matrix product: |x| rows, |y[0]| columns, inner dimension |x[0]|. */
  function Product(x: Matrix, y: Matrix): (p: Matrix)
    requires ProductDefined(x, y)
    ensures |p| == |x|
    ensures forall r :: 0 <= r < |p| ==> |p[r]| == |y[0]|
    ensures forall r, j :: 0 <= r < |p| && 0 <= j < |y[0]| ==> p[r][j] == RowTimesColumn(x[r], y, j, |x[0]|)
  {
    seq(|x|, r requires 0 <= r < |x| =>
      seq(|y[0]|, j requires 0 <= j < |y[0]| => RowTimesColumn(x[r], y, j, |x[0]|)))
  }

  lemma SquareProductDefined(x: Matrix, y: Matrix, n: nat)
    requires n > 0 && IsSquare(x, n) && IsSquare(y, n)
    ensures ProductDefined(x, y)
    ensures IsSquare(Product(x, y), n)
  {
  }

  /** Replacing x by x' in the last term of a sum s + f * x shifts it by f * (x' - x). */
  lemma ReplaceTerm(s: real, f: real, x: real, x': real)
    ensures s + f * x' == (s + f * x) + f * (x' - x)
    ensures s + x' * f == (s + x * f) + (x' - x) * f
  {
  }

  /** Changing one entry of the row changes the sum by that entry's change times its column value. */
  lemma {:induction false} RowTimesColumnRowUpdate(row: seq<real>, y: Matrix, j: nat, c: nat, p: nat, v: real)
    requires c <= |row| && ColumnPrefixExists(y, j, c) && p < c
    ensures RowTimesColumn(row[p := v], y, j, c) == RowTimesColumn(row, y, j, c) + (v - row[p]) * y[p][j]
    decreases c
  {
    if p < c - 1 {
      RowTimesColumnRowUpdate(row, y, j, c - 1, p, v);
    } else {
      RowTimesColumnSameRow(row[p := v], row, y, j, c - 1);
      ReplaceTerm(RowTimesColumn(row, y, j, c - 1), y[p][j], row[p], v);
    }
  }

  /** The sum only reads the first c entries of the row. */
  lemma {:induction false} RowTimesColumnSameRow(row1: seq<real>, row2: seq<real>, y: Matrix, j: nat, c: nat)
    requires c <= |row1| && c <= |row2| && ColumnPrefixExists(y, j, c)
    requires forall t :: 0 <= t < c ==> row1[t] == row2[t]
    ensures RowTimesColumn(row1, y, j, c) == RowTimesColumn(row2, y, j, c)
    decreases c
  {
    if c > 0 {
      RowTimesColumnSameRow(row1, row2, y, j, c - 1);
    }
  }

  /** Changing one row q of the right factor changes the sum by row[q] times that row's change. */
  lemma {:induction false} RowTimesColumnMatrixUpdate(row: seq<real>, y: Matrix, y': Matrix, j: nat, c: nat, q: nat)
    requires c <= |row| && ColumnPrefixExists(y, j, c) && ColumnPrefixExists(y', j, c) && q < c
    requires forall t :: 0 <= t < c && t != q ==> y'[t][j] == y[t][j]
    ensures RowTimesColumn(row, y', j, c) == RowTimesColumn(row, y, j, c) + row[q] * (y'[q][j] - y[q][j])
    decreases c
  {
    if q < c - 1 {
      RowTimesColumnMatrixUpdate(row, y, y', j, c - 1, q);
    } else {
      RowTimesColumnSameColumn(row, y, y', j, c - 1);
      assert RowTimesColumn(row, y', j, c) == RowTimesColumn(row, y', j, c - 1) + row[q] * y'[q][j];
      assert RowTimesColumn(row, y, j, c) == RowTimesColumn(row, y, j, c - 1) + row[q] * y[q][j];
      ReplaceTerm(RowTimesColumn(row, y, j, c - 1), row[q], y[q][j], y'[q][j]);
    }
  }

  /** The sum only reads column j of the first c rows of the right factor. */
  lemma {:induction false} RowTimesColumnSameColumn(row: seq<real>, y: Matrix, y': Matrix, j: nat, c: nat)
    requires c <= |row| && ColumnPrefixExists(y, j, c) && ColumnPrefixExists(y', j, c)
    requires forall t :: 0 <= t < c ==> y'[t][j] == y[t][j]
    ensures RowTimesColumn(row, y', j, c) == RowTimesColumn(row, y, j, c)
    decreases c
  {
    if c > 0 {
      RowTimesColumnSameColumn(row, y, y', j, c - 1);
    }
  }

  /** Row r of the identity picks out entry (r, j) once the sum has reached index r. */
  lemma {:induction false} IdentityRowPicksEntry(n: nat, r: nat, y: Matrix, j: nat, c: nat)
    requires r < n && c <= n && ColumnPrefixExists(y, j, c)
    ensures RowTimesColumn(Identity(n)[r], y, j, c) == if r < c then y[r][j] else 0.0
    decreases c
  {
    if c > 0 {
      IdentityRowPicksEntry(n, r, y, j, c - 1);
    }
  }

  /** The identity is a left unit of the product. */
  lemma IdentityLeftUnit(y: Matrix, n: nat)
    requires n > 0 && IsSquare(y, n)
    ensures ProductDefined(Identity(n), y)
    ensures Product(Identity(n), y) == y
  {
    var p := Product(Identity(n), y);
    forall r | 0 <= r < n
      ensures p[r] == y[r]
    {
      forall j | 0 <= j < n
        ensures p[r][j] == y[r][j]
      {
        IdentityRowPicksEntry(n, r, y, j, n);
      }
    }
  }
}
