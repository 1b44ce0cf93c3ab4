# LU decomposition visualizer — a Dafny model

The visualizer is a small web tool:

- The user enters an n-by-n matrix A. They type it in, or they load an example.
- The tool runs Doolittle LU decomposition. This is Gaussian elimination without pivoting, and L gets a unit diagonal.
- It records a snapshot of A, L and U before and after every row operation.
- The user can step through the snapshots.
- The tool shows L and U with their entries written as small fractions.
- It reports whether the product L × U equals A, with the product rounded to three decimals and compared within 0.001.

This project models that core over exact `real` arithmetic and proves what the snapshot sequence, the fraction formatter, the product check and the navigation guarantee.

Modules, one per file, in dependency order:

- `Wrappers`: `Option`.
- `JsMath`: `Math.abs` and `Math.round`.
- `Gcd`: `findGCD`, plus the divisibility facts that the fraction reduction needs.
- `Fractions`: `decimalToFraction`. Its rendered text is kept abstract as a `Rendering`: an integer, a fraction, or a two-decimal number. The two source files carry identical copies of this function, and `DecimalToFraction` models both as written, including the sign lost on its fallback. `SignedDecimalToFraction` is the corrected formatter of the Findings row. The display modules use the formatter as written, because that is what the program shows.
- `Matrices`: the matrix type, the identity, the copy, the exact product, and facts about the product sum.
- `LuDecomposition`: `performLUDecomposition`. The loop over pivot columns is the recursive `EliminateFrom`. The loop over rows is the recursive `EliminateColumn`. One pass of the row loop's body is `EliminateRow`, and the inner loop over columns is the row built in `RowOperation`. The functions return the snapshot list.
- `LuProofs`: the loop invariant of the elimination, and the proof that one pass of the inner loop keeps it.
- `LuTheorems`: the invariant carried to the end of both loops, and the theorems about the snapshot sequence. These cover factorisation, pairing, order, snapshot count, and the triangular result.
- `ResultDisplay`: `multiplyMatrices` with its rounding to thousandths, `isMatrixEqual`, and the verdict.
- `Navigation`: the tool's state (steps, index, stored L and U, tab) and the Decompose, Next, Previous and Reset actions.
- `MatrixDisplay`: `formatValue` and the grid with its highlight predicates.
- `StepVisualizer`: the progress percentage, the multiplier text, the row operation line, and the three grids of a snapshot.
- `MatrixInput`: `handleCellChange` and `generateExampleMatrix`.

## Model

| member | source | states |
|---|---|---|
| JsMath.Round | components/result-display.tsx:47 | `Math.round` gives the integer n with x - 1/2 < n <= x + 1/2; halves round up. |
| Gcd.FindGcd | components/matrix-display.tsx:23-25 | Euclid's recursion returns a common divisor of both arguments unless both are 0. It returns 0 when both are 0. |
| Gcd.GcdGreatest | components/matrix-display.tsx:23-25 | Every common divisor of a and b divides `findGCD(a, b)`, so the result is the greatest common divisor. |
| Gcd.GcdScale | components/matrix-display.tsx:23-25 | gcd(e·a, e·b) = e · gcd(a, b). |
| Gcd.EuclidLemma | components/matrix-display.tsx:23-25 | If q divides p·e and gcd(p, q) = 1, then q divides e. |
| Gcd.ReducedIsCoprime | components/matrix-display.tsx:49-51 | Dividing numerator and denominator by their gcd leaves a fraction in lowest terms. |
| Fractions.Search | components/matrix-display.tsx:28-44 | The denominator loop returns the first denominator in 1..100 that reaches its error. Unless it stopped early below 1e-10, that error is the least over all of 1..100. |
| Fractions.BestDenominator | components/matrix-display.tsx:28-44 | The search started from denominator 1 has the same first-least-error guarantee. |
| Fractions.Reduce | components/matrix-display.tsx:46-51 | The reduced fraction is in lowest terms. It has the same ratio as round(x·d)/d for the best denominator d, with a denominator no larger than d. Its error is the best error, which is its distance to x. |
| Fractions.Approximate | components/matrix-display.tsx:28-51 | The search plus the reduction: the search's best fraction round(x·d)/d in lowest terms, denominator at most 100. Its error is the search's error and its distance to x. |
| Fractions.DecimalToFraction | components/matrix-display.tsx:13-58 | 0, 1 and -1 are shown as those integers. Otherwise the fallback is taken exactly when the reduced best fraction of \|v\| has a denominator above 20 or an error above 0.01, and it shows \|v\| to two decimals. Otherwise the text is that reduced fraction with v's sign: an integer when the denominator is 1, else a fraction with denominator 2..20 in lowest terms, within 0.01 of v. |
| Fractions.MagnitudeClose | components/matrix-display.tsx:13-58 | The text's magnitude is within 0.01 of \|v\|. The text is within 0.01 of v itself, except on the fallback of a negative v, which shows -v. |
| Fractions.SignedDecimalToFraction | components/matrix-display.tsx:54-56 | Corrected formatter: the fallback shows v with its sign. Every text is within 0.01 of v, and the formatter otherwise agrees with `DecimalToFraction`. |
| Fractions.SearchFindsExactDenominator | components/matrix-display.tsx:28-44 | For p/q in lowest terms with q <= 100, the search settles on q with error 0. |
| Fractions.ExactApproximation | components/matrix-display.tsx:28-51 | p/q in lowest terms with q <= 100 comes out of the search and reduction as (p, q, 0). |
| Fractions.ExactFractionsShown | components/matrix-display.tsx:13-58 | Every ±p/q in lowest terms with q <= 20 is shown as exactly that integer or fraction. |
| Fractions.LargeDenominatorsFallBack | components/matrix-display.tsx:54-56 | ±p/q in lowest terms with 20 < q <= 100 is found exactly but shown as p/q to two decimals, without its sign. |
| Fractions.RenderingRoundTrip | components/matrix-display.tsx:58 | Formatting the value of a shown fraction or non-zero integer gives back the same rendering. |
| Fractions.TinyValuesShowZero | components/matrix-display.tsx:19-58 | A non-zero value with magnitude below 0.005 is shown as the integer 0 with the value's sign. |
| Fractions.FallbackDropsSign | components/matrix-display.tsx:54-56 | -1/23 is shown as +1/23 to two decimals, which is 2/23 away from the value. The corrected formatter shows -1/23. |
| Matrices.Identity | components/lu-decomposition-tool.tsx:46-54 | `createIdentityMatrix` is n-by-n, unit lower-triangular and upper-triangular. |
| Matrices.DeepCopy | components/lu-decomposition-tool.tsx:56-58 | `deepCopyMatrix` has the same rows as its input. |
| Matrices.Product | components/result-display.tsx:41-45 | Entry (i, j) is the left-to-right sum over k of x[i][k]·y[k][j], with \|x\| rows and \|y[0]\| columns. |
| Matrices.IdentityLeftUnit | components/lu-decomposition-tool.tsx:70-72 | I × A = A, so the starting pair L = I, U = A factorises A. |
| LuDecomposition.RowOperation | components/lu-decomposition-tool.tsx:117-120 | Only row i changes, and its columns before k are kept. With a nonzero pivot and m = U[i][k]/U[k][k], entry (i, k) becomes 0. |
| LuDecomposition.SetEntry | components/lu-decomposition-tool.tsx:98-99 | Writing the multiplier into L changes exactly entry (i, k). |
| LuDecomposition.EliminateRow | components/lu-decomposition-tool.tsx:88-133 | A zero pivot leaves everything as it was. Otherwise two snapshots are added, L[i][k] gets U[i][k]/U[k][k], U[i][k] becomes 0, and other rows of U and other entries of L are kept. |
| LuDecomposition.EliminateColumn | components/lu-decomposition-tool.tsx:88-133 | For a nonzero pivot, the inner loop adds 2·(n - i) snapshots and zeroes column k from row i down. For a zero pivot it changes nothing. |
| LuDecomposition.EliminateFrom | components/lu-decomposition-tool.tsx:87-134 | The outer loop only extends the snapshot list and never changes rows up to k. |
| LuDecomposition.Eliminate | components/lu-decomposition-tool.tsx:70-134 | Both loops keep L and U n-by-n. The initial snapshot (L = I, U = A, no rows selected) stays first in the list. |
| LuDecomposition.Decompose | components/lu-decomposition-tool.tsx:61-146 | An empty matrix gives no snapshots. Otherwise there are at least two, and the first is the initial state (L = I, U = A, rows -1, multiplier 0). |
| LuProofs.RowOperationKeepsFactorisation | components/lu-decomposition-tool.tsx:95-120 | One elimination step with a nonzero pivot keeps L × U = A and clears U[i][k]. |
| LuProofs.RowKeepsRunInv | components/lu-decomposition-tool.tsx:88-133 | One pass of the inner loop body keeps the loop invariant: L's shape, L × U = A while nothing was skipped, and the well-formed snapshot list. |
| LuTheorems.EliminateRunInv | components/lu-decomposition-tool.tsx:87-134 | The loop invariant holds when both loops finish. |
| LuTheorems.SnapshotsFrame | components/lu-decomposition-tool.tsx:74-84 | Every snapshot holds the unchanged A and a unit lower-triangular L. The first shows L = I, U = A; the last shows the final L and U. Both have no rows selected and multiplier 0. |
| LuTheorems.SnapshotPair | components/lu-decomposition-tool.tsx:94-132 | Intermediate snapshots come in before/after pairs with labels "Step p+1" and "Step p+2". "Before" keeps U and writes m = U[i][k]/U[k][k] into a zero L[i][k]. "After" shares L, rows and m, and holds the row-operated U with U[i][k] = 0. |
| LuTheorems.PivotsAreFinalDiagonal | components/lu-decomposition-tool.tsx:89-95 | The pivot each pair divides by equals the final U's diagonal entry in that column. |
| LuTheorems.MultipliersWrittenOnce | components/lu-decomposition-tool.tsx:87-99 | The (pivot, row) pairs of the "before" snapshots strictly increase in loop order, so each entry of L is written at most once. |
| LuTheorems.SettledSnapshotsFactorise | components/lu-decomposition-tool.tsx:122-132 | The initial snapshot and every "after" snapshot satisfy L × U = A whenever no earlier pivot column was skipped. |
| LuTheorems.FinalFactorisation | components/lu-decomposition-tool.tsx:136-146 | With no zero pivot, the final L is unit lower-triangular, the final U is upper-triangular, and L × U = A. |
| LuTheorems.BeforeSnapshotDoesNotFactorise | components/lu-decomposition-tool.tsx:101-115 | A "before" snapshot with a nonzero multiplier is not a factorisation: its L × U differs from A. |
| LuTheorems.PreviousSnapshotFactorises | components/lu-decomposition-tool.tsx:101-115 | The snapshot preceding each "before" snapshot is a factorisation when nothing earlier was skipped. |
| LuTheorems.EliminateFromCount | components/lu-decomposition-tool.tsx:87-134 | The loops add two snapshots per pair (row, column) whose column pivot is nonzero. |
| LuTheorems.AllPairsEliminated | components/lu-decomposition-tool.tsx:87-92 | With every pivot nonzero, those pairs are all n(n-1)/2 positions below the diagonal. |
| LuTheorems.SnapshotCount | components/lu-decomposition-tool.tsx:68-146 | The list has 2 + 2·(eliminated pairs) snapshots, which is 2 + n(n-1) with no zero pivot. |
| ResultDisplay.Round3 | components/result-display.tsx:47 | Rounding to thousandths gives a whole number of thousandths within 0.0005 of the sum. |
| ResultDisplay.Round3Idempotent | components/result-display.tsx:47 | Rounding twice equals rounding once. |
| ResultDisplay.RoundedProduct | components/result-display.tsx:32-52 | The displayed product has the product's shape. Each entry is the exact entry rounded to the nearest thousandth, halves up: it is a whole number of thousandths in the half-open interval (e - 0.0005, e + 0.0005]. |
| ResultDisplay.MultiplyMatrices | components/result-display.tsx:32-52 | The three loops compute exactly the rounded product. |
| ResultDisplay.IsMatrixEqual | components/result-display.tsx:54-70 | The result is true exactly when the row counts and first-row lengths agree and no pair of present entries differs by more than 0.001. |
| ResultDisplay.ApproxEqualOnShape | components/result-display.tsx:54-70 | On two matrices of one rectangular shape, the check means every entry is within 0.001. |
| ResultDisplay.ApproxEqualReflexive | components/result-display.tsx:54-70 | Every non-empty matrix passes against itself. |
| ResultDisplay.ApproxEqualSymmetric | components/result-display.tsx:54-70 | The verdict does not depend on argument order. |
| ResultDisplay.ApproxEqualNotTransitive | components/result-display.tsx:59-67 | The check is not transitive: 0 ≈ 0.001 ≈ 0.002, but 0 ≉ 0.002. |
| ResultDisplay.ExactProductPasses | components/result-display.tsx:32-70 | An exact factorisation still passes after rounding. |
| ResultDisplay.Verdict | components/result-display.tsx:22-30 | With empty factors the verdict keeps its previous value. A "correct" verdict means the shapes agree and every exact product entry is within 0.0015 of A. |
| ResultDisplay.DecompositionReportedCorrect | components/result-display.tsx:22-30 | The final L and U of a decomposition without zero pivots are reported correct. |
| ResultDisplay.ZeroPivotReportedCorrect | components/lu-decomposition-tool.tsx:89-92 | For [[0, 1], [1, 0]] the skipped column leaves L = I and U = A. U is not upper-triangular, yet the result is reported correct. |
| ResultDisplay.ZeroPivotReportedIncorrect | components/lu-decomposition-tool.tsx:89-92 | For [[0, 1, 2], [1, 1, 1], [2, 3, 4]] column 0 is skipped. The final L and U give entry (3, 1) of L × U as 5 instead of 2, so the result is reported incorrect. |
| Navigation.Initial | components/lu-decomposition-tool.tsx:26-32 | The tool starts with no snapshots, index -1 and the input tab, which is a valid state. |
| Navigation.CurrentStep | components/lu-decomposition-tool.tsx:173 | A snapshot is on screen exactly when the index is in range, and it is the snapshot at that index. |
| Navigation.StartDecomposition | components/lu-decomposition-tool.tsx:61-153 | An empty matrix changes nothing. Otherwise the tool holds the snapshots of the matrix, index 0, the visualization tab, and the final L and U. |
| Navigation.Next | components/lu-decomposition-tool.tsx:155-159 | The index moves forward by one unless the last snapshot is on screen, and nothing else changes. |
| Navigation.Previous | components/lu-decomposition-tool.tsx:161-165 | The index moves back by one unless the first snapshot is on screen, and nothing else changes. |
| Navigation.Reset | components/lu-decomposition-tool.tsx:167-171 | Snapshots are dropped, the index becomes -1 and the input tab opens. The matrix and the stored L and U are kept. |
| Navigation.ActionsKeepValid | components/lu-decomposition-tool.tsx:155-171 | Every action keeps the index either -1 with no snapshots or within range. |
| Navigation.ButtonsActExactlyWhenEnabled | components/lu-decomposition-tool.tsx:155-165 | Next and Previous change the state exactly when their button is enabled. |
| Navigation.NextPreviousInverse | components/lu-decomposition-tool.tsx:155-165 | Previous undoes Next, and Next undoes Previous. |
| Navigation.NextTimesIndex | components/lu-decomposition-tool.tsx:155-159 | k presses of Next advance the index by k, stopping at the last snapshot. |
| Navigation.WalkReachesFinalResult | components/lu-decomposition-tool.tsx:136-159 | After decomposing, pressing Next through the list reaches the final-result snapshot, which shows the stored L and U. |
| Navigation.ResultTabReportsCorrect | components/result-display.tsx:22-30 | A decomposed matrix without zero pivots is reported correct on the result tab. |
| MatrixDisplay.FormatValue | components/matrix-display.tsx:76-81 | Cells use the fraction formatter when fractions are on, and two decimals of the value otherwise. Integers and fractions appear only with fractions on and carry the value's sign. A two-decimal text shows \|v\| with fractions on and v otherwise. |
| MatrixDisplay.FormatValueClose | components/matrix-display.tsx:76-81 | The text's magnitude is within 0.01 of \|v\|. The text is within 0.01 of v except for a negative v shown by the fraction formatter's fallback as -v. |
| MatrixDisplay.CellText | components/matrix-display.tsx:102-104 | The crossing shows the substitute value when one is given. Every other cell shows its entry. |
| MatrixDisplay.Display | components/matrix-display.tsx:61-114 | An empty matrix shows "No matrix data". Otherwise there is one cell per entry, highlighted in the chosen row or column and emphasised at their crossing. |
| MatrixDisplay.DefaultsHighlightNothing | components/matrix-display.tsx:63-64 | With the default -1 indices nothing is highlighted, and every cell shows its own entry. |
| MatrixDisplay.HighlightShape | components/matrix-display.tsx:90-104 | Only the crossing is emphasised, and it is also highlighted. The highlighted cells are exactly the chosen row and column. Only the crossing can show a substitute. |
| MatrixDisplay.MatchingSubstituteInvisible | components/matrix-display.tsx:102-104 | A substitute equal to the entry it replaces leaves the grid unchanged. |
| StepVisualizer.MultiplierText | components/step-visualizer.tsx:79-80 | The special case "0" for a zero multiplier agrees with the formatter. So the multiplier text is always the formatter's text as written, which is the text a fraction cell of the grid shows for the same value. |
| StepVisualizer.Progress | components/step-visualizer.tsx:76 | The percentage is 0..100: 0 on the first snapshot and 100 on the last. It is undefined (NaN) for a single snapshot. |
| StepVisualizer.ProgressMonotone | components/step-visualizer.tsx:76 | The percentage never decreases as the index grows. |
| StepVisualizer.RowOperationLine | components/step-visualizer.tsx:96-99 | The line is shown exactly when both rows are selected. |
| StepVisualizer.RowLineOnIntermediateSteps | components/step-visualizer.tsx:96-99 | On a decomposition the line appears exactly on intermediate snapshots. Its labels satisfy 1 <= pivot < row <= n. Its multiplier is the L entry at those labels, shown by the formatter as written. |
| StepVisualizer.LineMatchesLCell | components/step-visualizer.tsx:96-118 | On intermediate snapshots the row line's multiplier text equals the text of the emphasised L cell. |
| StepVisualizer.HighlightsOnIntermediateSteps | components/step-visualizer.tsx:110-124 | L highlights the current row and pivot column, and its crossing shows the stored multiplier through the formatter as written. U highlights exactly the current row. |
| StepVisualizer.EndpointViews | components/step-visualizer.tsx:76-123 | The first and last snapshots show no row line, highlight nothing, and show 0% and 100%. |
| StepVisualizer.PositionsAndProgress | components/step-visualizer.tsx:86-91 | The "Step i of n" labels run over 1..n, and the percentage never decreases along the walk. |
| MatrixInput.HandleCellChange | components/matrix-input.tsx:20-31 | Unreadable text changes nothing, and blank text writes 0. Exactly the edited entry changes. |
| MatrixInput.EditKeepsSquare | components/matrix-input.tsx:20-31 | Editing a cell keeps an n-by-n matrix n-by-n. |
| MatrixInput.RewriteIsIdentity | components/matrix-input.tsx:20-31 | Writing an entry's own value back changes nothing. |
| MatrixInput.LastEditWins | components/matrix-input.tsx:20-31 | Of two edits to one cell, the second wins. |
| MatrixInput.EditsCommute | components/matrix-input.tsx:20-31 | Edits to two different cells commute. |
| MatrixInput.Tridiagonal | components/matrix-input.tsx:65-78 | The fallback example is n-by-n and symmetric. It has 4 exactly on the diagonal, -1 directly beside it, and 0 everywhere farther out. |
| MatrixInput.GenerateExample | components/matrix-input.tsx:44-81 | Every example is size-by-size. Every size other than 2 and 3 gets the tridiagonal 4/-1 matrix; the literal size-4 matrix is that rule's instance. |
| MatrixInput.SizeThreeExampleDiffers | components/matrix-input.tsx:52-57 | The size-3 example is not the tridiagonal rule: its diagonal holds 2. |
| MatrixInput.SizeTwoExampleDecomposition | components/matrix-input.tsx:47-51 | [[4, 3], [6, 3]] decomposes in four snapshots with multiplier 3/2, giving L = [[1, 0], [3/2, 1]] and U = [[4, 3], [0, -3/2]]. |

## Left out

- React state, effects, rendering, layout, the theme toggle and the page are not modelled. Each state setter is folded into the function that returns the new state.
- Doubles are modelled by exact reals. Rounding error in the elimination and in `toFixed(2)` is not modelled, and neither is the text of the rendering itself; a `Rendering` records which form is shown and the number it stands for.
- `parseFloat` is abstracted as `CellInput`: blank, a number, or NaN.
- `generateRandomMatrix` (matrix-input.tsx:33-42) is not modelled because it depends on `Math.random`.
- Matrix resizing (`handleSizeChange` and the zero-matrix effect) is not modelled.
- MatrixInput.HandleCellChange: requires the edited cell to exist. The source also creates a missing row, and its shallow copy lets the edit show through the old array; the UI only edits existing cells.
- The decomposition and navigation are modelled on square matrices only, the only shape the UI produces.
- The `isDecomposing` flag is not modelled; it is set and cleared within one call.
- Descriptions are modelled as tags carrying the step number, not as strings.
- ResultDisplay.IsMatrixEqual: requires that the two matrices are not both empty. On that input the source reads the first row of an empty array and throws.
- StepVisualizer.Progress: a single snapshot makes the source compute 0/0 = NaN; the model gives None. A decomposition always has at least two snapshots.
- Some members are glue with no contract of their own; the lemmas that use them state their behaviour:
  - `StepVisualizer.Render` and `StepVisualizer.MultiplierValue`;
  - `LuDecomposition.InitialStep`, stated by `LuTheorems.SnapshotsFrame`;
  - `MatrixDisplay.IsHighlighted` and `MatrixDisplay.IsSpecificHighlight`, stated by `MatrixDisplay.HighlightShape`;
  - `Navigation.CanGoNext` and `Navigation.CanGoBack`, the disabled conditions of the buttons at components/lu-decomposition-tool.tsx:220 and 228, stated by `Navigation.ButtonsActExactlyWhenEnabled`.

## Findings

| source | as written | input that shows it | evidently intended | confidence | as-written member | corrected member |
|---|---|---|---|---|---|---|
| components/matrix-display.tsx:54-56 (same in components/step-visualizer.tsx:66-68) | The two-decimal fallback formats `decimal` after it was replaced by its absolute value, so the sign is lost | -1/23: the search finds 1/23 exactly, but the reduced denominator 23 exceeds 20, so the text is "0.04", not "-0.04" | The fallback shows the signed value, as the integer and fraction branches do | not executed | Fractions.FallbackDropsSign | Fractions.SignedDecimalToFraction |

The matrix grids and the row operation line are modelled with the formatter as written, so they show this sign loss as the program does. A negative multiplier such as -1/23 therefore reads "r2 → r2 - 0.04 × r1". `Fractions.SignedDecimalToFraction` states the intended behaviour.

Two further behaviours follow from the code as written; the model keeps them as they are:

- A zero pivot skips its column without warning, and the result panel can still report success, e.g. for [[0, 1], [1, 0]] (`ResultDisplay.ZeroPivotReportedCorrect`). It does not always: for [[0, 1, 2], [1, 1, 1], [2, 3, 4]] row 3 of L × U is [5, 3, 4], and the panel reports errors (`ResultDisplay.ZeroPivotReportedIncorrect`).
- A tiny negative value is shown as a signed zero, "-0". This is `Fractions.TinyValuesShowZero`.
