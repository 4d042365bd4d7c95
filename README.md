# Matrix-Math in Dafny

A Dafny model of the numeric core of Matrix-Math. The model covers:

- **The Java matrix engine** (`java/Matrix.java`). It has value-returning row operations, `plus`, `times`, `addIdentity`, `invert`, and a thresholded Gauss–Jordan `rowreduce`/`zerosDown`.
- **The C++ matrix engine** (`cpp/matrix.cpp`). It edits a fixed `rows` × `cols` grid in place. Its `rowreduce` makes two passes, `zerosDown` and then `zerosUp`. It also has `transpose`, `inverse`, `multiply` and `correctZeros`.
- **Polynomial fitting** (`java/Interpolation.java`). `fit` builds a Vandermonde design matrix and solves it with `invert` and `times`. It then reorders and rounds the coefficients. `VDM_poly` and `Riemann_poly` choose the sample points.
- **The slope computation** (`VDM.java`). `slopeAtPoint` writes P(t) = (t − x)² Q(t) + m t + b as a linear system and reads m back.
- **The C++ coefficient vector** (`cpp/polynomial.cpp`): `addTerm`, `evaluate`, `scaleCoefficients` and `degree()`.

Matrix entries are exact `real`s, and a matrix's entries form a `Grid` (`seq<seq<real>>`).

The two engines have different shapes in the model:

- **Java.** Operations that return fresh matrices are functions on grids, in module `Grids` for the shared row operations and module `JavaMatrix` for the rest. Java's loops (`zerosDown`, `rowreduce`, `invert`, `fillMatrix`) are methods of a `Matrix` class, each proved equal to those functions.
- **C++.** The matrix is a class over an `array2<real>`. Every in-place method is proved to leave the array holding a named function of the old entries.

The tolerance constants are kept as written:

| constant | where it is used |
|---|---|
| 1e-15 | snapping in Java `zerosDown` |
| 1e-10, 1e10 | rescaling band of Java `rowreduce` |
| 1e-8, 1e8 | elimination band of Java `zerosDown` |
| 10^-10 (`MIN_TEN_POW` = −10, `cpp/matrix.h:58`) | C++ `correctZeros` |

Java's 1/0 = Infinity is modelled as the branch it falls into: that value fails the band test, so the step is skipped.

Proved about the model, beyond each operation's own contract:

- **Shared row operations.** Swapping rows twice restores the grid. `times` distributes over `plus`. Transposing twice restores the grid. Snapping tiny entries is idempotent.
- **Both `rowreduce`s.** Each leaves unchanged a grid whose processed columns are already unit columns.
- **Both inverses.** Each is the true inverse on a diagonal matrix with usable entries (`JavaMatrix.InvertDiagonal`, `CppMatrix.InverseDiagonal`). Each maps the identity to itself.
- **Java `invert` can fail on an invertible matrix.** It does not invert [[0,1,0],[1,0,0],[1,0,1]].
  - The pivot search finds row 1 and swaps it into row 0.
  - After that swap, the elimination loop protects row number 1, the pivot's old index, instead of row 0.
  - Row 0 then reuses the elimination factor carried from row 2 and is wiped out.
  - The first row of the returned "inverse" is zero (`JavaMatrix.InvertMissesPermuted`).

  The model keeps this behaviour as written.
- **The slope system.** The system `slopeAtPoint` builds is solved by (b, m, Q) exactly when P(t) = (t − x)² Q(t) + m t + b, coefficient by coefficient (`Vdm.SolvesIffFactorisation`).
- **Fitting.**
  - `fit` reads only the first degree+1 points.
  - Each returned coefficient is a multiple of 1e-6 within 5e-7 of the solution entry.
  - Rounding is idempotent.
  - A degree-0 fit returns the rounded sample.
- **The C++ polynomial.**
  - `evaluate`'s power sum equals Horner's form.
  - `scaleCoefficients` multiplies the value by x^size.
  - Repeated `addTerm`s overwrite at the same degree and commute at different degrees.

Some behaviour of the code is easy to misread, and the model keeps it as written:

- `slopeAtPoint` solves for P(t) = (t − x)² Q(t) + m·t + b. The m of this remainder is the slope of P at x, and b = P(x) − m·x.
- `fit` uses the first degree+1 points, and both of its callers pass exactly degree+1.
- `fit` returns the coefficients indexed by power (`new_coefs[len−1−ii] = soln[ii]`).
- Java `invert` signals nothing on a singular matrix. It returns whatever the thresholded reduction leaves in the right half.
- Java `addIdentity` compares the receiver's rows with the argument's columns, plus the argument's own shape. It does not test for squareness as such.
- Java `times` does not require cols(this) == rows(that). It sums over `that.rows` terms and ignores any further columns of the receiver.
- C++ `evaluate` reads index 0 as the highest power, while `addTerm` and the header comment (`cpp/polynomial.h:18-19`) store the coefficient of x^d at index d. The model keeps both readings; `CppPolynomial.SingleTermEvaluatesToConstant` shows the consequence.

## Model

| member | source | states |
|---|---|---|
| Grids.ZeroGrid | java/Matrix.java:63-67 | a new matrix is a rows × cols grid whose every entry is 0 |
| Grids.SetAt | java/Matrix.java:435-437 | setting (i, j) changes that entry to v and no other entry, row or length |
| Grids.LinComb | java/Matrix.java:207-215 | `linearCombRows`: row `second` becomes second + s·first entry by entry; every other row is unchanged |
| Grids.ScaleRow | java/Matrix.java:367-374 | `scalarTimesRow`: row r is multiplied by s entry by entry; every other row is unchanged |
| Grids.SwapRows | java/Matrix.java:386-398 | `switchRows`: rows a and b are exchanged; every other row is unchanged |
| Grids.SwapRowsTwice | java/Matrix.java:386-398 | switching the same two rows twice gives back the original grid |
| Grids.FirstNonzero | java/Matrix.java:349-353 | the search loop of `findPivot`: the first row from `from` on with a nonzero entry in the column, every earlier row being zero there, or the row count when there is none |
| Grids.PivotRow | cpp/matrix.cpp:235-247 | `findPivot`: the diagonal row when its entry is nonzero; otherwise the first row from 0 with a nonzero entry, all rows before it being zero; otherwise 0, and then the whole column is zero |
| Grids.Product | java/Matrix.java:412-423 | `times`: a grid with the rows of a and bc columns, whose entry (i, j) is the sum over the k < rows of b of a[i][k]·b[k][j] |
| Grids.AddGrids | java/Matrix.java:227-234 | the entry-by-entry sum of two grids of one shape |
| Grids.ProductDistributes | java/Matrix.java:412-423 | a·(b + c) = a·b + a·c for the grid product |
| Grids.IdentityTimes | java/Matrix.java:412-423 | the identity times b is b |
| Grids.RightHalf | java/Matrix.java:130-135 | the n × n grid read from columns n .. 2n−1 of an n × 2n grid |
| Grids.TransposeOf | cpp/matrix.cpp:108-116 | `transpose`: a cols × rows grid with T[j][i] = M[i][j] |
| Grids.TransposeTwice | cpp/matrix.cpp:108-116 | transposing twice gives back the original grid |
| Grids.SnapBelow | java/Matrix.java:315-321 | entries with magnitude below eps become 0 and all others are kept, so afterwards every entry is 0 or has magnitude at least eps |
| Grids.SnapBelowIdempotent | java/Matrix.java:315-321 | snapping a snapped grid changes nothing |
| JavaMatrix.AddIdentity | java/Matrix.java:147-181 | null exactly when this.rows > that.cols or that.cols > that.rows; otherwise a rows × 2·cols grid with `that` on the left and ones at (i, cols + i), zeros elsewhere on the right |
| JavaMatrix.Plus | java/Matrix.java:226-237 | the sum exists exactly when both shapes agree, and is then the entry-by-entry sum |
| JavaMatrix.TimesDistributesOverPlus | java/Matrix.java:412-423 | `times` of a `plus` is the `plus` of the `times`, and both sums exist |
| JavaMatrix.FindPivot | java/Matrix.java:345-355 | returns the diagonal row when its entry is nonzero, otherwise the first row from 0 with a nonzero entry (all earlier rows being zero there), with the entry found; a zero entry comes only as the sentinel (0, 0), and then the whole column is zero |
| JavaMatrix.BottomUsable | java/Matrix.java:324-330 | scanning from the bottom, the first row other than ii whose entry has magnitude at least 1e-8; every row skipped, or every row when none is found, is below 1e-8 |
| JavaMatrix.EliminateRow | java/Matrix.java:323-333 | one turn of the elimination loop changes only row ii: nothing happens to a zero entry or the protected pivot number; otherwise the carry becomes −entry/entry of the lowest usable row jj ≠ ii with switch row jj, or stays as it was when no row is usable; the row combination with that carry is applied exactly when its factor lies strictly inside (1e-8, 1e8) |
| JavaMatrix.EliminateFrom | java/Matrix.java:322-335 | the elimination loop over rows n−1 .. 0 keeps the shape, leaves rows n and below alone, and never touches the row numbered `pivot` |
| JavaMatrix.ZerosDownOf | java/Matrix.java:305-337 | `zerosDown`: same shape; the row numbered by the receiver's pivot holds `that`'s row `col` when the pivot was swapped in (pivot ≥ col), and its own row otherwise |
| JavaMatrix.Normalize | java/Matrix.java:280-285 | only row ii may change; when the diagonal entry is nonzero and its reciprocal lies in (1e-10, 1e10), the row is divided by it and the diagonal becomes 1; otherwise nothing changes |
| JavaMatrix.RowReduceOf | java/Matrix.java:264-289 | `rowreduce` keeps the shape (its content is stated by the lemmas below) |
| JavaMatrix.InvertOf | java/Matrix.java:126-137 | `invert` of an n × n grid is n × n (its content is stated by the lemmas below) |
| JavaMatrix.EliminateFromClean | java/Matrix.java:322-335 | when every row but the protected one is already zero in the column, the elimination loop changes nothing |
| JavaMatrix.ZerosDownClean | java/Matrix.java:305-337 | `zerosDown` leaves alone a column whose diagonal entry is nonzero and whose other entries are zero |
| JavaMatrix.RowReduceFromReduced | java/Matrix.java:277-286 | the column loop of `rowreduce` is the identity on columns that are already unit columns |
| JavaMatrix.RowReduceFixesReduced | java/Matrix.java:264-289 | `rowreduce` leaves a grid unchanged when its first cols/2 columns (augmented) or min(rows, cols) columns are already unit columns |
| JavaMatrix.AddIdentityDiag | java/Matrix.java:147-181 | `addIdentity` of a diagonal grid is that diagonal next to the identity |
| JavaMatrix.DiagAugStep | java/Matrix.java:277-285 | one column of `rowreduce` on a partly processed augmented diagonal grid clears nothing and rescales row k |
| JavaMatrix.RowReduceDiagFrom | java/Matrix.java:277-286 | the remaining columns of `rowreduce` bring an augmented diagonal grid to ones on the left and reciprocals on the right |
| JavaMatrix.InvertDiagonal | java/Matrix.java:126-137 | `invert` of a diagonal grid whose reciprocals lie in the rescaling band is the diagonal of reciprocals, and multiplying back gives the identity |
| JavaMatrix.InvertIdentity | java/Matrix.java:126-137 | `invert` of the identity is the identity |
| JavaMatrix.PermutedFirstColumn | java/Matrix.java:305-337 | on the augmented [[0,1,0],[1,0,0],[1,0,1]], `zerosDown` of column 0 yields a grid whose first row is zero |
| JavaMatrix.PermutedRowReduce | java/Matrix.java:264-289 | `rowreduce` of that augmented grid is that grid with a zero first row |
| JavaMatrix.InvertMissesPermuted | java/Matrix.java:126-137 | `invert` of [[0,1,0],[1,0,0],[1,0,1]] is [[0,0,0],[1,0,0],[0,−1,1]], which is not its inverse, and multiplying back does not give the identity |
| JavaMatrix.SnapTiny | java/Matrix.java:315-321 | the snapping loop yields SnapBelow with floor 1e-15 |
| JavaMatrix.PivotAndEliminate | java/Matrix.java:306-335 | pivot lookup in the receiver, a swap into row `col` when the pivot is at or below it, then the elimination loop, together equal ZerosDownOf |
| JavaMatrix.Eliminate | java/Matrix.java:322-335 | the loop from the bottom row up, starting with factor 0 and row 0, equals EliminateFrom |
| JavaMatrix.EliminateStep | java/Matrix.java:323-333 | one turn of the loop equals EliminateRow |
| JavaMatrix.SearchUsable | java/Matrix.java:324-330 | the inner search with `break` yields −entry/entry of the lowest usable row and that row, or the carried pair when there is none |
| JavaMatrix.Matrix.constructor | java/Matrix.java:63-67 | `new Matrix(i, j)`: i rows, j columns, all zeros, no identity flag |
| JavaMatrix.Matrix.FillMatrix | java/Matrix.java:108-116 | the receiver's array becomes a copy of `that`'s entries; rows, cols and the flag are not updated |
| JavaMatrix.Matrix.Clone | java/Matrix.java:187-191 | a fresh matrix with the same shape and entries and no identity flag |
| JavaMatrix.Matrix.SetEntry | java/Matrix.java:435-437 | entry (i, j) becomes d and nothing else changes |
| JavaMatrix.Matrix.ZerosDown | java/Matrix.java:305-337 | a fresh matrix holding ZerosDownOf of the receiver and `that`; the argument `that`, not the result, has its tiny entries snapped to 0 |
| JavaMatrix.Matrix.RowReduce | java/Matrix.java:264-289 | a fresh matrix of the receiver's shape holding RowReduceOf; the receiver is not modified |
| JavaMatrix.Matrix.ReduceColumns | java/Matrix.java:277-286 | the column loop of `rowreduce` computes columns 0 .. max−1 of RowReduceFrom |
| JavaMatrix.Matrix.ReduceColumn | java/Matrix.java:278-285 | one turn of the column loop: `zerosDown` of the working matrix on itself, then rescaling, i.e. ReduceStep |
| JavaMatrix.Matrix.Rescale | java/Matrix.java:280-285 | the rescaling branch equals Normalize, including the skip when the entry is 1, 0 or outside the band |
| JavaMatrix.Matrix.Invert | java/Matrix.java:126-137 | a fresh matrix of the receiver's shape holding InvertOf; the receiver is not modified |
| JavaMatrix.Matrix.CopyRightHalf | java/Matrix.java:130-135 | the copying loop of `invert` yields the right half of the reduced augmented matrix |
| CppMatrix.ClearRow | cpp/matrix.cpp:171-175 | clearing one row changes only that row: with a nonzero pivot, row ii becomes row ii plus −entry/pivot times the pivot row (`linearCombRows`), so each entry k is z[ii][k] − z[ii][col]/z[col][col]·z[col][k] and the column entry is 0; a zero entry or zero pivot leaves the grid alone |
| CppMatrix.EliminateBelow | cpp/matrix.cpp:171-176 | once the pivot is in place, the loop zeroes column `col` in every row from ii on and leaves the rows above ii unchanged, row `col` included |
| CppMatrix.ZerosDownOf | cpp/matrix.cpp:164-177 | `zerosDown(col)`: row `col` holds the old pivot row, and a pivot row above `col` receives the old row `col`; every entry below the diagonal in the column is 0; the diagonal entry is nonzero whenever the column has a nonzero entry; other rows above `col` are unchanged |
| CppMatrix.EliminateAbove | cpp/matrix.cpp:146-156 | `zerosUp(col)` with its division guarded: only rows above n may change; with a nonzero diagonal entry every such row ends with 0 in the column; with a zero diagonal entry nothing changes |
| CppMatrix.Normalize | cpp/matrix.cpp:209-212 | only row ii may change; a nonzero diagonal entry divides its row and becomes 1, a zero one stays 0 and nothing changes |
| CppMatrix.DownPass | cpp/matrix.cpp:206-213 | the first pass of `rowreduce` keeps the shape |
| CppMatrix.UpPass | cpp/matrix.cpp:215-222 | the second pass of `rowreduce` keeps the shape |
| CppMatrix.RowReduceOf | cpp/matrix.cpp:199-223 | `rowreduce` keeps the shape (its content is stated by the lemmas below) |
| CppMatrix.Augment | cpp/matrix.cpp:75-89 | the first half of `inverse`: rows × (cols + rows), the entries on the left, and 1 exactly where the row index equals the column index minus rows |
| CppMatrix.ReadBlock | cpp/matrix.cpp:92-97 | the last loop of `inverse`: entry (i, j) of the result is entry (i, j + rows) of the reduced grid |
| CppMatrix.InverseOf | cpp/matrix.cpp:74-100 | `inverse` keeps the shape (its content is stated by the lemmas below) |
| CppMatrix.EliminateBelowCombines | cpp/matrix.cpp:171-176 | with a nonzero pivot, every row i from ii on ends as row i minus z[i][col]/z[col][col] times the pivot row, entry by entry |
| CppMatrix.EliminateAboveCombines | cpp/matrix.cpp:150-155 | with a nonzero diagonal entry, every row above n ends as itself minus z[i][col]/z[col][col] times the pivot row, entry by entry |
| CppMatrix.ZerosDownZeroColumn | cpp/matrix.cpp:164-177 | on a column that is zero throughout, with col > 0, `zerosDown(col)` swaps rows 0 and col (the pivot sentinel) and changes nothing else |
| CppMatrix.EliminateBelowClean | cpp/matrix.cpp:171-176 | rows that are already zero in the column are left alone by the loop of `zerosDown` |
| CppMatrix.EliminateAboveClean | cpp/matrix.cpp:150-155 | rows that are already zero in the column are left alone by the loop of `zerosUp` |
| CppMatrix.ZerosDownClean | cpp/matrix.cpp:164-177 | `zerosDown` leaves alone a column whose diagonal entry is nonzero and whose other entries are zero |
| CppMatrix.UpPassReduced | cpp/matrix.cpp:215-222 | the second pass is the identity on columns that are already unit columns |
| CppMatrix.DownPassReduced | cpp/matrix.cpp:206-213 | the first pass is the identity on columns that are already unit columns |
| CppMatrix.RowReduceFixesReduced | cpp/matrix.cpp:199-223 | `rowreduce` leaves a grid unchanged when its first min(rows, cols) columns are already unit columns |
| CppMatrix.AugmentDiag | cpp/matrix.cpp:75-89 | augmenting a diagonal grid puts the identity next to it |
| CppMatrix.DownPassDiag | cpp/matrix.cpp:206-213 | the first pass brings an augmented diagonal grid to ones on the left and reciprocals on the right |
| CppMatrix.RowReduceDiagAug | cpp/matrix.cpp:199-223 | `rowreduce` of an augmented diagonal grid with nonzero entries is ones on the left and reciprocals on the right |
| CppMatrix.InverseDiagonal | cpp/matrix.cpp:74-100 | `inverse` of a diagonal grid with nonzero entries is the diagonal of reciprocals, and multiplying back gives the identity |
| CppMatrix.InverseIdentity | cpp/matrix.cpp:74-100 | `inverse` of the identity is the identity |
| CppMatrix.RowReduceReachesZeroDivisor | cpp/matrix.cpp:146-156 | on [[1,5,0],[0,1,1],[0,0,0]] the first pass swaps row 1 to the bottom, and `zerosUp(1)` then meets entry 5 above a zero diagonal entry, where the unguarded code divides by zero; the guarded `rowreduce` returns the first pass's grid |
| CppMatrix.Matrix.constructor | cpp/matrix.cpp:25-29 | a rows × cols matrix whose entries are all 0 |
| CppMatrix.Matrix.SetEntry | cpp/matrix.cpp:287-290 | an in-range entry is set and nothing else changes; an out-of-range index changes nothing |
| CppMatrix.Matrix.LinearCombRows | cpp/matrix.cpp:48-52 | in place, the entries become LinComb of the old entries |
| CppMatrix.Matrix.SwitchRows | cpp/matrix.cpp:187-193 | in place, the entries become SwapRows of the old entries |
| CppMatrix.Matrix.ScalarTimesRow | cpp/matrix.cpp:257-261 | in place, the entries become ScaleRow of the old entries |
| CppMatrix.Matrix.FindPivot | cpp/matrix.cpp:235-247 | the row PivotRow describes |
| CppMatrix.Matrix.ZerosDown | cpp/matrix.cpp:164-177 | in place, the entries become ZerosDownOf of the old entries |
| CppMatrix.Matrix.ClearBelow | cpp/matrix.cpp:171-176 | the elimination loop of `zerosDown`, in place, yields EliminateBelow |
| CppMatrix.Matrix.ClearBelowAt | cpp/matrix.cpp:172-175 | one turn of that loop yields ClearRow and keeps the loop invariant |
| CppMatrix.Matrix.ZerosUp | cpp/matrix.cpp:146-156 | in place, the entries become EliminateAbove over rows col−1 .. 0 |
| CppMatrix.Matrix.ClearAboveAt | cpp/matrix.cpp:151-154 | one turn of the `zerosUp` loop yields ClearRow and keeps the loop invariant |
| CppMatrix.Matrix.NormalizeRow | cpp/matrix.cpp:209-212 | the rescaling step, in place, yields Normalize |
| CppMatrix.Matrix.RowReduce | cpp/matrix.cpp:199-223 | in place, the entries become RowReduceOf of the old entries |
| CppMatrix.ZeroFloorIsTenPow | cpp/matrix.cpp:128-132 | the `correctZeros` floor `ZeroFloor` is 10^`MinTenPow` with `MIN_TEN_POW` = −10, that is 1e-10 |
| CppMatrix.Matrix.CorrectZeros | cpp/matrix.cpp:122-138 | with the flag off nothing changes; with it on, exactly the entries with 0 < magnitude < 10^-10 become 0 |
| CppMatrix.Matrix.Copy | cpp/matrix.cpp:59-67 | a new matrix with a new array, the same shape and the same entries |
| CppMatrix.Matrix.Transpose | cpp/matrix.cpp:108-116 | a new cols × rows matrix holding TransposeOf the entries |
| CppMatrix.Matrix.Multiply | cpp/matrix.cpp:300-314 | a new rows × that.cols matrix holding the grid product over that.rows terms |
| CppMatrix.Matrix.AccumulateDot | cpp/matrix.cpp:305-308 | the innermost loop sets entry (ii, jj) to the sum of products and changes no other entry |
| CppMatrix.Matrix.Inverse | cpp/matrix.cpp:74-100 | a new matrix of the receiver's shape holding InverseOf the entries; the receiver is not modified |
| CppMatrix.Matrix.RightBlock | cpp/matrix.cpp:92-97 | the read-back loop of `inverse` yields ReadBlock |
| CppMatrix.Matrix.Augmented | cpp/matrix.cpp:75-89 | the two filling loops of `inverse` yield Augment |
| Vdm.SquareFactor | VDM.java:38 | (t − x)² has three coefficients |
| Vdm.SquareFactorEvaluates | VDM.java:36-38 | the coefficients [x², −2x, 1] evaluate at t to (t − x)² |
| Vdm.SystemOf | VDM.java:48-64 | the system has deg+1 rows and deg+2 columns |
| Vdm.SystemOfEntries | VDM.java:50-64 | the last column holds the polynomial's coefficients; other entries are the quotient block plus a 1 for b at (0, 0) and for m at (1, 1) |
| Vdm.SlopeAtPoint | VDM.java:35-69 | the triple loop, the constants, the two seeded ones and the row reduction return entry (1, deg+1) of the reduced system |
| Vdm.AssembleQuotientBlock | VDM.java:50-59 | after the triple loop, entry (i, k+2) is the coefficient of t^i in t^k (t − x)², and 0 outside columns 2 .. deg |
| Vdm.SystemEncodesFactorisation | VDM.java:47-64 | row i of the system applied to (b, m, q) is the coefficient of t^i in (t − x)² Q(t) + m t + b |
| Vdm.SolvesIffFactorisation | VDM.java:36-67 | (b, m, q) solves the system exactly when P(t) = (t − x)² Q(t) + m t + b coefficient by coefficient |
| Interpolation.Design | java/Interpolation.java:39-44 | the (degree+1) × (degree+1) design matrix with entry (i, j) = x[i]^(degree − j) |
| Interpolation.RhsColumn | java/Interpolation.java:45-49 | the right-hand side column, b[i][0] = y[i] |
| Interpolation.Round6 | java/Interpolation.java:60-63 | round(v·1e6)/1e6 is an integer multiple of 1e-6 within 5e-7 of v |
| Interpolation.Round6Idempotent | java/Interpolation.java:60-63 | rounding a rounded coefficient changes nothing |
| Interpolation.Solution | java/Interpolation.java:51-52 | inverse times b is a (degree+1) × 1 column |
| Interpolation.ReorderRounded | java/Interpolation.java:55-63 | degree+1 coefficients; index p holds row degree − p of the solution rounded to within 5e-7, and is itself a fixed point of the rounding |
| Interpolation.FitOf | java/Interpolation.java:35-67 | `fit` returns degree+1 coefficients |
| Interpolation.FitReadsOnlyPrefix | java/Interpolation.java:39-49 | `fit` depends only on x[..degree+1] and y[..degree+1] |
| Interpolation.FitConstant | java/Interpolation.java:35-67 | a degree-0 fit returns the first sample value, rounded |
| Interpolation.Fit | java/Interpolation.java:35-67 | the method computes FitOf; the square design matrix never reaches the null path of `addIdentity` |
| Interpolation.SolveSystem | java/Interpolation.java:51-52 | `invert` then `times` yields Solution |
| Interpolation.BuildSystem | java/Interpolation.java:36-49 | `use_inv` ends up holding Design and `b` holding RhsColumn; `points` is filled but has no effect |
| Interpolation.ReorderAndRound | java/Interpolation.java:55-63 | the reversing loop and the in-place rounding loop yield ReorderRounded |
| Interpolation.FillDesign | java/Interpolation.java:39-44 | the first loop leaves Design in `use_inv` |
| Interpolation.FillRhs | java/Interpolation.java:45-49 | the second loop leaves RhsColumn in `b` |
| Interpolation.Abscissas | java/Interpolation.java:100-103 | the sample abscissas 1, 2, .., n |
| Interpolation.RiemannPoly | java/Interpolation.java:77-86 | samples the area at 1 .. deg+2 and returns `fit` of degree deg+1 through them, deg+2 coefficients |
| Interpolation.Slopes | java/Interpolation.java:100-103 | one slope sample per abscissa 1 .. deg |
| Interpolation.SlopeSample | java/Interpolation.java:102 | sample k is `slopeAtPoint(poly, k)` |
| Interpolation.VdmPoly | java/Interpolation.java:96-106 | samples the slope at 1 .. deg and returns `fit` of degree deg−1 through them |
| Interpolation.SampleSlopes | java/Interpolation.java:98-103 | the sampling loop fills x with 1 .. deg and y with the slopes there; degree deg−1 leaves exactly degree+1 points |
| CppPolynomial.AddTermOf | cpp/polynomial.cpp:21-26 | the size becomes max(size, d+1); entry d is v; other old entries are unchanged; new entries other than d are 0 |
| CppPolynomial.AddTermOverwrites | cpp/polynomial.cpp:21-26 | a second `addTerm` at the same degree overwrites the first |
| CppPolynomial.AddTermCommutes | cpp/polynomial.cpp:21-26 | `addTerm` at two distinct degrees gives the same vector in either order |
| CppPolynomial.TermSumIsValue | cpp/polynomial.cpp:52-59 | the power sum of `evaluate`, c[i]·x^(size−i−1), equals Horner's form with c[0] the highest power |
| CppPolynomial.ValueOfZeros | cpp/polynomial.cpp:52-59 | a vector of zeros evaluates to 0 |
| CppPolynomial.ValueAppendZeros | cpp/polynomial.cpp:65-70 | appending n zeros multiplies the value by x^n |
| CppPolynomial.SingleTermEvaluatesToConstant | cpp/polynomial.cpp:52-59 | after a single `addTerm(d, v)` on an empty vector, `evaluate` gives v at every x |
| CppPolynomial.ScaledValue | cpp/polynomial.cpp:65-70 | `scaleCoefficients` multiplies the value at x by x^size |
| CppPolynomial.Polynomial.constructor | cpp/polynomial.h:23-24 | a polynomial starts with no coefficients |
| CppPolynomial.Polynomial.Degree | cpp/polynomial.h:26 | `degree()` is the number of stored coefficients, not that number minus one |
| CppPolynomial.Polynomial.AddTerm | cpp/polynomial.cpp:21-26 | the growing loop and the final set yield AddTermOf |
| CppPolynomial.Polynomial.Evaluate | cpp/polynomial.cpp:52-59 | the accumulating loop yields the value with index 0 as the highest power; an empty vector gives 0 |
| CppPolynomial.Polynomial.ScaleCoefficients | cpp/polynomial.cpp:65-70 | the vector becomes the old one followed by as many zeros (`ZERO`) as it had entries |

## Left out

- Printing (`print` in both matrix classes and in the C++ polynomial): console output only.
- The random-matrix constructor of `java/Matrix.java` (lines 81-99): it depends on `java.util.Random`.
- `printR2` and `ExponentialFunction` in `cpp/polynomial.cpp`: floating-point statistics, `exp` and console output.
- `VDM.slopeFunction` and `toString`: plotting through an external plotting library.
- The test and entry-point classes: console input, plotting and printing.
- IEEE-754 arithmetic. Entries are exact reals, so rounding error, NaN and overflow are not modelled. Java's 1/0 = Infinity is modelled only as the skipped branch it leads to.
- `Math.round`'s clamping to the `long` range: `Interpolation.JavaRound` is floor(v + 0.5) on unbounded integers.
- The quadrature `SimpsonsRule.rs` used by `Riemann_poly` is not part of this model. `Interpolation.RiemannPoly` takes it as a function parameter `area`.
- The external `polyfun.Polynomial` is a coefficient sequence indexed by power. The Stanford `Grid`/`Vector` is an `array2<real>` and a `seq<real>`. `ssutil.h`'s `ZERO` is 0.0.
- Java `switchRows` aliasing: the returned copy shares its two row arrays with the receiver. The model uses value semantics, and no caller observes the sharing.
- Java `fillMatrix` does not update `rows`/`cols`; the model keeps that. The Java `Matrix` class has `Valid()` require at least one row because `fillMatrix` reads `that.m[0]`.
- The C++ `hasIdentity` field is never read, so it is not modelled. The declared-but-undefined `plus` and the self-recursive `Polynomial::clear` in the headers are not modelled either.
- `VDM.slopeAtPoint`'s local array is a grid value built by `SetAt`. The `Matrix` whose `m` it replaces is allocated after the grid is assembled; nothing reads it in between.
- JavaMatrix.RowReduceOf, JavaMatrix.InvertOf: their own contracts state only the shape. What `rowreduce` and `invert` compute is stated by lemmas:
  - they fix already reduced grids;
  - they invert scalable diagonal grids;
  - `invert` fails on [[0,1,0],[1,0,0],[1,0,1]].

  A general inverse property does not hold for the Java code.
- JavaMatrix.ReduceStep: its contract states only the shape; the content is given by `ZerosDownOf` and `Normalize`.
- CppMatrix.RowReduceOf, CppMatrix.InverseOf, CppMatrix.DownPass, CppMatrix.UpPass: their own contracts state only the shape. The content is stated by the fixed-point and diagonal-inverse lemmas, and by the column facts of `ZerosDownOf` and `EliminateAbove`. A general inverse property is not proved: the pivot search from row 0 can move an already reduced row (see Findings).
- Vdm.SystemOf: its contract states only the shape. The entries are stated by `Vdm.SystemOfEntries` and their meaning by `Vdm.SolvesIffFactorisation`.
- Vdm.SlopeAtPoint: the returned value is not proved to be the derivative. The Java row reduction is not proved to solve the system (see `JavaMatrix.InvertMissesPermuted`).
- Interpolation.Slopes, Interpolation.FitOf, Interpolation.Solution: their own contracts state only lengths and shapes. The values are given by `Vdm.SlopeOf`, `Interpolation.ReorderRounded` and the Java inverse.
- JavaMatrix.Matrix.SetEntry: requires an index inside the grid. Java throws `ArrayIndexOutOfBoundsException` on any other index; that exception path is not modelled.
- Grids.Product: requires every row of the left grid to have at least as many entries as the right grid has rows. Java `times` throws `ArrayIndexOutOfBoundsException` when that.rows > this.cols; that exception path is not modelled.
- Interpolation.Fit, Interpolation.FitOf: require at least degree+1 samples in `x` and `y`, and take `degree` as a `nat`. `fit` (`java/Interpolation.java:35-46`) throws `ArrayIndexOutOfBoundsException` on shorter arrays and `NegativeArraySizeException` for degree < −1. For degree = −1 it builds 0 × 0 matrices, and `invert`'s `clone` then fails reading `that.m[0]` (`java/Matrix.java:108`, in `fillMatrix`). These exception paths are not modelled.
- Interpolation.VdmPoly: requires a polynomial of degree at least 1. For a constant polynomial, `VDM_poly` calls `fit(x, y, -1)` (`java/Interpolation.java:105`), which throws as above; that path is not modelled.
- Vdm.SlopeAtPoint: requires a polynomial of degree at least 1. For degree 0, `slopeAtPoint` allocates `new int[-1]` (`VDM.java:39`) and throws `NegativeArraySizeException`; that path is not modelled.
- CppPolynomial.Polynomial.AddTerm: takes the degree as a `nat`. For a negative `int` degree, `addTerm` (`cpp/polynomial.cpp:21-25`) skips the growth loop, and `set` stops with the `Vector` range error; that path is not modelled.
- JavaMatrix.Matrix.constructor: takes the sizes as `nat`s. For a negative size, Java's `new double[i][j]` (`java/Matrix.java:63-67`) throws `NegativeArraySizeException`; that path is not modelled.
- CppMatrix.Matrix.constructor: takes the sizes as `nat`s. For a negative size, `Grid::resize` (`cpp/matrix.cpp:25-29`) stops with a range error; that path is not modelled.
- JavaMatrix.Matrix.Invert: requires a square receiver. On any other receiver Java's `addIdentity` returns null and `rowreduce` dereferences it.
- CppMatrix.Matrix.Multiply: requires that.rows <= cols. Otherwise the source reads outside the receiver's grid.

## Findings

| source | as written | input that shows it | evidently intended | confidence | as-written member | corrected member |
|---|---|---|---|---|---|---|
| cpp/matrix.cpp:150-154 | `zerosUp(col)` divides m[ii][col] by m[col][col] without checking it. The first pass's pivot search starts at row 0, so it can swap an already reduced row below the diagonal and leave a zero diagonal entry under a nonzero one. | `rowreduce` on [[1,5,0],[0,1,1],[0,0,0]]: after the first pass the grid is [[1,5,0],[0,0,0],[0,1,1]], and `zerosUp(1)` computes −5/0 | skip the combination when the diagonal entry is zero, like the `m[ii][ii] != 0` guard of the rescaling step | not executed | CppMatrix.RowReduceReachesZeroDivisor | CppMatrix.EliminateAbove |
