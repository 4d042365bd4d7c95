/**
  The Java matrix engine (java/Matrix.java). A Java `Matrix` owns a public
  `double[][] m` with its `rows`, `cols` and a `hasIdentity` flag. `setEntry`
  and `fillMatrix` overwrite the receiver; the row operations, `plus`, `times`,
  `addIdentity` and `invert` return fresh matrices and are modelled as
  functions on grids (the row operations themselves are the shared ones in
  `Grids`); `zerosDown` and `rowreduce` are loops, modelled as methods proved
  equal to the specification functions below.
*/
module JavaMatrix {
  import opened Wrappers
  import opened Grids

  /** Nonzero entries below this magnitude are snapped to 0 in `zerosDown`. */
  const SnapFloor: real := 1e-15
  /** A pivot row is rescaled only when the reciprocal's magnitude lies strictly inside this band. */
  const ScaleFloor: real := 1e-10
  const ScaleCeiling: real := 1e10
  /** A row is usable for elimination when its entry has at least this magnitude,
      and an elimination factor is applied only strictly inside (CombineFloor, CombineCeiling). */
  const CombineFloor: real := 1e-8
  const CombineCeiling: real := 1e8

  predicate InScaleBand(f: real) {
    Abs(f) < ScaleCeiling && Abs(f) > ScaleFloor
  }

  predicate InCombineBand(f: real) {
    Abs(f) < CombineCeiling && Abs(f) > CombineFloor
  }

  // ---------------------------------------------------------------------
  // Value-returning operations

  /**
    `addIdentity(that)` on a receiver with `selfRows` rows: null when the
    receiver has more rows than `that` has columns or `that` is wider than it
    is tall; otherwise `that` on the left and a diagonal of ones starting at
    column `thatCols` on the right, twice as wide as `that`.
  */
  function AddIdentity(selfRows: nat, that: Grid, thatRows: nat, thatCols: nat): (r: Option<Grid>)
    requires IsRect(that, thatRows, thatCols)
    ensures r.None? <==> selfRows > thatCols || thatCols > thatRows
    ensures r.Some? ==> IsRect(r.value, thatRows, 2 * thatCols)
    ensures r.Some? ==> forall i, j :: 0 <= i < thatRows && 0 <= j < thatCols ==> r.value[i][j] == that[i][j]
    ensures r.Some? ==> forall i, j :: 0 <= i < thatRows && thatCols <= j < 2 * thatCols ==>
                          r.value[i][j] == if j - thatCols == i then 1.0 else 0.0
  {
    if selfRows > thatCols || thatCols > thatRows then None
    else
      Some(seq(thatRows, i requires 0 <= i < thatRows =>
        seq(2 * thatCols, j requires 0 <= j < 2 * thatCols =>
          if j < thatCols then that[i][j] else if j - thatCols == i then 1.0 else 0.0)))
  }

  /** `plus`: the entry-by-entry sum when both shapes agree, null otherwise. */
  function Plus(a: Grid, aRows: nat, aCols: nat, b: Grid, bRows: nat, bCols: nat): (r: Option<Grid>)
    requires IsRect(a, aRows, aCols) && IsRect(b, bRows, bCols)
    ensures r.Some? <==> aRows == bRows && aCols == bCols
    ensures r.Some? ==> IsRect(r.value, aRows, aCols)
    ensures r.Some? ==> forall i, j :: 0 <= i < aRows && 0 <= j < aCols ==> r.value[i][j] == a[i][j] + b[i][j]
  {
    if aRows == bRows && aCols == bCols then Some(AddGrids(a, b, aRows, aCols)) else None
  }

  /** `times` distributes over `plus` whenever the sum exists. */
  lemma TimesDistributesOverPlus(a: Grid, b: Grid, c: Grid, r: nat, bc: nat)
    requires IsRect(b, r, bc) && IsRect(c, r, bc)
    requires forall i :: 0 <= i < |a| ==> r <= |a[i]|
    ensures Plus(b, r, bc, c, r, bc).Some?
    ensures Plus(Product(a, b, bc), |a|, bc, Product(a, c, bc), |a|, bc)
         == Some(Product(a, Plus(b, r, bc, c, r, bc).value, bc))
  {
    ProductDistributes(a, b, c, r, bc);
  }

  /** `findPivot(col)`: the pivot row that `PivotRow` describes, with the entry found there. */
  function FindPivot(g: Grid, col: nat): (r: (nat, real))
    requires col < |g|
    requires forall i :: 0 <= i < |g| ==> col < |g[i]|
    ensures r.0 < |g| && r.1 == g[r.0][col]
    ensures r == (PivotRow(g, col), g[PivotRow(g, col)][col])
    ensures g[col][col] != 0.0 ==> r.0 == col
    ensures g[col][col] == 0.0 && r.1 != 0.0 ==> forall i :: 0 <= i < r.0 ==> g[i][col] == 0.0
    ensures r.1 == 0.0 ==> r == (0, 0.0) && forall i :: 0 <= i < |g| ==> g[i][col] == 0.0
  {
    var p := PivotRow(g, col);
    (p, g[p][col])
  }

  // ---------------------------------------------------------------------
  // zerosDown

  /** The elimination factor and the row it refers to, carried from one row to the next. */
  datatype Carry = Carry(multFactor: real, switchPos: nat)

  /**
    Scanning rows n-1 down to 0, the first row other than `ii` whose entry in
    column `col` has magnitude at least CombineFloor.
  */
  function BottomUsable(z: Grid, col: nat, ii: nat, n: nat): (r: Option<nat>)
    requires n <= |z|
    requires forall i :: 0 <= i < |z| ==> col < |z[i]|
    ensures r.Some? ==> r.value < n && r.value != ii && Abs(z[r.value][col]) >= CombineFloor
    ensures r.Some? ==> forall j :: r.value < j < n && j != ii ==> Abs(z[j][col]) < CombineFloor
    ensures r.None? ==> forall j :: 0 <= j < n && j != ii ==> Abs(z[j][col]) < CombineFloor
  {
    if n == 0 then None
    else if Abs(z[n - 1][col]) >= CombineFloor && n - 1 != ii then Some(n - 1)
    else BottomUsable(z, col, ii, n - 1)
  }

  /**
    The body of the elimination loop for row `ii`. A row with a nonzero entry
    that is not the row numbered `pivot` looks for a usable row; when none
    exists the factor and row of the previous elimination are kept. The
    combination is applied only when the factor lies inside the band.
  */
  function EliminateRow(z: Grid, rows: nat, cols: nat, col: nat, pivot: nat, ii: nat, c: Carry): (r: (Grid, Carry))
    requires IsRect(z, rows, cols) && col < cols && ii < rows && c.switchPos < rows
    ensures IsRect(r.0, rows, cols) && r.1.switchPos < rows
    ensures forall i :: 0 <= i < rows && i != ii ==> r.0[i] == z[i]
    ensures z[ii][col] == 0.0 || ii == pivot ==> r == (z, c)
    ensures BottomUsable(z, col, ii, rows).None? ==> r.1 == c
    ensures r.0 != z ==> InCombineBand(r.1.multFactor) && r.0 == LinComb(z, r.1.multFactor, r.1.switchPos, ii)
    ensures z[ii][col] != 0.0 && ii != pivot ==>
              r.1 == match BottomUsable(z, col, ii, rows)
                     case Some(jj) => Carry(-1.0 * z[ii][col] / z[jj][col], jj)
                     case None => c
    ensures z[ii][col] != 0.0 && ii != pivot && InCombineBand(r.1.multFactor) ==>
              r.0 == LinComb(z, r.1.multFactor, r.1.switchPos, ii)
  {
    if z[ii][col] != 0.0 && ii != pivot then
      var c' := match BottomUsable(z, col, ii, rows)
                case Some(jj) => Carry(-1.0 * z[ii][col] / z[jj][col], jj)
                case None => c;
      if InCombineBand(c'.multFactor) then (LinComb(z, c'.multFactor, c'.switchPos, ii), c') else (z, c')
    else (z, c)
  }

  /** The elimination loop over rows n-1 down to 0. */
  function EliminateFrom(z: Grid, rows: nat, cols: nat, col: nat, pivot: nat, n: nat, c: Carry): (r: Grid)
    requires IsRect(z, rows, cols) && col < cols && n <= rows && c.switchPos < rows
    ensures IsRect(r, rows, cols)
    ensures forall i :: n <= i < rows ==> r[i] == z[i]
    ensures pivot < rows ==> r[pivot] == z[pivot]
    decreases n
  {
    if n == 0 then z
    else
      var step := EliminateRow(z, rows, cols, col, pivot, n - 1, c);
      EliminateFrom(step.0, rows, cols, col, pivot, n - 1, step.1)
  }

  /**
    `thisG.zerosDown(thatG, col)`: the pivot is looked up in the receiver; a
    copy of `that` has the pivot row swapped into row `col` when the pivot row
    is at or below `col`, and then goes through the elimination loop, which
    never touches the row whose number is the pivot row found before the swap.
  */
  function ZerosDownOf(thisG: Grid, thatG: Grid, rows: nat, cols: nat, col: nat): (r: Grid)
    requires IsRect(thisG, rows, cols) && IsRect(thatG, rows, cols) && col < rows && col < cols
    ensures IsRect(r, rows, cols)
    ensures var p := PivotRow(thisG, col);
            r[p] == if p >= col then thatG[col] else thatG[p]
  {
    var p := FindPivot(thisG, col).0;
    var z := if p >= col then SwapRows(thatG, p, col) else thatG;
    EliminateFrom(z, rows, cols, col, p, rows, Carry(0.0, 0))
  }

  // ---------------------------------------------------------------------
  // rowreduce and invert

  /** The number of columns `rowreduce` processes. */
  function RowReduceMax(rows: nat, cols: nat, hasIdentity: bool): nat {
    if hasIdentity then cols / 2 else if rows > cols then cols else rows
  }

  /**
    The rescaling step of `rowreduce` for row `ii`: the row is divided by its
    diagonal entry only when that entry is not 1 and its reciprocal lies in
    the scale band (a zero entry, whose reciprocal is Java's Infinity, falls
    outside it); afterwards the diagonal entry is 1.
  */
  function Normalize(g: Grid, ii: nat): (r: Grid)
    requires ii < |g| && ii < |g[ii]|
    ensures |r| == |g| && |r[ii]| == |g[ii]|
    ensures forall k :: 0 <= k < |g| && k != ii ==> r[k] == g[k]
    ensures g[ii][ii] != 0.0 && InScaleBand(1.0 / g[ii][ii]) ==>
              r[ii][ii] == 1.0 && forall j :: 0 <= j < |g[ii]| ==> r[ii][j] == g[ii][j] / g[ii][ii]
    ensures g[ii][ii] == 0.0 || !InScaleBand(1.0 / g[ii][ii]) ==> r == g
  {
    if g[ii][ii] != 1.0 && g[ii][ii] != 0.0 && InScaleBand(1.0 / g[ii][ii]) then ScaleRow(g, 1.0 / g[ii][ii], ii)
    else g
  }

  /** One column of `rowreduce`: zerosDown of the working copy on itself, then the rescaling step. */
  function ReduceStep(g: Grid, rows: nat, cols: nat, ii: nat): (r: Grid)
    requires IsRect(g, rows, cols) && ii < rows && ii < cols
    ensures IsRect(r, rows, cols)
  {
    Normalize(ZerosDownOf(g, g, rows, cols, ii), ii)
  }

  /** Columns ii .. max-1 of `rowreduce`. */
  function RowReduceFrom(g: Grid, rows: nat, cols: nat, ii: nat, max: nat): (r: Grid)
    requires IsRect(g, rows, cols) && ii <= max <= rows && max <= cols
    ensures IsRect(r, rows, cols)
    decreases max - ii
  {
    if ii == max then g
    else RowReduceFrom(ReduceStep(g, rows, cols, ii), rows, cols, ii + 1, max)
  }

  lemma RowReduceFromStep(g: Grid, rows: nat, cols: nat, ii: nat, max: nat)
    requires IsRect(g, rows, cols) && ii < max <= rows && max <= cols
    ensures RowReduceFrom(g, rows, cols, ii, max) == RowReduceFrom(ReduceStep(g, rows, cols, ii), rows, cols, ii + 1, max)
  {
  }

  /** `rowreduce`: same shape as the receiver, columns 0 .. RowReduceMax-1 processed. */
  function RowReduceOf(g: Grid, rows: nat, cols: nat, hasIdentity: bool): (r: Grid)
    requires IsRect(g, rows, cols) && (hasIdentity ==> cols / 2 <= rows)
    ensures IsRect(r, rows, cols)
  {
    RowReduceFrom(g, rows, cols, 0, RowReduceMax(rows, cols, hasIdentity))
  }

  /** `invert` of an n by n grid: the right half of the row-reduced augmented grid. */
  function InvertOf(g: Grid, n: nat): (r: Grid)
    requires IsRect(g, n, n)
    ensures IsRect(r, n, n)
  {
    RightHalf(RowReduceOf(AddIdentity(n, g, n, n).value, n, 2 * n, true), n)
  }

  // ---------------------------------------------------------------------
  // Properties

  /** With every row other than `pivot` zero in column `col`, the elimination loop changes nothing. */
  lemma {:induction false} EliminateFromClean(z: Grid, rows: nat, cols: nat, col: nat, pivot: nat, n: nat, c: Carry)
    requires IsRect(z, rows, cols) && col < cols && n <= rows && c.switchPos < rows
    requires forall i :: 0 <= i < n && i != pivot ==> z[i][col] == 0.0
    ensures EliminateFrom(z, rows, cols, col, pivot, n, c) == z
    decreases n
  {
    if n > 0 {
      EliminateFromClean(z, rows, cols, col, pivot, n - 1, c);
    }
  }

  /** A column with a nonzero diagonal entry and zeros elsewhere is left alone by `zerosDown`. */
  lemma ZerosDownClean(g: Grid, rows: nat, cols: nat, col: nat)
    requires IsRect(g, rows, cols) && col < rows && col < cols
    requires g[col][col] != 0.0
    requires forall i :: 0 <= i < rows && i != col ==> g[i][col] == 0.0
    ensures ZerosDownOf(g, g, rows, cols, col) == g
  {
    assert SwapRows(g, col, col) == g;
    EliminateFromClean(g, rows, cols, col, col, rows, Carry(0.0, 0));
  }

  /** `rowreduce` leaves already-reduced columns unchanged. */
  lemma {:induction false} RowReduceFromReduced(g: Grid, rows: nat, cols: nat, ii: nat, max: nat)
    requires IsRect(g, rows, cols) && ii <= max <= rows && max <= cols
    requires UnitColumns(g, rows, cols, ii, max)
    ensures RowReduceFrom(g, rows, cols, ii, max) == g
    decreases max - ii
  {
    if ii < max {
      ZerosDownClean(g, rows, cols, ii);
      RowReduceFromReduced(g, rows, cols, ii + 1, max);
    }
  }

  /** `rowreduce` is the identity on a grid whose processed columns are already reduced. */
  lemma RowReduceFixesReduced(g: Grid, rows: nat, cols: nat, hasIdentity: bool)
    requires IsRect(g, rows, cols) && (hasIdentity ==> cols / 2 <= rows)
    requires UnitColumns(g, rows, cols, 0, RowReduceMax(rows, cols, hasIdentity))
    ensures RowReduceOf(g, rows, cols, hasIdentity) == g
  {
    RowReduceFromReduced(g, rows, cols, 0, RowReduceMax(rows, cols, hasIdentity));
  }

  /** Every diagonal entry is nonzero and its reciprocal lies inside the rescaling band. */
  predicate ScalableDiagonal(d: seq<real>) {
    forall i :: 0 <= i < |d| ==> d[i] != 0.0 && InScaleBand(1.0 / d[i])
  }

  lemma AddIdentityDiag(d: seq<real>)
    requires forall i :: 0 <= i < |d| ==> d[i] != 0.0
    ensures AddIdentity(|d|, Diag(d), |d|, |d|) == Some(DiagAug(d, 0))
  {
    var n := |d|;
    GridExt(AddIdentity(n, Diag(d), n, n).value, DiagAug(d, 0), n, 2 * n);
  }

  /** One column of `rowreduce` on DiagAug(d, k) clears nothing and rescales row k. */
  lemma DiagAugStep(d: seq<real>, k: nat)
    requires ScalableDiagonal(d) && k < |d|
    ensures ReduceStep(DiagAug(d, k), |d|, 2 * |d|, k) == DiagAug(d, k + 1)
  {
    var n := |d|;
    var g := DiagAug(d, k);
    ZerosDownClean(g, n, 2 * n, k);
    DiagAugScale(d, k);
    if d[k] == 1.0 {
      GridExt(ScaleRow(g, 1.0, k), g, n, 2 * n);
    }
    assert Normalize(g, k) == DiagAug(d, k + 1);
  }

  lemma {:induction false} RowReduceDiagFrom(d: seq<real>, k: nat)
    requires ScalableDiagonal(d) && k <= |d|
    ensures RowReduceFrom(DiagAug(d, k), |d|, 2 * |d|, k, |d|) == DiagAug(d, |d|)
    decreases |d| - k
  {
    if k < |d| {
      RowReduceFromStep(DiagAug(d, k), |d|, 2 * |d|, k, |d|);
      DiagAugStep(d, k);
      RowReduceDiagFrom(d, k + 1);
    }
  }

  /**
    `invert` of a diagonal matrix whose entries have reciprocals inside the
    rescaling band is the diagonal of reciprocals, a true inverse.
  */
  lemma InvertDiagonal(d: seq<real>)
    requires ScalableDiagonal(d)
    ensures InvertOf(Diag(d), |d|) == Diag(Recips(d))
    ensures Product(Diag(d), InvertOf(Diag(d), |d|), |d|) == Identity(|d|)
  {
    var n := |d|;
    AddIdentityDiag(d);
    assert RowReduceMax(n, 2 * n, true) == n;
    RowReduceDiagFrom(d, 0);
    assert RowReduceOf(DiagAug(d, 0), n, 2 * n, true) == DiagAug(d, n);
    DiagAugDone(d);
    assert InvertOf(Diag(d), n) == RightHalf(DiagAug(d, n), n);
    DiagTimesRecips(d);
  }

  /** `invert` of the identity is the identity. */
  lemma InvertIdentity(n: nat)
    ensures InvertOf(Identity(n), n) == Identity(n)
  {
    var ones := seq(n, i => 1.0);
    assert Diag(ones) == Identity(n);
    assert Recips(ones) == ones;
    InvertDiagonal(ones);
  }

  /** The permutation-like matrix on which Java's elimination goes wrong. */
  function Permuted(): (a: Grid)
    ensures IsRect(a, 3, 3)
  {
    [[0.0, 1.0, 0.0], [1.0, 0.0, 0.0], [1.0, 0.0, 1.0]]
  }

  /** The true inverse of Permuted(). */
  function PermutedInverse(): (b: Grid)
    ensures IsRect(b, 3, 3)
  {
    [[0.0, 1.0, 0.0], [1.0, 0.0, 0.0], [0.0, -1.0, 1.0]]
  }

  /** Entry (i, j) of a product with three inner terms. */
  lemma Dot3(a: Grid, b: Grid, i: nat, j: nat)
    requires IsRect(a, 3, 3) && IsRect(b, 3, 3) && i < 3 && j < 3
    ensures Product(a, b, 3)[i][j] == a[i][0] * b[0][j] + a[i][1] * b[1][j] + a[i][2] * b[2][j]
  {
    assert Dot(a, b, i, j, 1) == a[i][0] * b[0][j];
    assert Dot(a, b, i, j, 2) == a[i][0] * b[0][j] + a[i][1] * b[1][j];
    assert Dot(a, b, i, j, 3) == a[i][0] * b[0][j] + a[i][1] * b[1][j] + a[i][2] * b[2][j];
  }

  lemma PermutedIsInvertible()
    ensures Product(Permuted(), PermutedInverse(), 3) == Identity(3)
  {
    var p := Product(Permuted(), PermutedInverse(), 3);
    forall i, j | 0 <= i < 3 && 0 <= j < 3
      ensures p[i][j] == Identity(3)[i][j]
    {
      Dot3(Permuted(), PermutedInverse(), i, j);
    }
    GridExt(p, Identity(3), 3, 3);
  }

  /** Permuted() with the identity appended. */
  function PermutedAugmented(): (g: Grid)
    ensures IsRect(g, 3, 6)
  {
    [[0.0, 1.0, 0.0, 1.0, 0.0, 0.0], [1.0, 0.0, 0.0, 0.0, 1.0, 0.0], [1.0, 0.0, 1.0, 0.0, 0.0, 1.0]]
  }

  /** PermutedAugmented() with its pivot row 1 swapped into row 0. */
  function PermutedSwapped(): (g: Grid)
    ensures IsRect(g, 3, 6)
  {
    [[1.0, 0.0, 0.0, 0.0, 1.0, 0.0], [0.0, 1.0, 0.0, 1.0, 0.0, 0.0], [1.0, 0.0, 1.0, 0.0, 0.0, 1.0]]
  }

  /** PermutedSwapped() after row 2 is cleared with factor -1 taken from row 0. */
  function PermutedRow2Cleared(): (g: Grid)
    ensures IsRect(g, 3, 6)
  {
    [[1.0, 0.0, 0.0, 0.0, 1.0, 0.0], [0.0, 1.0, 0.0, 1.0, 0.0, 0.0], [0.0, 0.0, 1.0, 0.0, -1.0, 1.0]]
  }

  lemma PermutedPivotSwap()
    ensures var aug := AddIdentity(3, Permuted(), 3, 3).value;
            ZerosDownOf(aug, aug, 3, 6, 0) == EliminateFrom(PermutedSwapped(), 3, 6, 0, 1, 3, Carry(0.0, 0))
  {
    var aug, a6 := AddIdentity(3, Permuted(), 3, 3).value, PermutedAugmented();
    GridExt(aug, a6, 3, 6);
    assert PivotRow(a6, 0) == 1 by {
      assert FirstNonzero(a6, 0, 0) == 1;
    }
    GridExt(SwapRows(a6, 1, 0), PermutedSwapped(), 3, 6);
  }

  lemma PermutedClearRow2()
    ensures EliminateRow(PermutedSwapped(), 3, 6, 0, 1, 2, Carry(0.0, 0)) == (PermutedRow2Cleared(), Carry(-1.0, 0))
  {
    var z := PermutedSwapped();
    assert BottomUsable(z, 0, 2, 3) == Some(0);
    GridExt(LinComb(z, -1.0, 0, 2), PermutedRow2Cleared(), 3, 6);
  }

  lemma PermutedClearRow0()
    ensures EliminateRow(PermutedRow2Cleared(), 3, 6, 0, 1, 0, Carry(-1.0, 0)) == (PermutedReduced(), Carry(-1.0, 0))
  {
    var z1 := PermutedRow2Cleared();
    assert BottomUsable(z1, 0, 0, 3) == None;
    GridExt(LinComb(z1, -1.0, 0, 0), PermutedReduced(), 3, 6);
  }

  /**
    The first column of `rowreduce` on the augmented Permuted(): the pivot is
    found in row 1 and swapped into row 0; row 2 is cleared with factor -1
    taken from row 0; row 1, the row number protected from elimination, is
    skipped; and row 0 itself, finding no other usable row, reuses the carried
    factor -1 and row 0, so it is cleared as well.
  */
  lemma PermutedFirstColumn()
    ensures var aug := AddIdentity(3, Permuted(), 3, 3).value;
            ZerosDownOf(aug, aug, 3, 6, 0) == PermutedReduced()
  {
    PermutedPivotSwap();
    PermutedClearRow2();
    var z1 := PermutedRow2Cleared();
    assert EliminateRow(z1, 3, 6, 0, 1, 1, Carry(-1.0, 0)) == (z1, Carry(-1.0, 0));
    PermutedClearRow0();
  }

  /** The grid `rowreduce` produces from the augmented Permuted(): its first row is zero. */
  function PermutedReduced(): (g: Grid)
    ensures IsRect(g, 3, 6)
  {
    [[0.0, 0.0, 0.0, 0.0, 0.0, 0.0], [0.0, 1.0, 0.0, 1.0, 0.0, 0.0], [0.0, 0.0, 1.0, 0.0, -1.0, 1.0]]
  }

  lemma PermutedRowReduce()
    ensures RowReduceOf(AddIdentity(3, Permuted(), 3, 3).value, 3, 6, true) == PermutedReduced()
  {
    var s1 := PermutedReduced();
    PermutedFirstColumn();
    assert Normalize(s1, 0) == s1;
    assert UnitColumns(s1, 3, 6, 1, 3);
    RowReduceFromReduced(s1, 3, 6, 1, 3);
  }

  function PermutedComputedInverse(): (g: Grid)
    ensures IsRect(g, 3, 3)
  {
    [[0.0, 0.0, 0.0], [1.0, 0.0, 0.0], [0.0, -1.0, 1.0]]
  }

  lemma PermutedInvertOf()
    ensures InvertOf(Permuted(), 3) == RightHalf(PermutedReduced(), 3)
  {
    PermutedRowReduce();
  }

  lemma PermutedRightHalf()
    ensures RightHalf(PermutedReduced(), 3) == PermutedComputedInverse()
  {
    var half := RightHalf(PermutedReduced(), 3);
    forall i, j | 0 <= i < 3 && 0 <= j < 3
      ensures half[i][j] == PermutedComputedInverse()[i][j]
    {
      assert half[i][j] == PermutedReduced()[i][j + 3];
    }
    GridExt(half, PermutedComputedInverse(), 3, 3);
  }

  lemma PermutedProductEntry()
    ensures Product(Permuted(), PermutedComputedInverse(), 3)[1][1] == 0.0
  {
    var a, b := Permuted(), PermutedComputedInverse();
    assert a[1][0] == 1.0 && a[1][1] == 0.0 && a[1][2] == 0.0;
    assert b[0][1] == 0.0;
    Dot3(a, b, 1, 1);
  }

  /**
    Java's `invert` does not invert every invertible matrix: Permuted() has
    the inverse PermutedInverse(), yet `invert` returns a grid whose first
    row is zero, and multiplying back does not give the identity.
  */
  lemma InvertMissesPermuted()
    ensures InvertOf(Permuted(), 3) == PermutedComputedInverse() != PermutedInverse()
    ensures Product(Permuted(), InvertOf(Permuted(), 3), 3) != Identity(3)
  {
    PermutedInvertOf();
    PermutedRightHalf();
    var inv := PermutedComputedInverse();
    assert inv[0][1] != PermutedInverse()[0][1];
    PermutedProductEntry();
    assert Identity(3)[1][1] == 1.0;
  }

  /** The snapping loop of `zerosDown`: nonzero entries below SnapFloor in magnitude become 0. */
  method SnapTiny(g: Grid, rows: nat, cols: nat) returns (snapped: Grid)
    requires IsRect(g, rows, cols)
    ensures snapped == SnapBelow(g, SnapFloor)
  {
    snapped := g;
    for jj := 0 to rows
      invariant IsRect(snapped, rows, cols)
      invariant forall i, k :: 0 <= i < rows && 0 <= k < cols ==>
                  snapped[i][k] == if i < jj then SnapEntry(g[i][k], SnapFloor) else g[i][k]
    {
      for kk := 0 to cols
        invariant IsRect(snapped, rows, cols)
        invariant forall i, k :: 0 <= i < rows && 0 <= k < cols ==>
                    snapped[i][k] == if i < jj || (i == jj && k < kk) then SnapEntry(g[i][k], SnapFloor) else g[i][k]
      {
        if Abs(snapped[jj][kk]) < SnapFloor && snapped[jj][kk] != 0.0 {
          snapped := SetAt(snapped, jj, kk, 0.0);
        }
      }
    }
    GridExt(snapped, SnapBelow(g, SnapFloor), rows, cols);
  }

  /**
    The work of `zerosDown` on a copy of `that`: the pivot row is looked up
    in the receiver, swapped into row `col` of the copy when it lies at or
    below `col`, and the elimination loop follows.
  */
  method PivotAndEliminate(thisG: Grid, thatG: Grid, rows: nat, cols: nat, col: nat) returns (z: Grid)
    requires IsRect(thisG, rows, cols) && IsRect(thatG, rows, cols) && col < rows && col < cols
    ensures z == ZerosDownOf(thisG, thatG, rows, cols, col)
  {
    z := thatG;
    var pivot := FindPivot(thisG, col);
    var p := pivot.0;
    if p >= col {
      z := SwapRows(z, p, col);
    }
    z := Eliminate(z, rows, cols, col, p);
  }

  /** The elimination loop of `zerosDown`, rows from the bottom up, starting with a zero factor and row 0. */
  method Eliminate(z0: Grid, rows: nat, cols: nat, col: nat, p: nat) returns (z: Grid)
    requires IsRect(z0, rows, cols) && col < cols && rows >= 1
    ensures z == EliminateFrom(z0, rows, cols, col, p, rows, Carry(0.0, 0))
  {
    z := z0;
    var switchPos: nat := 0;
    var multFactor: real := 0.0;
    var ii: int := rows - 1;
    while ii >= 0
      invariant -1 <= ii < rows
      invariant IsRect(z, rows, cols) && switchPos < rows
      invariant EliminateFrom(z, rows, cols, col, p, ii + 1, Carry(multFactor, switchPos))
             == EliminateFrom(z0, rows, cols, col, p, rows, Carry(0.0, 0))
    {
      var next, carry := EliminateStep(z, rows, cols, col, p, ii, Carry(multFactor, switchPos));
      z, multFactor, switchPos := next, carry.multFactor, carry.switchPos;
      ii := ii - 1;
    }
  }

  /** One turn of the elimination loop, for row ii. */
  method EliminateStep(z0: Grid, rows: nat, cols: nat, col: nat, p: nat, ii: nat, carried: Carry) returns (z: Grid, c: Carry)
    requires IsRect(z0, rows, cols) && col < cols && ii < rows && carried.switchPos < rows
    ensures (z, c) == EliminateRow(z0, rows, cols, col, p, ii, carried)
  {
    z, c := z0, carried;
    if z[ii][col] != 0.0 && ii != p {
      c := SearchUsable(z, rows, cols, col, ii, carried);
      if Abs(c.multFactor) < CombineCeiling && Abs(c.multFactor) > CombineFloor {
        z := LinComb(z, c.multFactor, c.switchPos, ii);
      }
    }
  }

  /** The inner search loop: the factor and row of the lowest usable row, or the carried ones when there is none. */
  method SearchUsable(z: Grid, rows: nat, cols: nat, col: nat, ii: nat, carried: Carry) returns (c: Carry)
    requires IsRect(z, rows, cols) && col < cols && ii < rows
    ensures c == match BottomUsable(z, col, ii, rows)
                 case Some(jj) => Carry(-1.0 * z[ii][col] / z[jj][col], jj)
                 case None => carried
  {
    var multFactor, switchPos := carried.multFactor, carried.switchPos;
    var jj: int := rows - 1;
    while jj >= 0
      invariant -1 <= jj < rows
      invariant BottomUsable(z, col, ii, rows) == BottomUsable(z, col, ii, jj + 1)
      invariant Carry(multFactor, switchPos) == carried
    {
      if Abs(z[jj][col]) >= CombineFloor && jj != ii {
        multFactor := -1.0 * z[ii][col] / z[jj][col];
        switchPos := jj;
        break;
      }
      jj := jj - 1;
    }
    c := Carry(multFactor, switchPos);
  }

  // ---------------------------------------------------------------------
  // The Java object

  class Matrix {
    var m: Grid
    var rows: nat
    var cols: nat
    var hasIdentity: bool

    /** The shape fields agree with the array, and only an augmented matrix carries the flag. */
    ghost predicate Valid()
      reads this
    {
      rows >= 1 && IsRect(m, rows, cols) && (hasIdentity ==> cols / 2 <= rows)
    }

    /** `new Matrix(i, j)`: an i by j matrix of zeros. */
    constructor (i: nat, j: nat)
      ensures rows == i && cols == j && !hasIdentity && m == ZeroGrid(i, j)
    {
      m := ZeroGrid(i, j);
      rows := i;
      cols := j;
      hasIdentity := false;
    }

    /** Copies the entries of `that` into a new array; rows, cols and the flag are left as they were. */
    method FillMatrix(that: Matrix)
      requires |that.m| >= 1 && IsRect(that.m, |that.m|, |that.m[0]|)
      modifies this
      ensures m == old(that.m)
      ensures rows == old(rows) && cols == old(cols) && hasIdentity == old(hasIdentity)
    {
      var r, c := |that.m|, |that.m[0]|;
      var mat := ZeroGrid(r, c);
      for ii := 0 to r
        invariant IsRect(mat, r, c)
        invariant forall i, j :: 0 <= i < ii && 0 <= j < c ==> mat[i][j] == that.m[i][j]
      {
        for jj := 0 to c
          invariant IsRect(mat, r, c)
          invariant forall i, j :: 0 <= i < ii && 0 <= j < c ==> mat[i][j] == that.m[i][j]
          invariant forall j :: 0 <= j < jj ==> mat[ii][j] == that.m[ii][j]
        {
          mat := SetAt(mat, ii, jj, that.m[ii][jj]);
        }
      }
      GridExt(mat, that.m, r, c);
      m := mat;
    }

    /** A fresh matrix with the same shape and entries (the flag is not copied). */
    method Clone() returns (cloned: Matrix)
      requires Valid()
      ensures fresh(cloned) && cloned.Valid()
      ensures cloned.m == m && cloned.rows == rows && cloned.cols == cols && !cloned.hasIdentity
    {
      cloned := new Matrix(rows, cols);
      cloned.FillMatrix(this);
    }

    /** Entry (i, j) becomes d; nothing else changes. */
    method SetEntry(i: nat, j: nat, d: real)
      requires i < |m| && j < |m[i]|
      modifies this
      ensures m == SetAt(old(m), i, j, d)
      ensures rows == old(rows) && cols == old(cols) && hasIdentity == old(hasIdentity)
    {
      m := m[i := m[i][j := d]];
    }

    /**
      `zerosDown(that, col)`: returns a fresh matrix holding ZerosDownOf; the
      snapping of tiny entries is applied to the argument `that`, not to the
      returned copy.
    */
    method ZerosDown(that: Matrix, col: nat) returns (zeroDown: Matrix)
      requires Valid() && that.Valid() && that.rows == rows && that.cols == cols
      requires col < rows && col < cols
      modifies that
      ensures fresh(zeroDown) && zeroDown.Valid() && !zeroDown.hasIdentity
      ensures zeroDown.rows == old(rows) && zeroDown.cols == old(cols)
      ensures zeroDown.m == ZerosDownOf(old(m), old(that.m), old(rows), old(cols), col)
      ensures that.m == SnapBelow(old(that.m), SnapFloor)
      ensures that.rows == old(that.rows) && that.cols == old(that.cols) && that.hasIdentity == old(that.hasIdentity)
    {
      var z := PivotAndEliminate(m, that.m, rows, cols, col);
      var snapped := SnapTiny(that.m, rows, cols);
      that.m := snapped;
      zeroDown := new Matrix(rows, cols);
      zeroDown.m := z;
    }

    /** `rowreduce`: a fresh matrix holding RowReduceOf; the receiver is not modified. */
    method RowReduce() returns (reduced: Matrix)
      requires Valid()
      ensures fresh(reduced) && reduced.Valid() && !reduced.hasIdentity
      ensures reduced.rows == rows && reduced.cols == cols
      ensures reduced.m == RowReduceOf(m, rows, cols, hasIdentity)
    {
      reduced := new Matrix(rows, cols);
      reduced.FillMatrix(this);
      var max := if hasIdentity then cols / 2 else if rows > cols then cols else rows;
      assert max == RowReduceMax(rows, cols, hasIdentity);
      reduced := ReduceColumns(reduced, max);
    }

    /** The loop of `rowreduce` over columns 0 .. max-1, each turn replacing the working matrix. */
    static method ReduceColumns(start: Matrix, max: nat) returns (reduced: Matrix)
      requires start.Valid() && !start.hasIdentity && max <= start.rows && max <= start.cols
      modifies start
      ensures (reduced == start || fresh(reduced)) && reduced.Valid() && !reduced.hasIdentity
      ensures reduced.rows == old(start.rows) && reduced.cols == old(start.cols)
      ensures reduced.m == RowReduceFrom(old(start.m), old(start.rows), old(start.cols), 0, max)
    {
      reduced := start;
      ghost var rows, cols := start.rows, start.cols;
      ghost var target := RowReduceFrom(start.m, rows, cols, 0, max);
      ghost var cur := start.m;
      for ii := 0 to max
        invariant reduced == start || fresh(reduced)
        invariant reduced.Valid() && !reduced.hasIdentity
        invariant reduced.rows == rows && reduced.cols == cols && reduced.m == cur
        invariant IsRect(cur, rows, cols) && RowReduceFrom(cur, rows, cols, ii, max) == target
      {
        reduced := ReduceColumn(reduced, ii, max);
        cur := reduced.m;
      }
    }

    /** One turn of the `rowreduce` loop: zerosDown of the working copy on itself, then the rescaling step. */
    static method ReduceColumn(reduced: Matrix, ii: nat, ghost max: nat) returns (next: Matrix)
      requires reduced.Valid() && ii < max <= reduced.rows && max <= reduced.cols
      modifies reduced
      ensures fresh(next) && next.Valid() && !next.hasIdentity
      ensures next.rows == old(reduced.rows) && next.cols == old(reduced.cols)
      ensures next.m == ReduceStep(old(reduced.m), old(reduced.rows), old(reduced.cols), ii)
      ensures RowReduceFrom(next.m, next.rows, next.cols, ii + 1, max)
           == RowReduceFrom(old(reduced.m), old(reduced.rows), old(reduced.cols), ii, max)
    {
      ghost var g, rows, cols := reduced.m, reduced.rows, reduced.cols;
      RowReduceFromStep(g, rows, cols, ii, max);
      next := reduced.ZerosDown(reduced, ii);
      next := Rescale(next, ii);
    }

    /** The rescaling step of the `rowreduce` loop, on the matrix zerosDown returned. */
    static method Rescale(zeroDown: Matrix, ii: nat) returns (next: Matrix)
      requires zeroDown.Valid() && !zeroDown.hasIdentity && ii < zeroDown.rows && ii < zeroDown.cols
      ensures (next == zeroDown || fresh(next)) && next.Valid() && !next.hasIdentity
      ensures next.rows == zeroDown.rows && next.cols == zeroDown.cols
      ensures next.m == Normalize(zeroDown.m, ii)
    {
      next := zeroDown;
      if next.m[ii][ii] != 1.0 {
        // Java's 1/0 is Infinity, which fails the band test: nothing happens then.
        if next.m[ii][ii] != 0.0 {
          var multFactor := 1.0 / next.m[ii][ii];
          if Abs(multFactor) < ScaleCeiling && Abs(multFactor) > ScaleFloor {
            var scaled := new Matrix(next.rows, next.cols);
            scaled.m := ScaleRow(next.m, multFactor, ii);
            next := scaled;
          }
        }
      }
    }

    /**
      `invert` of a square matrix: a fresh rows by cols matrix read off the
      right half of the row-reduced augmented matrix; the receiver is not
      modified.
    */
    method Invert() returns (inverted: Matrix)
      requires Valid() && rows == cols
      ensures fresh(inverted) && inverted.Valid() && !inverted.hasIdentity
      ensures inverted.rows == rows && inverted.cols == cols
      ensures inverted.m == InvertOf(m, rows)
    {
      var cloned := Clone();
      var augmented := AddIdentity(rows, cloned.m, cloned.rows, cloned.cols);
      var withID := new Matrix(cloned.rows, 2 * cloned.cols);
      withID.m := augmented.value;
      withID.hasIdentity := true;
      var red := withID.RowReduce();
      inverted := CopyRightHalf(red);
    }

    /** The copying loop of `invert`: a fresh square matrix set entry by entry from the right half of `red`. */
    static method CopyRightHalf(red: Matrix) returns (inverted: Matrix)
      requires red.Valid() && red.cols == 2 * red.rows
      ensures fresh(inverted) && inverted.Valid() && !inverted.hasIdentity
      ensures inverted.rows == red.rows && inverted.cols == red.rows
      ensures inverted.m == RightHalf(red.m, red.rows)
    {
      var n := red.rows;
      ghost var want := RightHalf(red.m, n);
      inverted := new Matrix(n, n);
      for ii := 0 to n
        invariant fresh(inverted) && inverted.rows == n && inverted.cols == n && !inverted.hasIdentity
        invariant IsRect(inverted.m, n, n)
        invariant forall i, j :: 0 <= i < n && 0 <= j < n ==>
                    inverted.m[i][j] == if i < ii then want[i][j] else 0.0
      {
        for jj := n to red.cols
          invariant fresh(inverted) && inverted.rows == n && inverted.cols == n && !inverted.hasIdentity
          invariant IsRect(inverted.m, n, n)
          invariant forall i, j :: 0 <= i < n && 0 <= j < n ==>
                      inverted.m[i][j] == if i < ii || (i == ii && j < jj - n) then want[i][j] else 0.0
        {
          inverted.SetEntry(ii, jj - n, red.m[ii][jj]);
        }
      }
      GridExt(inverted.m, want, n, n);
    }
  }
}
