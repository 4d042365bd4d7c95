/**
  The C++ matrix (cpp/matrix.h, cpp/matrix.cpp). A `Matrix` owns a fixed-size
  `Grid<double>` of `rows` by `cols` entries, modelled as an `array2<real>`;
  the row operations, `zerosDown`, `zerosUp`, `rowreduce` and `correctZeros`
  change it in place, while `copy`, `transpose`, `inverse` and `multiply`
  return new matrices. Each method is proved equal to a function on the grid
  of its entries.
*/
module CppMatrix {
  import opened Grids

  /** `MIN_TEN_POW`: `correctZeros` snaps nonzero entries below 10^MinTenPow in magnitude. */
  const MinTenPow: int := -10
  /** `pow(10, MIN_TEN_POW)`, the floor of `correctZeros`; ZeroFloorIsTenPow ties the two. */
  const ZeroFloor: real := 1e-10

  lemma ZeroFloorIsTenPow()
    ensures MinTenPow < 0 && ZeroFloor * Pow(10.0, (-MinTenPow) as nat) == 1.0
  {
    assert Pow(10.0, 2) == 100.0;
    assert Pow(10.0, 4) == 10000.0;
    assert Pow(10.0, 6) == 1000000.0;
    assert Pow(10.0, 8) == 100000000.0;
    assert Pow(10.0, 10) == 10000000000.0;
  }

  // ---------------------------------------------------------------------
  // Specification functions

  /** After the swap of `zerosDown`: the diagonal entry is nonzero, or the rows from `from` on are zero in this column. */
  ghost predicate ColumnPivoted(z: Grid, col: nat, from: nat)
    requires col < |z| && forall i :: 0 <= i < |z| ==> col < |z[i]|
  {
    z[col][col] != 0.0 || forall i :: from <= i < |z| ==> z[i][col] == 0.0
  }

  /**
    One turn of the elimination loops: a row with a nonzero entry in column
    `col` gets the pivot row times -entry/pivot added to it, which clears
    that entry. A zero pivot leaves the row alone.
  */
  function ClearRow(z: Grid, rows: nat, cols: nat, col: nat, ii: nat): (r: Grid)
    requires IsRect(z, rows, cols) && col < rows && col < cols && ii < rows && ii != col
    ensures IsRect(r, rows, cols)
    ensures forall i :: 0 <= i < rows && i != ii ==> r[i] == z[i]
    ensures z[col][col] != 0.0 || z[ii][col] == 0.0 ==> r[ii][col] == 0.0
    ensures z[col][col] == 0.0 || z[ii][col] == 0.0 ==> r == z
    ensures z[col][col] != 0.0 ==> r == LinComb(z, -1.0 * z[ii][col] / z[col][col], col, ii)
    ensures z[col][col] != 0.0 ==> forall k :: 0 <= k < cols ==> r[ii][k] == z[ii][k] - z[ii][col] / z[col][col] * z[col][k]
  {
    if z[ii][col] != 0.0 && z[col][col] != 0.0 then
      var r := LinComb(z, -1.0 * z[ii][col] / z[col][col], col, ii);
      assert r[ii][col] == z[ii][col] + (-1.0 * z[ii][col] / z[col][col]) * z[col][col];
      r
    else if z[col][col] != 0.0 then
      // a zero entry is skipped, which is what adding 0 times the pivot row would give
      GridExt(z, LinComb(z, -1.0 * z[ii][col] / z[col][col], col, ii), rows, cols);
      z
    else z
  }

  /** The elimination loop of `zerosDown`, rows ii .. rows-1 in increasing order. */
  function EliminateBelow(z: Grid, rows: nat, cols: nat, col: nat, ii: nat): (r: Grid)
    requires IsRect(z, rows, cols) && col < rows && col < cols && col < ii <= rows
    requires ColumnPivoted(z, col, ii)
    ensures IsRect(r, rows, cols)
    ensures forall i :: 0 <= i < ii ==> r[i] == z[i]
    ensures forall i :: ii <= i < rows ==> r[i][col] == 0.0
    decreases rows - ii
  {
    if ii == rows then z
    else EliminateBelow(ClearRow(z, rows, cols, col, ii), rows, cols, col, ii + 1)
  }

  lemma ClearBelowStep(z: Grid, rows: nat, cols: nat, col: nat, ii: nat)
    requires IsRect(z, rows, cols) && col < rows && col < cols && col < ii < rows
    requires ColumnPivoted(z, col, ii)
    ensures ColumnPivoted(ClearRow(z, rows, cols, col, ii), col, ii + 1)
    ensures EliminateBelow(z, rows, cols, col, ii) == EliminateBelow(ClearRow(z, rows, cols, col, ii), rows, cols, col, ii + 1)
  {
  }

  /**
    `zerosDown(col)`: the pivot row (see PivotRow) is swapped into row `col`
    when it differs, then every row below `col` is cleared in this column.
    When the column has a nonzero entry anywhere, the diagonal entry ends up
    nonzero.
  */
  function ZerosDownOf(g: Grid, rows: nat, cols: nat, col: nat): (r: Grid)
    requires IsRect(g, rows, cols) && col < rows && col < cols
    ensures IsRect(r, rows, cols)
    ensures forall i :: col < i < rows ==> r[i][col] == 0.0
    ensures (exists i :: 0 <= i < rows && g[i][col] != 0.0) ==> r[col][col] != 0.0
    ensures forall i :: 0 <= i < col && i != PivotRow(g, col) ==> r[i] == g[i]
    ensures r[col] == g[PivotRow(g, col)]
    ensures PivotRow(g, col) < col ==> r[PivotRow(g, col)] == g[col]
  {
    var p := PivotRow(g, col);
    var z := if p != col then SwapRows(g, p, col) else g;
    EliminateBelow(z, rows, cols, col, col + 1)
  }

  /**
    `zerosUp(col)` with its division guarded: rows n-1 down to 0 with a
    nonzero entry in the column are cleared using the pivot row, and nothing
    happens when the diagonal entry is zero.
  */
  function EliminateAbove(z: Grid, rows: nat, cols: nat, col: nat, n: nat): (r: Grid)
    requires IsRect(z, rows, cols) && col < rows && col < cols && n <= col
    ensures IsRect(r, rows, cols)
    ensures forall i :: n <= i < rows ==> r[i] == z[i]
    ensures z[col][col] != 0.0 ==> forall i :: 0 <= i < n ==> r[i][col] == 0.0
    ensures z[col][col] == 0.0 ==> r == z
    decreases n
  {
    if n == 0 then z
    else EliminateAbove(ClearRow(z, rows, cols, col, n - 1), rows, cols, col, n - 1)
  }

  /** The unguarded `zerosUp(col)` would divide by a zero diagonal entry. */
  predicate ZerosUpDividesByZero(g: Grid, col: nat)
    requires col < |g| && forall i :: 0 <= i < |g| ==> col < |g[i]|
  {
    g[col][col] == 0.0 && exists i :: 0 <= i < col && g[i][col] != 0.0
  }

  /** The rescaling step of `rowreduce`: afterwards the diagonal entry is 0 or 1, and 0 only if it was. */
  function Normalize(g: Grid, ii: nat): (r: Grid)
    requires ii < |g| && ii < |g[ii]|
    ensures |r| == |g| && |r[ii]| == |g[ii]|
    ensures forall k :: 0 <= k < |g| && k != ii ==> r[k] == g[k]
    ensures r[ii][ii] == 0.0 <==> g[ii][ii] == 0.0
    ensures r[ii][ii] == 0.0 || r[ii][ii] == 1.0
    ensures g[ii][ii] != 0.0 ==> forall j :: 0 <= j < |g[ii]| ==> r[ii][j] == g[ii][j] / g[ii][ii]
    ensures g[ii][ii] == 0.0 || g[ii][ii] == 1.0 ==> r == g
  {
    if g[ii][ii] != 1.0 && g[ii][ii] != 0.0 then ScaleRow(g, 1.0 / g[ii][ii], ii) else g
  }

  /** The first pass of `rowreduce`, columns ii .. max-1: zerosDown, then rescale. */
  function DownPass(g: Grid, rows: nat, cols: nat, ii: nat, max: nat): (r: Grid)
    requires IsRect(g, rows, cols) && ii <= max && max <= rows && max <= cols
    ensures IsRect(r, rows, cols)
    decreases max - ii
  {
    if ii == max then g
    else DownPass(Normalize(ZerosDownOf(g, rows, cols, ii), ii), rows, cols, ii + 1, max)
  }

  /** The second pass of `rowreduce`, columns ii .. max-1: zerosUp, then rescale. */
  function UpPass(g: Grid, rows: nat, cols: nat, ii: nat, max: nat): (r: Grid)
    requires IsRect(g, rows, cols) && ii <= max && max <= rows && max <= cols
    ensures IsRect(r, rows, cols)
    decreases max - ii
  {
    if ii == max then g
    else UpPass(Normalize(EliminateAbove(g, rows, cols, ii, ii), ii), rows, cols, ii + 1, max)
  }

  function MinDim(rows: nat, cols: nat): nat {
    if rows > cols then cols else rows
  }

  /** `rowreduce`: both passes over the first min(rows, cols) columns. */
  function RowReduceOf(g: Grid, rows: nat, cols: nat): (r: Grid)
    requires IsRect(g, rows, cols)
    ensures IsRect(r, rows, cols)
  {
    var max := MinDim(rows, cols);
    UpPass(DownPass(g, rows, cols, 0, max), rows, cols, 0, max)
  }

  /**
    The matrix `inverse` row-reduces: rows by cols+rows, the entries on the
    left and a one wherever the row index equals the column index minus rows.
  */
  function Augment(g: Grid, rows: nat, cols: nat): (r: Grid)
    requires IsRect(g, rows, cols)
    ensures IsRect(r, rows, cols + rows)
    ensures forall i, j :: 0 <= i < rows && 0 <= j < cols ==> r[i][j] == g[i][j]
    ensures forall i, j :: 0 <= i < rows && cols <= j < cols + rows ==> r[i][j] == if i == j - rows then 1.0 else 0.0
  {
    seq(rows, i requires 0 <= i < rows => seq(cols + rows, j requires 0 <= j < cols + rows =>
      if j < cols then g[i][j] else if i == j - rows then 1.0 else 0.0))
  }

  /** The rows by cols block of `red` that starts at column `rows`. */
  function ReadBlock(red: Grid, rows: nat, cols: nat): (r: Grid)
    requires IsRect(red, rows, cols + rows)
    ensures IsRect(r, rows, cols)
    ensures forall i, j :: 0 <= i < rows && 0 <= j < cols ==> r[i][j] == red[i][j + rows]
  {
    seq(rows, i requires 0 <= i < rows => seq(cols, j requires 0 <= j < cols => red[i][j + rows]))
  }

  /** `inverse`: the block of the row-reduced augmented grid to the right of the first `rows` columns. */
  function InverseOf(g: Grid, rows: nat, cols: nat): (r: Grid)
    requires IsRect(g, rows, cols)
    ensures IsRect(r, rows, cols)
  {
    ReadBlock(RowReduceOf(Augment(g, rows, cols), rows, cols + rows), rows, cols)
  }

  // ---------------------------------------------------------------------
  // Properties

  /** Every row the loop of `zerosDown` visits ends up as itself minus entry/pivot times the pivot row. */
  lemma {:induction false} EliminateBelowCombines(z: Grid, rows: nat, cols: nat, col: nat, ii: nat)
    requires IsRect(z, rows, cols) && col < rows && col < cols && col < ii <= rows
    requires z[col][col] != 0.0
    ensures forall i, k :: ii <= i < rows && 0 <= k < cols ==>
      EliminateBelow(z, rows, cols, col, ii)[i][k] == z[i][k] - z[i][col] / z[col][col] * z[col][k]
    decreases rows - ii
  {
    if ii < rows {
      var z1 := ClearRow(z, rows, cols, col, ii);
      EliminateBelowCombines(z1, rows, cols, col, ii + 1);
    }
  }

  /** Every row the guarded loop of `zerosUp` visits ends up as itself minus entry/pivot times the pivot row. */
  lemma {:induction false} EliminateAboveCombines(z: Grid, rows: nat, cols: nat, col: nat, n: nat)
    requires IsRect(z, rows, cols) && col < rows && col < cols && n <= col
    requires z[col][col] != 0.0
    ensures forall i, k :: 0 <= i < n && 0 <= k < cols ==>
      EliminateAbove(z, rows, cols, col, n)[i][k] == z[i][k] - z[i][col] / z[col][col] * z[col][k]
    decreases n
  {
    if n > 0 {
      var z1 := ClearRow(z, rows, cols, col, n - 1);
      EliminateAboveCombines(z1, rows, cols, col, n - 1);
    }
  }

  lemma {:induction false} EliminateBelowClean(z: Grid, rows: nat, cols: nat, col: nat, ii: nat)
    requires IsRect(z, rows, cols) && col < rows && col < cols && col < ii <= rows
    requires forall i :: ii <= i < rows ==> z[i][col] == 0.0
    ensures EliminateBelow(z, rows, cols, col, ii) == z
    decreases rows - ii
  {
    if ii < rows {
      EliminateBelowClean(z, rows, cols, col, ii + 1);
    }
  }

  lemma {:induction false} EliminateAboveClean(z: Grid, rows: nat, cols: nat, col: nat, n: nat)
    requires IsRect(z, rows, cols) && col < rows && col < cols && n <= col
    requires forall i :: 0 <= i < n ==> z[i][col] == 0.0
    ensures EliminateAbove(z, rows, cols, col, n) == z
    decreases n
  {
    if n > 0 {
      EliminateAboveClean(z, rows, cols, col, n - 1);
    }
  }

  /** A column with a nonzero diagonal entry and zeros elsewhere is left alone by `zerosDown`. */
  lemma ZerosDownClean(g: Grid, rows: nat, cols: nat, col: nat)
    requires IsRect(g, rows, cols) && col < rows && col < cols
    requires g[col][col] != 0.0
    requires forall i :: 0 <= i < rows && i != col ==> g[i][col] == 0.0
    ensures ZerosDownOf(g, rows, cols, col) == g
  {
    EliminateBelowClean(g, rows, cols, col, col + 1);
  }

  /** On a column that is zero throughout, `zerosDown(col)` only swaps rows 0 and col: `findPivot` leaves its sentinel 0. */
  lemma ZerosDownZeroColumn(g: Grid, rows: nat, cols: nat, col: nat)
    requires IsRect(g, rows, cols) && 0 < col < rows && col < cols
    requires forall i :: 0 <= i < rows ==> g[i][col] == 0.0
    ensures ZerosDownOf(g, rows, cols, col) == SwapRows(g, 0, col)
  {
    assert PivotRow(g, col) == 0;
    EliminateBelowClean(SwapRows(g, 0, col), rows, cols, col, col + 1);
  }

  /** The second pass leaves already-reduced columns unchanged. */
  lemma {:induction false} UpPassReduced(g: Grid, rows: nat, cols: nat, ii: nat, max: nat)
    requires IsRect(g, rows, cols) && ii <= max && max <= rows && max <= cols
    requires UnitColumns(g, rows, cols, ii, max)
    ensures UpPass(g, rows, cols, ii, max) == g
    decreases max - ii
  {
    if ii < max {
      EliminateAboveClean(g, rows, cols, ii, ii);
      UpPassReduced(g, rows, cols, ii + 1, max);
    }
  }

  /** The first pass leaves already-reduced columns unchanged. */
  lemma {:induction false} DownPassReduced(g: Grid, rows: nat, cols: nat, ii: nat, max: nat)
    requires IsRect(g, rows, cols) && ii <= max && max <= rows && max <= cols
    requires UnitColumns(g, rows, cols, ii, max)
    ensures DownPass(g, rows, cols, ii, max) == g
    decreases max - ii
  {
    if ii < max {
      ZerosDownClean(g, rows, cols, ii);
      DownPassReduced(g, rows, cols, ii + 1, max);
    }
  }

  /** `rowreduce` is the identity on a grid whose first min(rows, cols) columns are already reduced. */
  lemma RowReduceFixesReduced(g: Grid, rows: nat, cols: nat)
    requires IsRect(g, rows, cols)
    requires UnitColumns(g, rows, cols, 0, MinDim(rows, cols))
    ensures RowReduceOf(g, rows, cols) == g
  {
    DownPassReduced(g, rows, cols, 0, MinDim(rows, cols));
    UpPassReduced(g, rows, cols, 0, MinDim(rows, cols));
  }

  lemma AugmentDiag(d: seq<real>)
    requires forall i :: 0 <= i < |d| ==> d[i] != 0.0
    ensures Augment(Diag(d), |d|, |d|) == DiagAug(d, 0)
  {
    var n := |d|;
    GridExt(Augment(Diag(d), n, n), DiagAug(d, 0), n, 2 * n);
  }

  lemma {:induction false} DownPassDiag(d: seq<real>, k: nat)
    requires forall i :: 0 <= i < |d| ==> d[i] != 0.0
    requires k <= |d|
    ensures DownPass(DiagAug(d, k), |d|, 2 * |d|, k, |d|) == DiagAug(d, |d|)
    decreases |d| - k
  {
    var n := |d|;
    if k < n {
      var g := DiagAug(d, k);
      ZerosDownClean(g, n, 2 * n, k);
      DiagAugScale(d, k);
      if d[k] == 1.0 {
        GridExt(ScaleRow(g, 1.0, k), g, n, 2 * n);
      }
      assert Normalize(g, k) == DiagAug(d, k + 1);
      DownPassDiag(d, k + 1);
    }
  }

  lemma RowReduceDiagAug(d: seq<real>)
    requires forall i :: 0 <= i < |d| ==> d[i] != 0.0
    ensures RowReduceOf(DiagAug(d, 0), |d|, 2 * |d|) == DiagAug(d, |d|)
  {
    var n := |d|;
    assert MinDim(n, 2 * n) == n;
    DownPassDiag(d, 0);
    UpPassReduced(DiagAug(d, n), n, 2 * n, 0, n);
  }

  /**
    `inverse` of a diagonal matrix with nonzero entries is the diagonal of
    reciprocals, a true inverse.
  */
  lemma InverseDiagonal(d: seq<real>)
    requires forall i :: 0 <= i < |d| ==> d[i] != 0.0
    ensures InverseOf(Diag(d), |d|, |d|) == Diag(Recips(d))
    ensures Product(Diag(d), InverseOf(Diag(d), |d|, |d|), |d|) == Identity(|d|)
  {
    var n := |d|;
    AugmentDiag(d);
    RowReduceDiagAug(d);
    assert InverseOf(Diag(d), n, n) == ReadBlock(DiagAug(d, n), n, n);
    DiagAugDone(d);
    GridExt(ReadBlock(DiagAug(d, n), n, n), RightHalf(DiagAug(d, n), n), n, n);
    DiagTimesRecips(d);
  }

  /** `inverse` of the identity is the identity. */
  lemma InverseIdentity(n: nat)
    ensures InverseOf(Identity(n), n, n) == Identity(n)
  {
    var ones := seq(n, i => 1.0);
    assert Diag(ones) == Identity(n);
    assert Recips(ones) == ones;
    InverseDiagonal(ones);
  }

  /** The singular matrix on which `rowreduce` reaches the unguarded division of `zerosUp`. */
  function Stalled(): (g: Grid)
    ensures IsRect(g, 3, 3)
  {
    [[1.0, 5.0, 0.0], [0.0, 1.0, 1.0], [0.0, 0.0, 0.0]]
  }

  /** Stalled() after the first pass: the swap of zerosDown(2) moved the second pivot row to the bottom. */
  function StalledAfterDownPass(): (g: Grid)
    ensures IsRect(g, 3, 3)
  {
    [[1.0, 5.0, 0.0], [0.0, 0.0, 0.0], [0.0, 1.0, 1.0]]
  }

  /**
    As written, `zerosUp(1)` in the second pass of `rowreduce` on Stalled()
    divides 5 by a zero diagonal entry; with the guard, `rowreduce` returns
    the grid the first pass produced.
  */
  lemma RowReduceReachesZeroDivisor()
    ensures DownPass(Stalled(), 3, 3, 0, 3) == StalledAfterDownPass()
    ensures Normalize(EliminateAbove(StalledAfterDownPass(), 3, 3, 0, 0), 0) == StalledAfterDownPass()
    ensures ZerosUpDividesByZero(StalledAfterDownPass(), 1)
    ensures RowReduceOf(Stalled(), 3, 3) == StalledAfterDownPass()
  {
    var g0, g1 := Stalled(), StalledAfterDownPass();
    EliminateBelowClean(g0, 3, 3, 0, 1);
    assert ZerosDownOf(g0, 3, 3, 0) == g0;
    EliminateBelowClean(g0, 3, 3, 1, 2);
    assert ZerosDownOf(g0, 3, 3, 1) == g0;
    assert FirstNonzero(g0, 2, 0) == 1;
    assert PivotRow(g0, 2) == 1;
    GridExt(SwapRows(g0, 1, 2), g1, 3, 3);
    assert ZerosDownOf(g0, 3, 3, 2) == g1;
    assert DownPass(g0, 3, 3, 0, 3) == g1;
    EliminateAboveClean(g1, 3, 3, 2, 2);
    assert UpPass(g1, 3, 3, 0, 3) == g1;
  }

  // ---------------------------------------------------------------------
  // The C++ object

  class Matrix {
    const rows: nat
    const cols: nat
    const m: array2<real>

    ghost predicate Valid()
      reads this
    {
      m.Length0 == rows && m.Length1 == cols
    }

    /** ColumnPivoted on the array itself. */
    ghost predicate Pivoted(col: nat, from: nat)
      requires Valid() && col < rows && col < cols
      reads this, m
    {
      m[col, col] != 0.0 || forall i :: from <= i < rows ==> m[i, col] == 0.0
    }

    /** Rows col+1 .. ii-1 are cleared so far, on the way to `target`. */
    ghost predicate BelowTracks(col: nat, ii: nat, target: Grid)
      reads this, m
    {
      Valid() && col < ii <= rows && col < cols && Pivoted(col, ii) &&
      EliminateBelow(Entries(), rows, cols, col, ii) == target
    }

    /** Rows n .. col-1 are cleared so far, on the way to `target`. */
    ghost predicate AboveTracks(col: nat, n: nat, target: Grid)
      reads this, m
    {
      Valid() && n <= col < rows && col < cols && EliminateAbove(Entries(), rows, cols, col, n) == target
    }

    /** The entries as a grid. */
    ghost function Entries(): (g: Grid)
      requires Valid()
      reads this, m
      ensures IsRect(g, rows, cols)
      ensures forall i, j :: 0 <= i < rows && 0 <= j < cols ==> g[i][j] == m[i, j]
    {
      seq(rows, i requires 0 <= i < rows reads this, m =>
        seq(cols, j requires 0 <= j < cols reads this, m => m[i, j]))
    }

    /** `Matrix(rows, cols)`: a rows by cols grid of zeros. */
    constructor (rows: nat, cols: nat)
      ensures Valid() && fresh(m) && this.rows == rows && this.cols == cols
      ensures Entries() == ZeroGrid(rows, cols)
    {
      this.rows := rows;
      this.cols := cols;
      m := new real[rows, cols]((i, j) => 0.0);
      new;
      GridExt(Entries(), ZeroGrid(rows, cols), rows, cols);
    }

    /** `setEntry`: out-of-range indices are ignored. */
    method SetEntry(row: int, col: int, value: real)
      requires Valid()
      modifies m
      ensures Entries() == if 0 <= row < rows && 0 <= col < cols then SetAt(old(Entries()), row, col, value)
                           else old(Entries())
    {
      if !(0 <= row < rows && 0 <= col < cols) {
        return;
      }
      m[row, col] := value;
      GridExt(Entries(), SetAt(old(Entries()), row, col, value), rows, cols);
    }

    /** Adds `scalar` times row `firstRow` to row `secondRow`. */
    method LinearCombRows(firstRow: nat, secondRow: nat, scalar: real)
      requires Valid() && firstRow < rows && secondRow < rows
      modifies m
      ensures Entries() == LinComb(old(Entries()), scalar, firstRow, secondRow)
    {
      for ii := 0 to cols
        invariant forall i, j :: 0 <= i < rows && 0 <= j < cols ==>
                    m[i, j] == if i == secondRow && j < ii then old(m[i, j]) + scalar * old(m[firstRow, j]) else old(m[i, j])
      {
        m[secondRow, ii] := m[secondRow, ii] + scalar * m[firstRow, ii];
      }
      GridExt(Entries(), LinComb(old(Entries()), scalar, firstRow, secondRow), rows, cols);
    }

    /** Exchanges two rows. */
    method SwitchRows(firstRow: nat, secondRow: nat)
      requires Valid() && firstRow < rows && secondRow < rows
      modifies m
      ensures Entries() == SwapRows(old(Entries()), firstRow, secondRow)
    {
      for ii := 0 to cols
        invariant forall i, j :: 0 <= i < rows && 0 <= j < cols ==>
                    m[i, j] == if j < ii && i == firstRow then old(m[secondRow, j])
                               else if j < ii && i == secondRow then old(m[firstRow, j])
                               else old(m[i, j])
      {
        var value := m[firstRow, ii];
        m[firstRow, ii] := m[secondRow, ii];
        m[secondRow, ii] := value;
      }
      GridExt(Entries(), SwapRows(old(Entries()), firstRow, secondRow), rows, cols);
    }

    /** Multiplies row `rowNum` by `scalar`. */
    method ScalarTimesRow(scalar: real, rowNum: nat)
      requires Valid() && rowNum < rows
      modifies m
      ensures Entries() == ScaleRow(old(Entries()), scalar, rowNum)
    {
      for ii := 0 to cols
        invariant forall i, j :: 0 <= i < rows && 0 <= j < cols ==>
                    m[i, j] == if i == rowNum && j < ii then old(m[i, j]) * scalar else old(m[i, j])
      {
        m[rowNum, ii] := m[rowNum, ii] * scalar;
      }
      GridExt(Entries(), ScaleRow(old(Entries()), scalar, rowNum), rows, cols);
    }

    /** `findPivot`: the row PivotRow describes. */
    method FindPivot(col: nat) returns (pivotRow: nat)
      requires Valid() && col < rows && col < cols
      ensures pivotRow == PivotRow(Entries(), col)
    {
      if m[col, col] != 0.0 {
        return col;
      }
      for ii := 0 to rows
        invariant FirstNonzero(Entries(), col, ii) == FirstNonzero(Entries(), col, 0)
      {
        if m[ii, col] != 0.0 {
          return ii;
        }
      }
      return 0;
    }

    /** `zerosDown(col)`, in place. */
    method ZerosDown(col: nat)
      requires Valid() && col < rows && col < cols
      modifies m
      ensures Entries() == ZerosDownOf(old(Entries()), rows, cols, col)
    {
      var pivotRow := FindPivot(col);
      if pivotRow != col {
        SwitchRows(pivotRow, col);
      }
      ClearBelow(col);
    }

    /** The elimination loop of `zerosDown(col)`, once the pivot is in place. */
    method ClearBelow(col: nat)
      requires Valid() && col < rows && col < cols && Pivoted(col, col + 1)
      modifies m
      ensures Entries() == EliminateBelow(old(Entries()), rows, cols, col, col + 1)
    {
      ghost var target := EliminateBelow(Entries(), rows, cols, col, col + 1);
      for ii := col + 1 to rows
        invariant BelowTracks(col, ii, target)
      {
        ClearBelowAt(col, ii, target);
      }
    }

    /** The body of the elimination loop of `zerosDown(col)` for row ii. */
    method ClearBelowAt(col: nat, ii: nat, ghost target: Grid)
      requires ii < rows && BelowTracks(col, ii, target)
      modifies m
      ensures Entries() == ClearRow(old(Entries()), rows, cols, col, ii)
      ensures BelowTracks(col, ii + 1, target)
    {
      ClearBelowStep(Entries(), rows, cols, col, ii);
      if m[ii, col] != 0.0 {
        var multFactor := -1.0 * m[ii, col] / m[col, col];
        LinearCombRows(col, ii, multFactor);
      }
    }

    /** `zerosUp(col)`, in place, with the division guarded (see ZerosUpDividesByZero). */
    method ZerosUp(col: nat)
      requires Valid() && col < rows && col < cols
      modifies m
      ensures Entries() == EliminateAbove(old(Entries()), rows, cols, col, col)
    {
      var pivotRow := FindPivot(col);
      ghost var target := EliminateAbove(Entries(), rows, cols, col, col);
      var ii: int := col - 1;
      ghost var n: nat := col;
      while ii >= 0
        invariant -1 <= ii < col && n == ii + 1 && AboveTracks(col, n, target)
      {
        ClearAboveAt(col, ii, target);
        n := ii;
        ii := ii - 1;
      }
    }

    /** The body of the `zerosUp(col)` loop for row ii, the division guarded. */
    method ClearAboveAt(col: nat, ii: nat, ghost target: Grid)
      requires ii < col && AboveTracks(col, ii + 1, target)
      modifies m
      ensures Entries() == ClearRow(old(Entries()), rows, cols, col, ii)
      ensures AboveTracks(col, ii, target)
    {
      if m[ii, col] != 0.0 && m[col, col] != 0.0 {
        var multFactor := -1.0 * m[ii, col] / m[col, col];
        LinearCombRows(col, ii, multFactor);
      }
    }

    /** The rescaling step after each zerosDown and zerosUp. */
    method NormalizeRow(ii: nat)
      requires Valid() && ii < rows && ii < cols
      modifies m
      ensures Entries() == Normalize(old(Entries()), ii)
    {
      if m[ii, ii] != 1.0 && m[ii, ii] != 0.0 {
        var multFactor := 1.0 / m[ii, ii];
        ScalarTimesRow(multFactor, ii);
      }
    }

    /** `rowreduce`, in place. */
    method RowReduce()
      requires Valid()
      modifies m
      ensures Entries() == RowReduceOf(old(Entries()), rows, cols)
    {
      var max := if rows > cols then cols else rows;
      ghost var cur := Entries();
      ghost var down := DownPass(cur, rows, cols, 0, max);
      for ii := 0 to max
        invariant Entries() == cur && DownPass(cur, rows, cols, ii, max) == down
      {
        ZerosDown(ii);
        NormalizeRow(ii);
        cur := Entries();
      }
      ghost var up := UpPass(cur, rows, cols, 0, max);
      for ii := 0 to max
        invariant Entries() == cur && UpPass(cur, rows, cols, ii, max) == up
      {
        ZerosUp(ii);
        NormalizeRow(ii);
        cur := Entries();
      }
    }

    /** `correctZeros(set)`: when the flag is set, nonzero entries below ZeroFloor in magnitude become 0. */
    method CorrectZeros(snap: bool)
      requires Valid()
      modifies m
      ensures Entries() == if snap then SnapBelow(old(Entries()), ZeroFloor) else old(Entries())
    {
      if !snap {
        return;
      }
      for ii := 0 to rows
        invariant forall i, j :: 0 <= i < rows && 0 <= j < cols ==>
                    m[i, j] == if i < ii then SnapEntry(old(m[i, j]), ZeroFloor) else old(m[i, j])
      {
        for jj := 0 to cols
          invariant forall i, j :: 0 <= i < rows && 0 <= j < cols ==>
                      m[i, j] == if i < ii || (i == ii && j < jj) then SnapEntry(old(m[i, j]), ZeroFloor) else old(m[i, j])
        {
          var val := m[ii, jj];
          if val < 0.0 {
            if val > -1.0 * ZeroFloor {
              m[ii, jj] := 0.0;
            }
          } else if val > 0.0 {
            if val < ZeroFloor {
              m[ii, jj] := 0.0;
            }
          }
        }
      }
      GridExt(Entries(), SnapBelow(old(Entries()), ZeroFloor), rows, cols);
    }

    /** `copy`: a new matrix with the same entries. */
    method Copy() returns (copied: Matrix)
      requires Valid()
      ensures fresh(copied) && fresh(copied.m) && copied.Valid()
      ensures copied.rows == rows && copied.cols == cols && copied.Entries() == Entries()
    {
      copied := new Matrix(rows, cols);
      for ii := 0 to rows
        invariant forall i, j :: 0 <= i < rows && 0 <= j < cols ==> copied.m[i, j] == if i < ii then m[i, j] else 0.0
      {
        for jj := 0 to cols
          invariant forall i, j :: 0 <= i < rows && 0 <= j < cols ==>
                      copied.m[i, j] == if i < ii || (i == ii && j < jj) then m[i, j] else 0.0
        {
          copied.SetEntry(ii, jj, m[ii, jj]);
        }
      }
      GridExt(copied.Entries(), Entries(), rows, cols);
    }

    /** `transpose`: a new cols by rows matrix. */
    method Transpose() returns (transposeM: Matrix)
      requires Valid()
      ensures fresh(transposeM) && fresh(transposeM.m) && transposeM.Valid()
      ensures transposeM.rows == cols && transposeM.cols == rows
      ensures transposeM.Entries() == TransposeOf(Entries(), rows, cols)
    {
      transposeM := new Matrix(cols, rows);
      for ii := 0 to rows
        invariant forall i, j :: 0 <= i < cols && 0 <= j < rows ==> transposeM.m[i, j] == if j < ii then m[j, i] else 0.0
      {
        for jj := 0 to cols
          invariant forall i, j :: 0 <= i < cols && 0 <= j < rows ==>
                      transposeM.m[i, j] == if j < ii || (j == ii && i < jj) then m[j, i] else 0.0
        {
          transposeM.m[jj, ii] := m[ii, jj];
        }
      }
      GridExt(transposeM.Entries(), TransposeOf(Entries(), rows, cols), cols, rows);
    }

    /** `multiply`: a new rows by that.cols matrix of sums of products over that.rows terms. */
    method Multiply(that: Matrix) returns (mult: Matrix)
      requires Valid() && that.Valid() && that.rows <= cols
      ensures fresh(mult) && fresh(mult.m) && mult.Valid()
      ensures mult.rows == rows && mult.cols == that.cols
      ensures mult.Entries() == Product(Entries(), that.Entries(), that.cols)
    {
      mult := new Matrix(rows, that.cols);
      ghost var a, b := Entries(), that.Entries();
      for ii := 0 to rows
        invariant forall i, j :: 0 <= i < rows && 0 <= j < that.cols ==>
                    mult.m[i, j] == if i < ii then Dot(a, b, i, j, that.rows) else 0.0
      {
        for jj := 0 to that.cols
          invariant forall i, j :: 0 <= i < rows && 0 <= j < that.cols ==>
                      mult.m[i, j] == if i < ii || (i == ii && j < jj) then Dot(a, b, i, j, that.rows) else 0.0
        {
          AccumulateDot(that, mult, ii, jj, a, b);
        }
      }
      mult.CorrectZeros(false);
      GridExt(mult.Entries(), Product(a, b, that.cols), rows, that.cols);
    }

    /** The innermost loop of `multiply`: entry (ii, jj) of `mult` accumulates the products over that.rows terms. */
    method AccumulateDot(that: Matrix, mult: Matrix, ii: nat, jj: nat, ghost a: Grid, ghost b: Grid)
      requires Valid() && that.Valid() && mult.Valid() && that.rows <= cols
      requires mult.m != m && mult.m != that.m && ii < rows && ii < mult.rows && jj < that.cols && jj < mult.cols
      requires IsRect(a, rows, cols) && IsRect(b, that.rows, that.cols) && mult.m[ii, jj] == 0.0
      requires forall k :: 0 <= k < that.rows ==> a[ii][k] == m[ii, k] && b[k][jj] == that.m[k, jj]
      modifies mult.m
      ensures mult.m[ii, jj] == Dot(a, b, ii, jj, that.rows)
      ensures forall i, j :: 0 <= i < mult.rows && 0 <= j < mult.cols && (i != ii || j != jj) ==> mult.m[i, j] == old(mult.m[i, j])
    {
      for kk := 0 to that.rows
        invariant mult.m[ii, jj] == Dot(a, b, ii, jj, kk)
        invariant forall i, j :: 0 <= i < mult.rows && 0 <= j < mult.cols && (i != ii || j != jj) ==> mult.m[i, j] == old(mult.m[i, j])
      {
        assert a[ii][kk] == m[ii, kk] && b[kk][jj] == that.m[kk, jj];
        assert Dot(a, b, ii, jj, kk + 1) == Dot(a, b, ii, jj, kk) + m[ii, kk] * that.m[kk, jj];
        var newValue := m[ii, kk] * that.m[kk, jj];
        mult.m[ii, jj] := mult.m[ii, jj] + newValue;
      }
    }

    /** `inverse`: augment, row-reduce, and read the right block back. */
    method Inverse() returns (inverted: Matrix)
      requires Valid()
      ensures fresh(inverted) && fresh(inverted.m) && inverted.Valid()
      ensures inverted.rows == rows && inverted.cols == cols
      ensures inverted.Entries() == InverseOf(Entries(), rows, cols)
    {
      var withIdentity := Augmented();
      withIdentity.RowReduce();
      inverted := withIdentity.RightBlock(rows, cols);
    }

    /** The last loop of `inverse`: a new rows by cols matrix read from column rows on. */
    method RightBlock(rows: nat, cols: nat) returns (inverted: Matrix)
      requires Valid() && this.rows == rows && this.cols == cols + rows
      ensures fresh(inverted) && fresh(inverted.m) && inverted.Valid()
      ensures inverted.rows == rows && inverted.cols == cols
      ensures inverted.Entries() == ReadBlock(Entries(), rows, cols)
    {
      inverted := new Matrix(rows, cols);
      for ii := 0 to rows
        invariant forall i, j :: 0 <= i < rows && 0 <= j < cols ==>
                    inverted.m[i, j] == if i < ii then m[i, j + rows] else 0.0
      {
        for jj := 0 to cols
          invariant forall i, j :: 0 <= i < rows && 0 <= j < cols ==>
                      inverted.m[i, j] == if i < ii || (i == ii && j < jj) then m[i, j + rows] else 0.0
        {
          inverted.SetEntry(ii, jj, m[ii, jj + rows]);
        }
      }
      GridExt(inverted.Entries(), ReadBlock(Entries(), rows, cols), rows, cols);
    }

    /** The first half of `inverse`: a new rows by cols+rows matrix holding Augment of the entries. */
    method Augmented() returns (withIdentity: Matrix)
      requires Valid()
      ensures fresh(withIdentity) && fresh(withIdentity.m) && withIdentity.Valid()
      ensures withIdentity.rows == rows && withIdentity.cols == cols + rows
      ensures withIdentity.Entries() == Augment(Entries(), rows, cols)
    {
      withIdentity := new Matrix(rows, cols + rows);
      for ii := 0 to rows
        invariant forall i, j :: 0 <= i < rows && 0 <= j < cols + rows ==>
                    withIdentity.m[i, j] == if i < ii && j < cols then m[i, j] else 0.0
      {
        for jj := 0 to cols
          invariant forall i, j :: 0 <= i < rows && 0 <= j < cols + rows ==>
                      withIdentity.m[i, j] == if (i < ii || (i == ii && j < jj)) && j < cols then m[i, j] else 0.0
        {
          withIdentity.SetEntry(ii, jj, m[ii, jj]);
        }
      }
      for ii := 0 to rows
        invariant forall i, j :: 0 <= i < rows && 0 <= j < cols + rows ==>
                    withIdentity.m[i, j] == if j < cols then m[i, j] else if i < ii && i == j - rows then 1.0 else 0.0
      {
        for jj := cols to cols + rows
          invariant forall i, j :: 0 <= i < rows && 0 <= j < cols + rows ==>
                      withIdentity.m[i, j] == if j < cols then m[i, j]
                                              else if (i < ii || (i == ii && j < jj)) && i == j - rows then 1.0
                                              else 0.0
        {
          if ii == jj - rows {
            withIdentity.SetEntry(ii, jj, 1.0);
          } else {
            withIdentity.SetEntry(ii, jj, 0.0);
          }
        }
      }
      GridExt(withIdentity.Entries(), Augment(Entries(), rows, cols), rows, cols + rows);
    }
  }
}
