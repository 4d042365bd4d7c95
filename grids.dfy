/** The usual optional value, standing for Java's `null` results. */
module Wrappers {
  datatype Option<T> = None | Some(value: T)
}

/**
  Dense matrices as values: a grid of exact reals stored row by row, and the
  row operations, products and clean-ups that both matrix engines (the Java
  class that returns fresh matrices and the C++ class that edits its grid in
  place) are built from. Every entry is a `real`; floating-point rounding is
  not modelled.
*/
module Grids {

  type Grid = seq<seq<real>>

  /** `g` has `r` rows of `c` entries each. */
  predicate IsRect(g: Grid, r: nat, c: nat) {
    |g| == r && forall i :: 0 <= i < r ==> |g[i]| == c
  }

  function Abs(v: real): real {
    if v < 0.0 then -v else v
  }

  /** x to the power n; like Java's `Math.pow` and C's `pow`, 0^0 is 1. */
  function Pow(x: real, n: nat): real {
    if n == 0 then 1.0 else x * Pow(x, n - 1)
  }

  lemma {:induction false} PowAdd(x: real, a: nat, b: nat)
    ensures Pow(x, a + b) == Pow(x, a) * Pow(x, b)
  {
    if a > 0 {
      PowAdd(x, a - 1, b);
      assert Pow(x, a + b) == x * Pow(x, a - 1 + b);
    }
  }

  function ZeroGrid(r: nat, c: nat): (g: Grid)
    ensures IsRect(g, r, c)
    ensures forall i, j :: 0 <= i < r && 0 <= j < c ==> g[i][j] == 0.0
  {
    seq(r, _ => seq(c, _ => 0.0))
  }

  /** Two grids of the same shape that agree entry by entry are equal. */
  lemma GridExt(a: Grid, b: Grid, r: nat, c: nat)
    requires IsRect(a, r, c) && IsRect(b, r, c)
    requires forall i, j :: 0 <= i < r && 0 <= j < c ==> a[i][j] == b[i][j]
    ensures a == b
  {
    forall i | 0 <= i < r
      ensures a[i] == b[i]
    {
      assert |a[i]| == |b[i]|;
    }
  }

  /** The grid with entry (i, j) replaced by v. */
  function SetAt(g: Grid, i: nat, j: nat, v: real): (r: Grid)
    requires i < |g| && j < |g[i]|
    ensures |r| == |g| && |r[i]| == |g[i]| && r[i][j] == v
    ensures forall k :: 0 <= k < |g| && k != i ==> r[k] == g[k]
    ensures forall l :: 0 <= l < |g[i]| && l != j ==> r[i][l] == g[i][l]
  {
    g[i := g[i][j := v]]
  }

  // ---------------------------------------------------------------------
  // Elementary row operations

  /** Row `second` becomes row second + s * row first; no other row changes. */
  function LinComb(g: Grid, s: real, first: nat, second: nat): (r: Grid)
    requires first < |g| && second < |g| && |g[first]| == |g[second]|
    ensures |r| == |g| && |r[second]| == |g[second]|
    ensures forall k :: 0 <= k < |g[second]| ==> r[second][k] == g[second][k] + s * g[first][k]
    ensures forall i :: 0 <= i < |g| && i != second ==> r[i] == g[i]
  {
    g[second := seq(|g[second]|, k requires 0 <= k < |g[second]| => g[second][k] + s * g[first][k])]
  }

  /** Row `row` is multiplied by s; no other row changes. */
  function ScaleRow(g: Grid, s: real, row: nat): (r: Grid)
    requires row < |g|
    ensures |r| == |g| && |r[row]| == |g[row]|
    ensures forall k :: 0 <= k < |g[row]| ==> r[row][k] == g[row][k] * s
    ensures forall i :: 0 <= i < |g| && i != row ==> r[i] == g[i]
  {
    g[row := seq(|g[row]|, k requires 0 <= k < |g[row]| => g[row][k] * s)]
  }

  /** Rows a and b are exchanged; no other row changes. */
  function SwapRows(g: Grid, a: nat, b: nat): (r: Grid)
    requires a < |g| && b < |g|
    ensures |r| == |g| && r[a] == g[b] && r[b] == g[a]
    ensures forall i :: 0 <= i < |g| && i != a && i != b ==> r[i] == g[i]
  {
    g[a := g[b]][b := g[a]]
  }

  lemma SwapRowsTwice(g: Grid, a: nat, b: nat)
    requires a < |g| && b < |g|
    ensures SwapRows(SwapRows(g, a, b), a, b) == g
  {
  }

  // ---------------------------------------------------------------------
  // Pivot search

  /** The first row at or after `from` with a nonzero entry in column `col`, or |g| if none. */
  function FirstNonzero(g: Grid, col: nat, from: nat): (r: nat)
    requires from <= |g|
    requires forall i :: 0 <= i < |g| ==> col < |g[i]|
    ensures from <= r <= |g|
    ensures r < |g| ==> g[r][col] != 0.0
    ensures forall i :: from <= i < r ==> g[i][col] == 0.0
    decreases |g| - from
  {
    if from == |g| then |g|
    else if g[from][col] != 0.0 then from
    else FirstNonzero(g, col, from + 1)
  }

  /**
    The pivot row of column `col`: the diagonal row when its entry is nonzero,
    otherwise the first row (searching from row 0) with a nonzero entry, and
    the sentinel 0 when the whole column is zero.
  */
  function PivotRow(g: Grid, col: nat): (p: nat)
    requires col < |g|
    requires forall i :: 0 <= i < |g| ==> col < |g[i]|
    ensures p < |g|
    ensures g[col][col] != 0.0 ==> p == col
    ensures g[col][col] == 0.0 && g[p][col] != 0.0 ==> forall i :: 0 <= i < p ==> g[i][col] == 0.0
    ensures g[p][col] == 0.0 ==> p == 0 && forall i :: 0 <= i < |g| ==> g[i][col] == 0.0
  {
    if g[col][col] != 0.0 then col
    else
      var f := FirstNonzero(g, col, 0);
      if f < |g| then f else 0
  }

  // ---------------------------------------------------------------------
  // Products

  /** Sum over k < n of a[i][k] * b[k][j], accumulated with k ascending. */
  function Dot(a: Grid, b: Grid, i: nat, j: nat, n: nat): real
    requires i < |a| && n <= |a[i]| && n <= |b|
    requires forall k :: 0 <= k < n ==> j < |b[k]|
  {
    if n == 0 then 0.0 else Dot(a, b, i, j, n - 1) + a[i][n - 1] * b[n - 1][j]
  }

  /**
    The product of a and b: |a| rows, bc columns, entry (i, j) the sum over
    every row k of b of a[i][k] * b[k][j]. Columns of a beyond |b| are ignored.
  */
  function Product(a: Grid, b: Grid, bc: nat): (r: Grid)
    requires forall i :: 0 <= i < |a| ==> |b| <= |a[i]|
    requires IsRect(b, |b|, bc)
    ensures IsRect(r, |a|, bc)
    ensures forall i, j :: 0 <= i < |a| && 0 <= j < bc ==> r[i][j] == Dot(a, b, i, j, |b|)
  {
    seq(|a|, i requires 0 <= i < |a| => seq(bc, j requires 0 <= j < bc => Dot(a, b, i, j, |b|)))
  }

  /** Entry-by-entry sum of two grids of one shape. */
  function AddGrids(a: Grid, b: Grid, r: nat, c: nat): (s: Grid)
    requires IsRect(a, r, c) && IsRect(b, r, c)
    ensures IsRect(s, r, c)
    ensures forall i, j :: 0 <= i < r && 0 <= j < c ==> s[i][j] == a[i][j] + b[i][j]
  {
    seq(r, i requires 0 <= i < r => seq(c, j requires 0 <= j < c => a[i][j] + b[i][j]))
  }

  lemma {:induction false} DotAdd(a: Grid, b: Grid, c: Grid, r: nat, bc: nat, i: nat, j: nat, n: nat)
    requires IsRect(b, r, bc) && IsRect(c, r, bc)
    requires i < |a| && n <= r <= |a[i]| && j < bc
    ensures Dot(a, AddGrids(b, c, r, bc), i, j, n) == Dot(a, b, i, j, n) + Dot(a, c, i, j, n)
  {
    if n > 0 {
      DotAdd(a, b, c, r, bc, i, j, n - 1);
    }
  }

  /** Multiplication distributes over addition: a (b + c) = a b + a c. */
  lemma ProductDistributes(a: Grid, b: Grid, c: Grid, r: nat, bc: nat)
    requires IsRect(b, r, bc) && IsRect(c, r, bc)
    requires forall i :: 0 <= i < |a| ==> r <= |a[i]|
    ensures Product(a, AddGrids(b, c, r, bc), bc)
         == AddGrids(Product(a, b, bc), Product(a, c, bc), |a|, bc)
  {
    var lhs := Product(a, AddGrids(b, c, r, bc), bc);
    var rhs := AddGrids(Product(a, b, bc), Product(a, c, bc), |a|, bc);
    forall i, j | 0 <= i < |a| && 0 <= j < bc
      ensures lhs[i][j] == rhs[i][j]
    {
      DotAdd(a, b, c, r, bc, i, j, r);
    }
    GridExt(lhs, rhs, |a|, bc);
  }

  /** The n by n identity. */
  function Identity(n: nat): (g: Grid)
    ensures IsRect(g, n, n)
    ensures forall i, j :: 0 <= i < n && 0 <= j < n ==> g[i][j] == if i == j then 1.0 else 0.0
  {
    seq(n, i => seq(n, j => if i == j then 1.0 else 0.0))
  }

  /** The n by n diagonal grid with d on its diagonal. */
  function Diag(d: seq<real>): (g: Grid)
    ensures IsRect(g, |d|, |d|)
    ensures forall i, j :: 0 <= i < |d| && 0 <= j < |d| ==> g[i][j] == if i == j then d[i] else 0.0
  {
    seq(|d|, i requires 0 <= i < |d| => seq(|d|, j => if i == j then d[i] else 0.0))
  }

  /** A sum of products whose only nonzero term is the one at index p. */
  lemma {:induction false} DotSingleTerm(a: Grid, b: Grid, i: nat, j: nat, n: nat, p: nat)
    requires i < |a| && n <= |a[i]| && n <= |b|
    requires forall k :: 0 <= k < n ==> j < |b[k]|
    requires forall k :: 0 <= k < n && k != p ==> a[i][k] == 0.0
    ensures Dot(a, b, i, j, n) == if p < n then a[i][p] * b[p][j] else 0.0
  {
    if n > 0 {
      DotSingleTerm(a, b, i, j, n - 1, p);
    }
  }

  /** Multiplying by the identity on the left gives the other factor back. */
  lemma IdentityTimes(b: Grid, n: nat, bc: nat)
    requires IsRect(b, n, bc)
    ensures Product(Identity(n), b, bc) == b
  {
    var p := Product(Identity(n), b, bc);
    forall i, j | 0 <= i < n && 0 <= j < bc
      ensures p[i][j] == b[i][j]
    {
      DotSingleTerm(Identity(n), b, i, j, n, i);
    }
    GridExt(p, b, n, bc);
  }

  /** A diagonal grid times the diagonal of reciprocals is the identity. */
  lemma DiagTimesReciprocal(d: seq<real>, e: seq<real>)
    requires |e| == |d|
    requires forall i :: 0 <= i < |d| ==> d[i] * e[i] == 1.0
    ensures Product(Diag(d), Diag(e), |d|) == Identity(|d|)
  {
    var n := |d|;
    var p := Product(Diag(d), Diag(e), n);
    forall i, j | 0 <= i < n && 0 <= j < n
      ensures p[i][j] == Identity(n)[i][j]
    {
      DotSingleTerm(Diag(d), Diag(e), i, j, n, i);
      assert p[i][j] == d[i] * Diag(e)[i][j];
      if i == j {
        assert d[i] * e[i] == 1.0;
      }
    }
    GridExt(p, Identity(n), n, n);
  }

  // ---------------------------------------------------------------------
  // Transposition

  /** The right n columns of an n by 2n grid. */
  function RightHalf(g: Grid, n: nat): (r: Grid)
    requires IsRect(g, n, 2 * n)
    ensures IsRect(r, n, n)
    ensures forall i, j :: 0 <= i < n && 0 <= j < n ==> r[i][j] == g[i][j + n]
  {
    seq(n, i requires 0 <= i < n => seq(n, j requires 0 <= j < n => g[i][j + n]))
  }

  /** The reciprocals of a sequence of nonzero reals. */
  function Recips(d: seq<real>): (e: seq<real>)
    requires forall i :: 0 <= i < |d| ==> d[i] != 0.0
    ensures |e| == |d| && forall i :: 0 <= i < |d| ==> d[i] * e[i] == 1.0
  {
    seq(|d|, i requires 0 <= i < |d| => 1.0 / d[i])
  }

  /**
    The augmented grid of Diag(d) next to the identity, after its first k rows
    have been divided by their diagonal entries: rows below k still read
    d[i] and 1, rows above read 1 and 1/d[i].
  */
  function DiagAug(d: seq<real>, k: nat): (g: Grid)
    requires forall i :: 0 <= i < |d| ==> d[i] != 0.0
    ensures IsRect(g, |d|, 2 * |d|)
    ensures forall i, j :: 0 <= i < |d| && 0 <= j < 2 * |d| && j != i && j != i + |d| ==> g[i][j] == 0.0
    ensures forall i :: 0 <= i < |d| ==> g[i][i] == (if i < k then 1.0 else d[i])
    ensures forall i :: 0 <= i < |d| ==> g[i][i + |d|] == (if i < k then 1.0 / d[i] else 1.0)
  {
    var n := |d|;
    seq(n, i requires 0 <= i < n => seq(2 * n, j requires 0 <= j < 2 * n =>
      if j == i then (if i < k then 1.0 else d[i])
      else if j == i + n then (if i < k then 1.0 / d[i] else 1.0)
      else 0.0))
  }

  /** Dividing row k of DiagAug(d, k) by d[k] gives DiagAug(d, k + 1). */
  lemma DiagAugScale(d: seq<real>, k: nat)
    requires forall i :: 0 <= i < |d| ==> d[i] != 0.0
    requires k < |d|
    ensures ScaleRow(DiagAug(d, k), 1.0 / d[k], k) == DiagAug(d, k + 1)
  {
    var n := |d|;
    var a := ScaleRow(DiagAug(d, k), 1.0 / d[k], k);
    var b := DiagAug(d, k + 1);
    forall i, j | 0 <= i < n && 0 <= j < 2 * n
      ensures a[i][j] == b[i][j]
    {
      if i == k && j == k {
        assert a[i][j] == d[k] * (1.0 / d[k]);
      }
    }
    GridExt(a, b, n, 2 * n);
  }

  /** With every row processed, the right half of DiagAug is the diagonal of reciprocals. */
  lemma DiagAugDone(d: seq<real>)
    requires forall i :: 0 <= i < |d| ==> d[i] != 0.0
    ensures RightHalf(DiagAug(d, |d|), |d|) == Diag(Recips(d))
  {
    var n := |d|;
    var a := RightHalf(DiagAug(d, n), n);
    forall i, j | 0 <= i < n && 0 <= j < n
      ensures a[i][j] == Diag(Recips(d))[i][j]
    {
      assert a[i][j] == DiagAug(d, n)[i][j + n];
    }
    GridExt(a, Diag(Recips(d)), n, n);
  }

  /** Diag(d) times the diagonal of its reciprocals is the identity. */
  lemma DiagTimesRecips(d: seq<real>)
    requires forall i :: 0 <= i < |d| ==> d[i] != 0.0
    ensures Product(Diag(d), Diag(Recips(d)), |d|) == Identity(|d|)
  {
    DiagTimesReciprocal(d, Recips(d));
  }

  /** Columns lo .. max-1 of g are already the unit columns of the identity. */
  ghost predicate UnitColumns(g: Grid, rows: nat, cols: nat, lo: nat, max: nat)
    requires IsRect(g, rows, cols) && max <= cols
  {
    forall i, c :: 0 <= i < rows && lo <= c < max ==> g[i][c] == if i == c then 1.0 else 0.0
  }

  function TransposeOf(g: Grid, r: nat, c: nat): (t: Grid)
    requires IsRect(g, r, c)
    ensures IsRect(t, c, r)
    ensures forall j, i :: 0 <= j < c && 0 <= i < r ==> t[j][i] == g[i][j]
  {
    seq(c, j requires 0 <= j < c => seq(r, i requires 0 <= i < r => g[i][j]))
  }

  /** Transposing twice gives back the original grid. */
  lemma TransposeTwice(g: Grid, r: nat, c: nat)
    requires IsRect(g, r, c)
    ensures TransposeOf(TransposeOf(g, r, c), c, r) == g
  {
    GridExt(TransposeOf(TransposeOf(g, r, c), c, r), g, r, c);
  }

  // ---------------------------------------------------------------------
  // Snapping tiny values to zero

  function SnapEntry(v: real, eps: real): real {
    if v != 0.0 && Abs(v) < eps then 0.0 else v
  }

  /**
    Every entry whose magnitude is nonzero but below eps becomes exactly 0;
    every other entry is kept.
  */
  function SnapBelow(g: Grid, eps: real): (r: Grid)
    ensures |r| == |g|
    ensures forall i :: 0 <= i < |g| ==> |r[i]| == |g[i]|
    ensures forall i, j :: 0 <= i < |g| && 0 <= j < |g[i]| ==>
              (Abs(g[i][j]) < eps ==> r[i][j] == 0.0) && (Abs(g[i][j]) >= eps ==> r[i][j] == g[i][j])
    ensures forall i, j :: 0 <= i < |g| && 0 <= j < |g[i]| ==> r[i][j] == 0.0 || Abs(r[i][j]) >= eps
  {
    seq(|g|, i requires 0 <= i < |g| => seq(|g[i]|, j requires 0 <= j < |g[i]| => SnapEntry(g[i][j], eps)))
  }

  lemma SnapBelowIdempotent(g: Grid, eps: real)
    ensures SnapBelow(SnapBelow(g, eps), eps) == SnapBelow(g, eps)
  {
    var s := SnapBelow(g, eps);
    var t := SnapBelow(s, eps);
    forall i | 0 <= i < |g|
      ensures t[i] == s[i]
    {
      assert |t[i]| == |s[i]|;
    }
  }
}
