/**
  The slope computation of VDM.java. To find the slope of a polynomial P at
  x, `slopeAtPoint` writes P(t) = (t - x)^2 Q(t) + m t + b with unknown
  quotient Q and unknowns m and b, turns the equality of coefficients into a
  linear system, row-reduces it with the Java matrix engine and reads m off
  the second row. A polynomial is its list of coefficients indexed by power,
  of degree |poly| - 1.
*/
module Vdm {
  import opened Grids
  import JavaMatrix

  /** The coefficients of (t - x)^2, indexed by power. */
  function SquareFactor(x: real): (v: seq<real>)
    ensures |v| == 3
  {
    [x * x, -2.0 * x, 1.0]
  }

  /** SquareFactor(x) evaluated at t is (t - x)^2. */
  lemma SquareFactorEvaluates(x: real, t: real)
    ensures var v := SquareFactor(x); v[0] + v[1] * t + v[2] * t * t == (t - x) * (t - x)
  {
  }

  /**
    Entry (i, c) of the block of the unknown quotient: column c (2 <= c <= deg)
    stands for the coefficient of t^(c-2) in Q, and holds the coefficient of
    t^i in t^(c-2) (t - x)^2.
  */
  function QEntry(x: real, deg: nat, i: nat, c: nat): real {
    if 2 <= c <= deg && c - 2 <= i <= c then SquareFactor(x)[i - (c - 2)] else 0.0
  }

  /**
    The system `slopeAtPoint` row-reduces for a polynomial of degree deg >= 1:
    deg+1 rows (one per power) and deg+2 columns: b in column 0, m in column 1,
    the quotient in columns 2 .. deg, and the polynomial's coefficients last.
  */
  function SystemOf(poly: seq<real>, x: real): (g: Grid)
    requires |poly| >= 2
    ensures IsRect(g, |poly|, |poly| + 1)
  {
    var n := |poly|;
    seq(n, i requires 0 <= i < n => seq(n + 1, c requires 0 <= c < n + 1 =>
      if c == n then poly[i] else (if i == c && c < 2 then 1.0 else 0.0) + QEntry(x, n - 1, i, c)))
  }

  /**
    The entries of the system: the polynomial's coefficients in the last
    column, a 1 for b in (0, 0) and for m in (1, 1), and the quotient block.
  */
  lemma SystemOfEntries(poly: seq<real>, x: real)
    requires |poly| >= 2
    ensures var g := SystemOf(poly, x);
      (forall i :: 0 <= i < |poly| ==> g[i][|poly|] == poly[i]) &&
      (forall i, c :: 0 <= i < |poly| && 0 <= c < |poly| ==>
         g[i][c] == (if i == c && c < 2 then 1.0 else 0.0) + QEntry(x, |poly| - 1, i, c))
  {
  }

  /** The value `slopeAtPoint` returns: the last entry of row 1 of the row-reduced system. */
  function SlopeOf(poly: seq<real>, x: real): real
    requires |poly| >= 2
  {
    var n := |poly|;
    JavaMatrix.RowReduceOf(SystemOf(poly, x), n, n + 1, false)[1][n]
  }

  /**
    `slopeAtPoint(poly, x)`: assembles the system by the triple loop over the
    polynomial's powers, the powers of (t - x)^2 and the powers of Q, then
    row-reduces it.
  */
  method SlopeAtPoint(poly: seq<real>, x: real) returns (slope: real)
    requires |poly| >= 2
    ensures slope == SlopeOf(poly, x)
  {
    var deg := |poly| - 1;
    var qCount := deg - 1;
    var vX := SquareFactor(x);
    var qDegs := seq(qCount, k requires 0 <= k < qCount => qCount - 1 - k);
    var vDegs := [2, 1, 0];
    var mat := AssembleQuotientBlock(x, deg, vX, qDegs, vDegs);
    for ii := 0 to deg + 1
      invariant IsRect(mat, deg + 1, deg + 2)
      invariant forall i, c :: 0 <= i < deg + 1 && 0 <= c < deg + 2 ==>
                  mat[i][c] == if c == deg + 1 && i < ii then poly[i] else QEntry(x, deg, i, c)
    {
      mat := SetAt(mat, ii, deg + 1, poly[ii]);
    }
    mat := SetAt(mat, 0, 0, mat[0][0] + 1.0);
    mat := SetAt(mat, 1, 1, mat[1][1] + 1.0);
    SystemOfEntries(poly, x);
    GridExt(mat, SystemOf(poly, x), deg + 1, deg + 2);
    var matrix := new JavaMatrix.Matrix(deg + 1, deg + 2);
    matrix.m := mat;
    matrix := matrix.RowReduce();
    slope := matrix.m[1][|matrix.m[0]| - 1];
  }

  /** The triple loop of `slopeAtPoint`, which accumulates the quotient block. */
  method AssembleQuotientBlock(x: real, deg: nat, vX: seq<real>, qDegs: seq<int>, vDegs: seq<int>) returns (mat: Grid)
    requires deg >= 1 && vX == SquareFactor(x) && vDegs == [2, 1, 0]
    requires |qDegs| == deg - 1 && forall k :: 0 <= k < |qDegs| ==> qDegs[k] == deg - 2 - k
    ensures IsRect(mat, deg + 1, deg + 2)
    ensures forall i, c :: 0 <= i < deg + 1 && 0 <= c < deg + 2 ==> mat[i][c] == QEntry(x, deg, i, c)
  {
    mat := ZeroGrid(deg + 1, deg + 2);
    for ii := 0 to deg + 1
      invariant IsRect(mat, deg + 1, deg + 2)
      invariant forall i, c :: 0 <= i < deg + 1 && 0 <= c < deg + 2 ==>
                  mat[i][c] == if i < ii then QEntry(x, deg, i, c) else 0.0
    {
      for jj := 0 to |vDegs|
        invariant IsRect(mat, deg + 1, deg + 2)
        invariant forall i, c :: 0 <= i < deg + 1 && 0 <= c < deg + 2 ==>
                    mat[i][c] == if i < ii || (i == ii && c - i < jj) then QEntry(x, deg, i, c) else 0.0
      {
        for kk := 0 to |qDegs|
          invariant IsRect(mat, deg + 1, deg + 2)
          invariant forall i, c :: 0 <= i < deg + 1 && 0 <= c < deg + 2 ==>
                      mat[i][c] == if i < ii || (i == ii && (c - i < jj || (c - i == jj && deg - c < kk)))
                                   then QEntry(x, deg, i, c) else 0.0
        {
          if vDegs[jj] + qDegs[kk] == ii {
            var coef := vX[vDegs[jj]];
            mat := SetAt(mat, ii, qDegs[kk] + 2, mat[ii][qDegs[kk] + 2] + coef);
          }
        }
      }
    }
  }

  // ---------------------------------------------------------------------
  // What the system means

  /** The coefficient of t^i in A(t) Q(t), where A has coefficients a and only q[..k] of Q is kept. */
  function ProductCoeff(a: seq<real>, q: seq<real>, i: nat, k: nat): real
    requires k <= |q|
  {
    if k == 0 then 0.0
    else ProductCoeff(a, q, i, k - 1) + (if k - 1 <= i && i - (k - 1) < |a| then a[i - (k - 1)] else 0.0) * q[k - 1]
  }

  /** Row i of a grid applied to the first n unknowns u. */
  function RowApply(g: Grid, i: nat, u: seq<real>, n: nat): real
    requires i < |g| && n <= |g[i]| && n <= |u|
  {
    if n == 0 then 0.0 else RowApply(g, i, u, n - 1) + g[i][n - 1] * u[n - 1]
  }

  /** The coefficient of t^i in (t - x)^2 Q(t) + m t + b. */
  function TargetCoeff(x: real, b: real, m: real, q: seq<real>, i: nat): real {
    ProductCoeff(SquareFactor(x), q, i, |q|) + (if i == 0 then b else 0.0) + (if i == 1 then m else 0.0)
  }

  lemma {:induction false} SystemRowPrefix(poly: seq<real>, x: real, b: real, m: real, q: seq<real>, i: nat, n: nat)
    requires |poly| >= 2 && |q| == |poly| - 2 && i < |poly| && 2 <= n <= |poly|
    ensures RowApply(SystemOf(poly, x), i, [b, m] + q, n)
         == ProductCoeff(SquareFactor(x), q, i, n - 2) + (if i == 0 then b else 0.0) + (if i == 1 then m else 0.0)
    decreases n
  {
    var g, u := SystemOf(poly, x), [b, m] + q;
    SystemOfEntries(poly, x);
    if n > 2 {
      SystemRowPrefix(poly, x, b, m, q, i, n - 1);
      assert g[i][n - 1] == QEntry(x, |poly| - 1, i, n - 1);
      assert u[n - 1] == q[n - 3];
    } else {
      assert RowApply(g, i, u, 1) == g[i][0] * b;
    }
  }

  /**
    The first deg+1 columns of row i, applied to (b, m, q_0 .. q_{deg-2}), give
    the coefficient of t^i in (t - x)^2 Q(t) + m t + b.
  */
  lemma SystemEncodesFactorisation(poly: seq<real>, x: real, b: real, m: real, q: seq<real>, i: nat)
    requires |poly| >= 2 && |q| == |poly| - 2 && i < |poly|
    ensures RowApply(SystemOf(poly, x), i, [b, m] + q, |poly|) == TargetCoeff(x, b, m, q, i)
  {
    SystemRowPrefix(poly, x, b, m, q, i, |poly|);
  }

  /**
    (b, m, q) solves the system exactly when poly(t) = (t - x)^2 Q(t) + m t + b,
    coefficient by coefficient.
  */
  lemma SolvesIffFactorisation(poly: seq<real>, x: real, b: real, m: real, q: seq<real>)
    requires |poly| >= 2 && |q| == |poly| - 2
    ensures (forall i :: 0 <= i < |poly| ==> RowApply(SystemOf(poly, x), i, [b, m] + q, |poly|) == SystemOf(poly, x)[i][|poly|])
        <==> (forall i :: 0 <= i < |poly| ==> TargetCoeff(x, b, m, q, i) == poly[i])
  {
    forall i | 0 <= i < |poly|
      ensures RowApply(SystemOf(poly, x), i, [b, m] + q, |poly|) == TargetCoeff(x, b, m, q, i)
    {
      SystemEncodesFactorisation(poly, x, b, m, q, i);
    }
  }
}
