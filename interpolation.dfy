/**
  Interpolation.java: `fit` interpolates a polynomial through sample points
  by inverting a Vandermonde design matrix with the Java matrix engine, and
  `VDM_poly` / `Riemann_poly` choose the sample points for the derivative and
  the accumulation function of a polynomial. A polynomial is its list of
  coefficients indexed by power, of degree |poly| - 1.
*/
module Interpolation {
  import opened Grids
  import JavaMatrix
  import Vdm

  /** The design matrix of `fit`: entry (i, j) is x[i]^(degree - j), so column j stands for t^(degree-j). */
  function Design(x: seq<real>, degree: nat): (g: Grid)
    requires |x| > degree
    ensures IsRect(g, degree + 1, degree + 1)
    ensures forall i, j :: 0 <= i <= degree && 0 <= j <= degree ==> g[i][j] == Pow(x[i], degree - j)
  {
    seq(degree + 1, i requires 0 <= i <= degree => seq(degree + 1, j requires 0 <= j <= degree => Pow(x[i], degree - j)))
  }

  /** The right-hand side of `fit`: the column of the first degree+1 sample values. */
  function RhsColumn(y: seq<real>, degree: nat): (g: Grid)
    requires |y| > degree
    ensures IsRect(g, degree + 1, 1)
    ensures forall i :: 0 <= i <= degree ==> g[i][0] == y[i]
  {
    seq(degree + 1, i requires 0 <= i <= degree => [y[i]])
  }

  /** `Math.round`: the nearest integer, halves rounded up. */
  function JavaRound(v: real): int {
    (v + 0.5).Floor
  }

  /** round(v * 1e6) / 1e6: an integer multiple of 1e-6 within 5e-7 of v. */
  function Round6(v: real): (r: real)
    ensures (r * 1000000.0).Floor as real == r * 1000000.0
    ensures -0.0000005 < r - v <= 0.0000005
  {
    JavaRound(v * 1000000.0) as real / 1000000.0
  }

  /** Rounding twice is rounding once. */
  lemma Round6Idempotent(v: real)
    ensures Round6(Round6(v)) == Round6(v)
  {
    var k := JavaRound(v * 1000000.0);
    assert Round6(v) * 1000000.0 == k as real;
    assert (k as real + 0.5).Floor == k;
  }

  /** inv * b, the (degree+1) by 1 solution `fit` reads its coefficients from. */
  function Solution(x: seq<real>, y: seq<real>, degree: nat): (s: Grid)
    requires |x| > degree && |y| > degree
    ensures IsRect(s, degree + 1, 1)
  {
    Product(JavaMatrix.InvertOf(Design(x, degree), degree + 1), RhsColumn(y, degree), 1)
  }

  /**
    The reordering and rounding at the end of `fit`: index p of the result
    holds the coefficient of t^p, which is row degree - p of the solution,
    rounded to a multiple of 1e-6.
  */
  function ReorderRounded(s: Grid, degree: nat): (c: seq<real>)
    requires IsRect(s, degree + 1, 1)
    ensures |c| == degree + 1
    ensures forall p :: 0 <= p <= degree ==> -0.0000005 < c[p] - s[degree - p][0] <= 0.0000005
    ensures forall p :: 0 <= p <= degree ==> Round6(c[p]) == c[p]
  {
    var c := seq(degree + 1, p requires 0 <= p <= degree => Round6(s[degree - p][0]));
    forall p | 0 <= p <= degree
      ensures Round6(c[p]) == c[p]
    {
      Round6Idempotent(s[degree - p][0]);
    }
    c
  }

  /** The polynomial `fit(x, y, degree)` returns, indexed by power. */
  function FitOf(x: seq<real>, y: seq<real>, degree: nat): (c: seq<real>)
    requires |x| > degree && |y| > degree
    ensures |c| == degree + 1
  {
    ReorderRounded(Solution(x, y, degree), degree)
  }

  /** Equal samples and degree give the same fit; only a proof step that keeps VdmPoly within the resource limit. */
  lemma FitOfCongruent(fitted: seq<real>, x: seq<real>, y: seq<real>, degree: nat, x': seq<real>, y': seq<real>, degree': nat)
    requires |x| > degree && |y| > degree && x == x' && y == y' && degree == degree'
    requires fitted == FitOf(x, y, degree)
    ensures fitted == FitOf(x', y', degree')
  {
  }

  /** `fit` reads only the first degree+1 sample points. */
  lemma FitReadsOnlyPrefix(x: seq<real>, y: seq<real>, degree: nat)
    requires |x| > degree && |y| > degree
    ensures FitOf(x, y, degree) == FitOf(x[..degree + 1], y[..degree + 1], degree)
  {
    GridExt(Design(x, degree), Design(x[..degree + 1], degree), degree + 1, degree + 1);
    GridExt(RhsColumn(y, degree), RhsColumn(y[..degree + 1], degree), degree + 1, 1);
  }

  /** Fitting a constant through one point returns that point's value, rounded. */
  lemma FitConstant(x: seq<real>, y: seq<real>)
    requires |x| > 0 && |y| > 0
    ensures FitOf(x, y, 0) == [Round6(y[0])]
  {
    GridExt(Design(x, 0), Identity(1), 1, 1);
    JavaMatrix.InvertIdentity(1);
    IdentityTimes(RhsColumn(y, 0), 1, 1);
  }

  /**
    `fit(x, y, degree)`. The augmented `points` matrix is filled as in the
    source and never used afterwards; the design matrix handed to `invert` is
    square, so the null result of `addIdentity` cannot arise.
  */
  method Fit(x: seq<real>, y: seq<real>, degree: nat) returns (fitted: seq<real>)
    requires |x| > degree && |y| > degree
    ensures fitted == FitOf(x, y, degree)
  {
    var soln := SolveSystem(x, y, degree);
    fitted := ReorderAndRound(soln, degree);
  }

  /** The middle of `fit`: the design matrix is inverted and multiplied by b. */
  method SolveSystem(x: seq<real>, y: seq<real>, degree: nat) returns (soln: Grid)
    requires |x| > degree && |y| > degree
    ensures soln == Solution(x, y, degree)
  {
    var useInv, b := BuildSystem(x, y, degree);
    var inv := useInv.Invert();
    assert inv.m == JavaMatrix.InvertOf(Design(x, degree), degree + 1);
    soln := Product(inv.m, b.m, b.cols);
    SolutionOf(inv.m, b.m, x, y, degree);
  }

  /** The product of the inverted design matrix and the right-hand side is the solution; only a proof step that keeps SolveSystem within the resource limit. */
  lemma SolutionOf(inv: Grid, b: Grid, x: seq<real>, y: seq<real>, degree: nat)
    requires |x| > degree && |y| > degree
    requires inv == JavaMatrix.InvertOf(Design(x, degree), degree + 1) && b == RhsColumn(y, degree)
    ensures Product(inv, b, 1) == Solution(x, y, degree)
  {
  }

  /** The matrices of `fit` before inversion: `points`, `use_inv` and `b`, filled by the first two loops. */
  method BuildSystem(x: seq<real>, y: seq<real>, degree: nat) returns (useInv: JavaMatrix.Matrix, b: JavaMatrix.Matrix)
    requires |x| > degree && |y| > degree
    ensures useInv.Valid() && useInv.rows == degree + 1 && useInv.cols == degree + 1 && !useInv.hasIdentity
    ensures useInv.m == Design(x, degree)
    ensures b.rows == degree + 1 && b.cols == 1 && b.m == RhsColumn(y, degree)
  {
    var points := new JavaMatrix.Matrix(degree + 1, degree + 2);
    useInv := new JavaMatrix.Matrix(degree + 1, degree + 1);
    b := new JavaMatrix.Matrix(degree + 1, 1);
    FillDesign(points, useInv, x, degree);
    FillRhs(points, b, y, degree);
  }

  /** The last two loops of `fit`: the solution is written into `new_coefs` backwards, then rounded in place. */
  method ReorderAndRound(soln: Grid, degree: nat) returns (fitted: seq<real>)
    requires IsRect(soln, degree + 1, 1)
    ensures fitted == ReorderRounded(soln, degree)
  {
    var newCoefs := new real[|soln|];
    for ii := 0 to |soln|
      invariant forall p :: |soln| - ii <= p < |soln| ==> newCoefs[p] == soln[|soln| - 1 - p][0]
    {
      newCoefs[|soln| - 1 - ii] := soln[ii][0];
    }
    for ii := 0 to newCoefs.Length
      invariant forall p :: 0 <= p < newCoefs.Length ==>
                  newCoefs[p] == if p < ii then Round6(soln[degree - p][0]) else soln[degree - p][0]
    {
      var val := JavaRound(newCoefs[ii] * 1000000.0) as real;
      newCoefs[ii] := val / 1000000.0;
    }
    fitted := newCoefs[..];
  }

  /** The first loop of `fit`: the powers of the sample abscissas go into both matrices. */
  method FillDesign(points: JavaMatrix.Matrix, useInv: JavaMatrix.Matrix, x: seq<real>, degree: nat)
    requires points != useInv && |x| > degree
    requires points.rows == degree + 1 && points.cols == degree + 2 && IsRect(points.m, degree + 1, degree + 2)
    requires useInv.Valid() && useInv.rows == degree + 1 && useInv.cols == degree + 1 && !useInv.hasIdentity
    requires useInv.m == ZeroGrid(degree + 1, degree + 1)
    modifies points, useInv
    ensures points.rows == degree + 1 && points.cols == degree + 2 && IsRect(points.m, degree + 1, degree + 2)
    ensures useInv.Valid() && useInv.rows == degree + 1 && useInv.cols == degree + 1 && !useInv.hasIdentity
    ensures useInv.m == Design(x, degree)
  {
    for ii := 0 to points.rows
      invariant points.rows == degree + 1 && points.cols == degree + 2 && IsRect(points.m, degree + 1, degree + 2)
      invariant useInv.rows == degree + 1 && useInv.cols == degree + 1 && !useInv.hasIdentity
      invariant IsRect(useInv.m, degree + 1, degree + 1)
      invariant forall i, j :: 0 <= i <= degree && 0 <= j <= degree ==>
                  useInv.m[i][j] == if i < ii then Pow(x[i], degree - j) else 0.0
    {
      for jj := 0 to degree + 1
        invariant points.rows == degree + 1 && points.cols == degree + 2 && IsRect(points.m, degree + 1, degree + 2)
        invariant useInv.rows == degree + 1 && useInv.cols == degree + 1 && !useInv.hasIdentity
        invariant IsRect(useInv.m, degree + 1, degree + 1)
        invariant forall i, j :: 0 <= i <= degree && 0 <= j <= degree ==>
                    useInv.m[i][j] == if i < ii || (i == ii && j < jj) then Pow(x[i], degree - j) else 0.0
      {
        points.SetEntry(ii, jj, Pow(x[ii], degree - jj));
        useInv.SetEntry(ii, jj, Pow(x[ii], degree - jj));
      }
    }
    GridExt(useInv.m, Design(x, degree), degree + 1, degree + 1);
  }

  /** The second loop of `fit`: the sample values go into the last column of `points` and into b. */
  method FillRhs(points: JavaMatrix.Matrix, b: JavaMatrix.Matrix, y: seq<real>, degree: nat)
    requires points != b && |y| > degree
    requires points.rows == degree + 1 && points.cols == degree + 2 && IsRect(points.m, degree + 1, degree + 2)
    requires b.Valid() && b.rows == degree + 1 && b.cols == 1 && !b.hasIdentity
    requires b.m == ZeroGrid(degree + 1, 1)
    modifies points, b
    ensures b.Valid() && b.rows == degree + 1 && b.cols == 1 && !b.hasIdentity
    ensures b.m == RhsColumn(y, degree)
  {
    for ii := 0 to points.rows
      invariant points.rows == degree + 1 && points.cols == degree + 2 && IsRect(points.m, degree + 1, degree + 2)
      invariant b.rows == degree + 1 && b.cols == 1 && !b.hasIdentity && IsRect(b.m, degree + 1, 1)
      invariant forall i :: 0 <= i <= degree ==> b.m[i][0] == if i < ii then y[i] else 0.0
    {
      var yVal := y[ii];
      points.SetEntry(ii, points.cols - 1, yVal);
      b.SetEntry(ii, 0, yVal);
    }
    GridExt(b.m, RhsColumn(y, degree), degree + 1, 1);
  }

  // ---------------------------------------------------------------------
  // Sample points

  /** The abscissas 1, 2, .., n that `Riemann_poly` and `VDM_poly` sample at. */
  function Abscissas(n: nat): (x: seq<real>)
    ensures |x| == n
    ensures forall i :: 0 <= i < n ==> x[i] == (i + 1) as real
  {
    seq(n, i requires 0 <= i < n => (i + 1) as real)
  }

  /**
    `Riemann_poly(poly)`: with d the degree of poly, samples the accumulation
    function at 1 .. d+2 and fits a polynomial of degree d+1 through the
    d+2 points. `area(t)` stands for the quadrature of poly over [0, t].
  */
  method RiemannPoly(poly: seq<real>, area: real -> real) returns (fitted: seq<real>)
    requires |poly| >= 1
    ensures fitted == FitOf(Abscissas(|poly| + 1), seq(|poly| + 1, i requires 0 <= i < |poly| + 1 => area((i + 1) as real)), |poly|)
    ensures |fitted| == |poly| + 1
  {
    var deg := |poly| - 1;
    var x := new real[deg + 2];
    var y := new real[deg + 2];
    for ii := 1 to x.Length + 1
      invariant forall i :: 0 <= i < ii - 1 ==> x[i] == (i + 1) as real && y[i] == area((i + 1) as real)
    {
      x[ii - 1] := ii as real;
      y[ii - 1] := area(ii as real);
    }
    assert x[..] == Abscissas(|poly| + 1);
    assert y[..] == seq(|poly| + 1, i requires 0 <= i < |poly| + 1 => area((i + 1) as real));
    fitted := Fit(x[..], y[..], deg + 1);
  }

  /** The slopes that `VDM_poly` fits: slopeAtPoint at 1 .. d for a polynomial of degree d. */
  function Slopes(poly: seq<real>): (y: seq<real>)
    requires |poly| >= 2
    ensures |y| == |poly| - 1
  {
    seq(|poly| - 1, i requires 0 <= i < |poly| - 1 => Vdm.SlopeOf(poly, (i + 1) as real))
  }

  /** One sample of `VDM_poly`: slopeAtPoint(poly, k) for 1 <= k <= d. */
  method SlopeSample(poly: seq<real>, k: nat) returns (s: real)
    requires |poly| >= 2 && 1 <= k < |poly|
    ensures s == Slopes(poly)[k - 1]
  {
    s := Vdm.SlopeAtPoint(poly, k as real);
  }

  /**
    `VDM_poly(poly)`: with d >= 1 the degree of poly, samples the slope at
    1 .. d and fits a polynomial of degree d-1 through the d points.
  */
  method VdmPoly(poly: seq<real>) returns (fitted: seq<real>)
    requires |poly| >= 2
    ensures fitted == FitOf(Abscissas(|poly| - 1), Slopes(poly), |poly| - 2)
  {
    var xs, ys, degree := SampleSlopes(poly);
    fitted := Fit(xs, ys, degree);
    FitOfCongruent(fitted, xs, ys, degree, Abscissas(|poly| - 1), Slopes(poly), |poly| - 2);
  }

  /** The sampling loop of `VDM_poly`: x holds 1 .. d and y the slopes there. */
  method SampleSlopes(poly: seq<real>) returns (xs: seq<real>, ys: seq<real>, degree: nat)
    requires |poly| >= 2
    ensures degree == |poly| - 2 && |xs| > degree && |ys| > degree
    ensures xs == Abscissas(|poly| - 1) && ys == Slopes(poly)
  {
    var deg := |poly| - 1;
    ghost var slopes := Slopes(poly);
    var x := new real[deg];
    var y := new real[deg];
    for ii := 1 to x.Length + 1
      invariant forall i :: 0 <= i < ii - 1 ==> x[i] == (i + 1) as real && y[i] == slopes[i]
    {
      x[ii - 1] := ii as real;
      y[ii - 1] := SlopeSample(poly, ii);
    }
    xs, ys, degree := x[..], y[..], deg - 1;
    assert xs == Abscissas(deg);
    assert ys == slopes;
  }
}
