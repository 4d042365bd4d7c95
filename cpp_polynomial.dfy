/**
  The C++ Polynomial (cpp/polynomial.cpp): a growable vector of coefficients.
  `addTerm` grows the vector with zeros and sets one entry, `scaleCoefficients`
  doubles its length with zeros, and `evaluate` sums c[i] x^(size-i-1), so
  evaluation reads index 0 as the highest power.
*/
module CppPolynomial {
  import opened Grids

  /** `ZERO` from ssutil.h, the value `scaleCoefficients` appends. */
  const Zero: real := 0.0

  function Zeros(n: nat): (z: seq<real>)
    ensures |z| == n && forall i :: 0 <= i < n ==> z[i] == 0.0
  {
    seq(n, _ => 0.0)
  }

  /** The coefficients after `addTerm(d, v)`: padded with zeros up to index d, then entry d set to v. */
  function AddTermOf(c: seq<real>, d: nat, v: real): (r: seq<real>)
    ensures |r| == if d < |c| then |c| else d + 1
    ensures r[d] == v
    ensures forall i :: 0 <= i < |c| && i != d ==> r[i] == c[i]
    ensures forall i :: |c| <= i < |r| && i != d ==> r[i] == 0.0
  {
    var padded := if d < |c| then c else c + Zeros(d + 1 - |c|);
    padded[d := v]
  }

  /** A second `addTerm` at the same degree overwrites the first. */
  lemma AddTermOverwrites(c: seq<real>, d: nat, v: real, w: real)
    ensures AddTermOf(AddTermOf(c, d, v), d, w) == AddTermOf(c, d, w)
  {
  }

  /** `addTerm` at distinct degrees commutes. */
  lemma AddTermCommutes(c: seq<real>, d: nat, v: real, e: nat, w: real)
    requires d != e
    ensures AddTermOf(AddTermOf(c, d, v), e, w) == AddTermOf(AddTermOf(c, e, w), d, v)
  {
    var r1, r2 := AddTermOf(AddTermOf(c, d, v), e, w), AddTermOf(AddTermOf(c, e, w), d, v);
    assert |r1| == |r2|;
    forall i | 0 <= i < |r1|
      ensures r1[i] == r2[i]
    {
    }
  }

  /** The value of the polynomial in Horner form, with c[0] the coefficient of the highest power. */
  function Value(c: seq<real>, x: real): real {
    if |c| == 0 then 0.0 else Value(c[..|c| - 1], x) * x + c[|c| - 1]
  }

  /** The first k terms of the power sum `evaluate` accumulates. */
  function TermSum(c: seq<real>, x: real, k: nat): real
    requires k <= |c|
  {
    if k == 0 then 0.0 else TermSum(c, x, k - 1) + c[k - 1] * Pow(x, |c| - k)
  }

  /** Ring identity behind the inductive steps below: x can be factored out of a*x + b*(x*p). */
  lemma FactorOut(a: real, b: real, p: real, x: real)
    ensures a * x + b * (x * p) == (a + b * p) * x
  {
  }

  lemma {:induction false} TermSumDropLast(c: seq<real>, x: real, k: nat)
    requires k < |c|
    ensures TermSum(c, x, k) == TermSum(c[..|c| - 1], x, k) * x
  {
    if k > 0 {
      TermSumDropLast(c, x, k - 1);
      var front := c[..|c| - 1];
      assert front[k - 1] == c[k - 1];
      assert Pow(x, |c| - k) == x * Pow(x, |c| - 1 - k);
      FactorOut(TermSum(front, x, k - 1), c[k - 1], Pow(x, |c| - 1 - k), x);
    }
  }

  /** The power sum and the Horner form agree. */
  lemma {:induction false} TermSumIsValue(c: seq<real>, x: real)
    ensures TermSum(c, x, |c|) == Value(c, x)
    decreases |c|
  {
    if |c| > 0 {
      var n := |c|;
      TermSumDropLast(c, x, n - 1);
      TermSumIsValue(c[..n - 1], x);
    }
  }

  lemma {:induction false} ValueOfZeros(n: nat, x: real)
    ensures Value(Zeros(n), x) == 0.0
  {
    if n > 0 {
      assert Zeros(n)[..n - 1] == Zeros(n - 1);
      ValueOfZeros(n - 1, x);
    }
  }

  /** Appending n zeros multiplies the value by x^n. */
  lemma {:induction false} ValueAppendZeros(c: seq<real>, n: nat, x: real)
    ensures Value(c + Zeros(n), x) == Value(c, x) * Pow(x, n)
  {
    if n > 0 {
      var longer := c + Zeros(n);
      assert longer[..|longer| - 1] == c + Zeros(n - 1);
      assert longer[|longer| - 1] == 0.0;
      ValueAppendZeros(c, n - 1, x);
      FactorOut(0.0, Value(c, x), Pow(x, n - 1), x);
    } else {
      assert c + Zeros(0) == c;
    }
  }

  /**
    Starting from an empty polynomial, `addTerm(d, v)` followed by `evaluate`
    gives v at every x, whatever d is: evaluation reads the last index as the
    constant term, while `addTerm` stores the coefficient of x^d at index d.
  */
  lemma SingleTermEvaluatesToConstant(d: nat, v: real, x: real)
    ensures Value(AddTermOf([], d, v), x) == v
  {
    var r := AddTermOf([], d, v);
    assert r == Zeros(d) + [v];
    assert r[..d] == Zeros(d);
    ValueOfZeros(d, x);
  }

  class Polynomial {
    var coeffs: seq<real>

    /** A polynomial with an empty vector of coefficients. */
    constructor ()
      ensures coeffs == []
    {
      coeffs := [];
    }

    /** `degree()`: the number of stored coefficients, one more than the highest index. */
    method Degree() returns (n: nat)
      ensures n == |coeffs|
    {
      n := |coeffs|;
    }

    /** `addTerm(degree, coefficient)`. */
    method AddTerm(degree: nat, coefficient: real)
      modifies this
      ensures coeffs == AddTermOf(old(coeffs), degree, coefficient)
    {
      while degree >= |coeffs|
        invariant |old(coeffs)| <= |coeffs| <= if degree < |old(coeffs)| then |old(coeffs)| else degree + 1
        invariant coeffs == old(coeffs) + Zeros(|coeffs| - |old(coeffs)|)
        decreases degree - |coeffs|
      {
        coeffs := coeffs + [0.0];
      }
      coeffs := coeffs[degree := coefficient];
    }

    /** `evaluate(x)`: the sum of c[i] x^(size-i-1). */
    method Evaluate(x: real) returns (y: real)
      ensures y == Value(coeffs, x)
    {
      y := 0.0;
      for ii := 0 to |coeffs|
        invariant y == TermSum(coeffs, x, ii)
      {
        y := y + coeffs[ii] * Pow(x, |coeffs| - ii - 1);
      }
      TermSumIsValue(coeffs, x);
    }

    /** `scaleCoefficients()`: appends as many zeros as there are coefficients. */
    method ScaleCoefficients()
      modifies this
      ensures coeffs == old(coeffs) + Zeros(|old(coeffs)|)
    {
      var curSize := |coeffs|;
      for ii := 0 to curSize
        invariant coeffs == old(coeffs) + Zeros(ii)
      {
        coeffs := coeffs + [Zero];
      }
    }
  }

  /** Scaling multiplies the polynomial's value by x^size. */
  lemma ScaledValue(c: seq<real>, x: real)
    ensures Value(c + Zeros(|c|), x) == Value(c, x) * Pow(x, |c|)
  {
    ValueAppendZeros(c, |c|, x);
  }
}
