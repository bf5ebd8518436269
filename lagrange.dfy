/**
 * Lagrange interpolation in coefficient form, as `buildPolynomial` in
 * LagrangeInterpolation.java performs it: for each sample i, the basis
 * L_i = product over j != i of (x - x_j) is built by repeated
 * multiplication with a linear factor, scaled by y_i / product over j != i
 * of (x_i - x_j), and added into the coefficient array.
 *
 * The specification functions below describe the same construction on
 * exact real coefficients; the lemmas prove that its result interpolates
 * the points.
 */
module Lagrange {
  import opened Exceptions
  import opened Fractions
  import opened Polynomials

  /** Some other sample has the same x value as sample i. */
  ghost predicate HasTwin(x: seq<int>, i: int)
    requires 0 <= i < |x|
  {
    exists j :: 0 <= j < |x| && j != i && x[j] == x[i]
  }

  ghost predicate Distinct(x: seq<int>) {
    forall i, j :: 0 <= i < |x| && 0 <= j < |x| && i != j ==> x[i] != x[j]
  }

  /** Basis of sample i after the factors (x - x_j) for j < m, j != i. */
  ghost function Basis(x: seq<int>, i: nat, m: nat): seq<real>
    requires m <= |x|
    decreases m
  {
    if m == 0 then [1.0]
    else if m - 1 == i then Basis(x, i, m - 1)
    else MulLinear(Basis(x, i, m - 1), x[m - 1] as real)
  }

  /** The product of (x_i - x_j) over j < m, j != i. */
  function DenomProduct(x: seq<int>, i: nat, m: nat): int
    requires i < |x| && m <= |x|
    decreases m
  {
    if m == 0 then 1
    else if m - 1 == i then DenomProduct(x, i, m - 1)
    else DenomProduct(x, i, m - 1) * (x[i] - x[m - 1])
  }

  /** After all factors the basis has one coefficient per sample, the leading one 1. */
  lemma {:induction false} BasisShape(x: seq<int>, i: nat, m: nat)
    requires m <= |x|
    ensures |Basis(x, i, m)| == (if i < m then m else m + 1)
    ensures Basis(x, i, m)[|Basis(x, i, m)| - 1] == 1.0
  {
    hide MulLinear;
    if m > 0 {
      BasisShape(x, i, m - 1);
      var p := Basis(x, i, m - 1);
      if m - 1 != i {
        MulLinearAt(p, x[m - 1] as real, |p|);
      }
    }
  }

  /** At its own node the basis evaluates to the denominator product. */
  lemma {:induction false} BasisAtOwnNode(x: seq<int>, i: nat, m: nat)
    requires i < |x| && m <= |x|
    ensures Eval(Basis(x, i, m), x[i] as real) == DenomProduct(x, i, m) as real
  {
    hide MulLinear;
    var t := x[i] as real;
    if m == 0 {
      assert [1.0][1..] == [];
    } else {
      BasisAtOwnNode(x, i, m - 1);
      if m - 1 != i {
        var d := DenomProduct(x, i, m - 1);
        EvalMulLinear(Basis(x, i, m - 1), x[m - 1] as real, t);
        assert Eval(Basis(x, i, m), t) == (d as real) * ((x[i] - x[m - 1]) as real);
        CastProduct(d, x[i] - x[m - 1]);
      }
    }
  }

  lemma CastProduct(a: int, b: int)
    ensures (a * b) as real == (a as real) * (b as real)
  {
  }

  /** At every other node k already multiplied in, the basis vanishes. */
  lemma {:induction false} BasisAtOtherNode(x: seq<int>, i: nat, m: nat, k: nat)
    requires m <= |x| && k < m && k != i
    ensures Eval(Basis(x, i, m), x[k] as real) == 0.0
  {
    if m - 1 != i {
      EvalMulLinear(Basis(x, i, m - 1), x[m - 1] as real, x[k] as real);
    }
    if k < m - 1 {
      BasisAtOtherNode(x, i, m - 1, k);
    }
  }

  /** The denominator product is zero exactly when an earlier sample repeats x_i. */
  lemma {:induction false} DenomZero(x: seq<int>, i: nat, m: nat)
    requires i < |x| && m <= |x|
    ensures DenomProduct(x, i, m) == 0 <==> exists j :: 0 <= j < m && j != i && x[j] == x[i]
  {
    if m > 0 {
      DenomZero(x, i, m - 1);
    }
  }

  lemma DenomZeroIffTwin(x: seq<int>, i: nat)
    requires i < |x|
    ensures DenomProduct(x, i, |x|) == 0 <==> HasTwin(x, i)
  {
    DenomZero(x, i, |x|);
  }

  /**
   * The sum over samples i < m of (y_i / denom_i) * L_i: the content of the
   * coefficient array after m passes of the outer loop.
   */
  ghost function LagrangeSum(x: seq<int>, y: seq<int>, m: nat): (r: seq<real>)
    requires m <= |x| && m <= |y|
    requires forall i :: 0 <= i < m ==> DenomProduct(x, i, |x|) != 0
    ensures |r| == |x|
    decreases m
  {
    if m == 0 then Zeros(|x|)
    else
      BasisShape(x, m - 1, |x|);
      Plus(LagrangeSum(x, y, m - 1),
           Scale(y[m - 1] as real / DenomProduct(x, m - 1, |x|) as real, Basis(x, m - 1, |x|)))
  }

  /** At node k the partial sum holds y_k if sample k is already added, and 0 otherwise. */
  lemma {:induction false} EvalLagrangeSum(x: seq<int>, y: seq<int>, m: nat, k: nat)
    requires m <= |x| && m <= |y| && k < |x|
    requires forall i :: 0 <= i < m ==> DenomProduct(x, i, |x|) != 0
    ensures Eval(LagrangeSum(x, y, m), x[k] as real) == if k < m then y[k] as real else 0.0
  {
    hide Basis, LagrangeSum, Eval, Plus, Scale, DenomProduct;
    var t := x[k] as real;
    if m == 0 {
      SpecStart(x, y, 0);
      EvalZeros(|x|, t);
    } else {
      var i := m - 1;
      var d := DenomProduct(x, i, |x|) as real;
      var s := y[i] as real / d;
      var b := Basis(x, i, |x|);
      BasisShape(x, i, |x|);
      EvalLagrangeSum(x, y, i, k);
      LagrangeSumStep(x, y, i);
      var before := Eval(LagrangeSum(x, y, i), t);
      if k == i {
        BasisAtOwnNode(x, i, |x|);
        EvalPlusScaled(LagrangeSum(x, y, i), s, b, t, before, d);
        QuotientTimesDivisor(y[i] as real, d);
      } else {
        BasisAtOtherNode(x, i, |x|, k);
        EvalPlusScaled(LagrangeSum(x, y, i), s, b, t, before, 0.0);
      }
    }
  }

  lemma EvalPlusScaled(p: seq<real>, s: real, q: seq<real>, t: real, vp: real, vq: real)
    requires |p| == |q| && Eval(p, t) == vp && Eval(q, t) == vq
    ensures Eval(Plus(p, Scale(s, q)), t) == vp + s * vq
  {
    EvalPlus(p, Scale(s, q), t);
    EvalScale(s, q, t);
  }

  lemma QuotientTimesDivisor(a: real, d: real)
    requires d != 0.0
    ensures (a / d) * d == a
  {
  }

  /** Distinct x values give nonzero denominators and a polynomial through every point. */
  lemma Interpolates(x: seq<int>, y: seq<int>)
    requires Distinct(x) && |x| <= |y|
    ensures forall i :: 0 <= i < |x| ==> DenomProduct(x, i, |x|) != 0
    ensures forall k :: 0 <= k < |x| ==> Eval(LagrangeSum(x, y, |x|), x[k] as real) == y[k] as real
  {
    forall i | 0 <= i < |x| ensures DenomProduct(x, i, |x|) != 0 {
      DenomZeroIffTwin(x, i);
    }
    forall k | 0 <= k < |x| ensures Eval(LagrangeSum(x, y, |x|), x[k] as real) == y[k] as real {
      EvalLagrangeSum(x, y, |x|, k);
    }
  }

  lemma DistinctIffNoTwin(x: seq<int>)
    ensures Distinct(x) <==> forall i :: 0 <= i < |x| ==> !HasTwin(x, i)
  {
    if !Distinct(x) {
      var i, j :| 0 <= i < |x| && 0 <= j < |x| && i != j && x[i] == x[j];
      assert HasTwin(x, i);
    }
  }

  /** The starting point of each recursive specification. */
  lemma SpecStart(x: seq<int>, y: seq<int>, i: nat)
    ensures Basis(x, i, 0) == [1.0]
    ensures i < |x| ==> DenomProduct(x, i, 0) == 1
    ensures LagrangeSum(x, y, 0) == Zeros(|x|)
  {
  }

  /** One step of each recursive specification, for proofs that keep their bodies hidden. */
  lemma BasisStep(x: seq<int>, i: nat, j: nat)
    requires j < |x|
    ensures Basis(x, i, j + 1) == if j == i then Basis(x, i, j) else MulLinear(Basis(x, i, j), x[j] as real)
  {
  }

  lemma DenomStep(x: seq<int>, i: nat, j: nat)
    requires i < |x| && j < |x|
    ensures DenomProduct(x, i, j + 1) == if j == i then DenomProduct(x, i, j) else DenomProduct(x, i, j) * (x[i] - x[j])
  {
  }

  lemma LagrangeSumStep(x: seq<int>, y: seq<int>, i: nat)
    requires i < |x| && i < |y|
    requires forall i' :: 0 <= i' <= i ==> DenomProduct(x, i', |x|) != 0
    ensures |Basis(x, i, |x|)| == |x|
    ensures LagrangeSum(x, y, i + 1) ==
      Plus(LagrangeSum(x, y, i), Scale(y[i] as real / DenomProduct(x, i, |x|) as real, Basis(x, i, |x|)))
  {
    BasisShape(x, i, |x|);
  }

  ghost predicate AllValid(s: seq<Fraction>) {
    forall k :: 0 <= k < |s| ==> Valid(s[k])
  }

  /** The exact values of an array of fractions. */
  ghost function Values(s: seq<Fraction>): (r: seq<real>)
    requires AllValid(s)
    ensures |r| == |s| && forall k :: 0 <= k < |s| ==> r[k] == Value(s[k])
  {
    seq(|s|, k requires 0 <= k < |s| => Value(s[k]))
  }

  /**
   * Coefficient t of the new basis after k passes of the convolution loop
   * multiplying p by (x - c): the "times x" term has reached degrees 1..k,
   * the constant-factor term degrees 0..k-1.
   */
  ghost function PartialProduct(p: seq<real>, c: real, k: nat, t: nat): real
    requires k <= |p| && t <= |p|
  {
    (if 1 <= t <= k then p[t - 1] else 0.0) + (if t < k then -c * p[t] else 0.0)
  }

  lemma PartialProductStep(p: seq<real>, c: real, k: nat, t: nat)
    requires k < |p| && t <= |p|
    ensures PartialProduct(p, c, k + 1, t) ==
      if t == k + 1 then PartialProduct(p, c, k, t) + p[k]
      else if t == k then PartialProduct(p, c, k, t) + p[k] * -c
      else PartialProduct(p, c, k, t)
  {
  }

  /**
   * The scale of the outer loop: y/1 times the reciprocal fraction built
   * from 1 over a nonzero integer d (the constructor moves the sign of a
   * negative d into the numerator) has the value y/d.
   */
  lemma ScaleValue(y: int, d: int)
    requires d != 0
    ensures Make(1, d).Ok? && Valid(Make(1, d).value)
    ensures Value(Multiply(Make(y, 1).value, Make(1, d).value)) == y as real / d as real
  {
    hide Multiply, Simplify;
    var a, b := Make(y, 1).value, Make(1, d).value;
    assert Value(a) == y as real && Value(b) == 1.0 / d as real;
    assert Value(Multiply(a, b)) == y as real * (1.0 / d as real);
  }

  /**
   * One pass of the convolution loop: a fresh array one longer than basis,
   * holding the coefficients of basis * (x - xj).
   */
  method MultiplyLinear(basis: array<Fraction>, xj: int) returns (newBasis: array<Fraction>)
    requires AllValid(basis[..])
    ensures fresh(newBasis)
    ensures AllValid(newBasis[..])
    ensures Values(newBasis[..]) == MulLinear(Values(basis[..]), xj as real)
  {
    hide Add, Multiply, Simplify, Value, MulLinear;
    newBasis := new Fraction[basis.Length + 1](_ => Fraction(0, 1));
    IntegerReduced(0);
    ghost var p := Values(basis[..]);
    ghost var c := xj as real;
    var negX := Make(-xj, 1).value;
    assert Value(negX) == -c;
    var k := 0;
    while k < basis.Length
      invariant 0 <= k <= basis.Length
      invariant AllValid(newBasis[..])
      invariant forall t :: 0 <= t < newBasis.Length ==> Value(newBasis[t]) == PartialProduct(p, c, k, t)
      modifies newBasis
    {
      ghost var prev := newBasis[..];
      // coefficient k + 1 gains basis[k]: the x part of the factor
      var high := Add(newBasis[k + 1], basis[k]);
      assert Value(high) == PartialProduct(p, c, k, k + 1) + p[k];
      newBasis[k + 1] := high;
      // coefficient k gains basis[k] * (-xj): the constant part of the factor
      var low := Add(newBasis[k], Multiply(basis[k], negX));
      assert Value(low) == PartialProduct(p, c, k, k) + p[k] * -c;
      newBasis[k] := low;
      forall t | 0 <= t < newBasis.Length
        ensures Value(newBasis[t]) == PartialProduct(p, c, k + 1, t)
      {
        PartialProductStep(p, c, k, t);
        if t != k && t != k + 1 {
          assert newBasis[t] == prev[t];
        }
      }
      k := k + 1;
    }
    forall t | 0 <= t < newBasis.Length
      ensures Values(newBasis[..])[t] == MulLinear(p, c)[t]
    {
      MulLinearAt(p, c, t);
    }
  }

  /** The accumulation loop: coeffs[k] += basis[k] * scale for every position k. */
  method AddScaled(coeffs: array<Fraction>, basis: array<Fraction>, scale: Fraction)
    requires coeffs != basis && coeffs.Length == basis.Length
    requires AllValid(coeffs[..]) && AllValid(basis[..]) && Valid(scale)
    modifies coeffs
    ensures forall k :: 0 <= k < coeffs.Length ==> Reduced(coeffs[k])
    ensures AllValid(coeffs[..])
    ensures Values(coeffs[..]) == Plus(old(Values(coeffs[..])), Scale(Value(scale), Values(basis[..])))
  {
    hide Add, Multiply, Simplify, Value;
    ghost var before := coeffs[..];
    ghost var target := Plus(Values(before), Scale(Value(scale), Values(basis[..])));
    var k := 0;
    while k < basis.Length
      invariant 0 <= k <= coeffs.Length
      invariant forall t :: 0 <= t < k ==> Reduced(coeffs[t]) && Value(coeffs[t]) == target[t]
      invariant forall t :: k <= t < coeffs.Length ==> coeffs[t] == before[t]
      modifies coeffs
    {
      AddProduct(coeffs[k], basis[k], scale);
      var sum := Add(coeffs[k], Multiply(basis[k], scale));
      assert Value(sum) == target[k];
      coeffs[k] := sum;
      k := k + 1;
    }
    assert Values(coeffs[..]) == target;
  }

  /** One step of the accumulation: a + b * c, as a reduced fraction. */
  lemma AddProduct(a: Fraction, b: Fraction, c: Fraction)
    requires Valid(a) && Valid(b) && Valid(c)
    ensures Reduced(Add(a, Multiply(b, c)))
    ensures Value(Add(a, Multiply(b, c))) == Value(a) + Value(b) * Value(c)
  {
  }

  /**
   * The numerator coefficients of the i-th Lagrange basis polynomial, the
   * product of (x - x_j) over every j other than i, and its denominator,
   * the product of (x_i - x_j) over the same j.
   */
  method BasisPolynomial(x: seq<int>, i: nat) returns (basis: array<Fraction>, denom: Fraction)
    requires i < |x|
    ensures fresh(basis)
    ensures AllValid(basis[..]) && Values(basis[..]) == Basis(x, i, |x|)
    ensures denom == Fraction(DenomProduct(x, i, |x|), 1)
  {
    hide Add, Multiply, Simplify, Basis, MulLinear, DenomProduct, Plus, Scale;
    var n := |x|;
    // the empty product: the constant polynomial 1 over denominator 1
    basis := new Fraction[1](_ => Fraction(1, 1));
    denom := Fraction(1, 1);
    IntegerReduced(1);
    SpecStart(x, [], i);
    assert Values(basis[..]) == [1.0];
    var j := 0;
    while j < n
      invariant 0 <= j <= n
      invariant fresh(basis)
      invariant AllValid(basis[..])
      invariant Values(basis[..]) == Basis(x, i, j)
      invariant denom == Fraction(DenomProduct(x, i, j), 1)
    {
      BasisStep(x, i, j);
      DenomStep(x, i, j);
      if j != i {
        // the basis takes the factor (x - x[j]) ...
        basis := MultiplyLinear(basis, x[j]);
        // ... and the denominator the integer factor x[i] - x[j]
        MultiplyIntegers(denom.num, x[i] - x[j]);
        denom := Multiply(denom, Make(x[i] - x[j], 1).value);
      }
      j := j + 1;
    }
  }

  /**
   * The coefficients of the polynomial through the points (x[i], y[i]),
   * as a reduced fraction per degree, or the exception the computation
   * raises: DivideByZero when some x value repeats (its denominator product
   * is 0), IndexOutOfBounds when y runs out before a repeated x is met.
   */
  method BuildPolynomial(x: seq<int>, y: seq<int>) returns (r: Result<seq<Fraction>>)
    ensures r.Ok? <==> |x| <= |y| && Distinct(x)
    ensures r == Err(DivideByZero) <==> exists i :: 0 <= i < |x| && i < |y| && HasTwin(x, i)
    ensures r == Err(IndexOutOfBounds) <==> |y| < |x| && forall i :: 0 <= i < |y| ==> !HasTwin(x, i)
    ensures r.Ok? ==> |r.value| == |x| && forall k :: 0 <= k < |x| ==> Reduced(r.value[k])
    ensures r.Ok? ==> AllValid(r.value)
    ensures r.Ok? ==> forall i :: 0 <= i < |x| ==> DenomProduct(x, i, |x|) != 0
    ensures r.Ok? ==> Values(r.value) == LagrangeSum(x, y, |x|)
    ensures r.Ok? ==> forall k :: 0 <= k < |x| ==> Eval(Values(r.value), x[k] as real) == y[k] as real
  {
    hide Add, Multiply, Simplify, Basis, MulLinear, DenomProduct, LagrangeSum, Plus, Scale;
    var n := |x|;
    var coeffs := new Fraction[n](_ => Fraction(0, 1));
    IntegerReduced(0);
    SpecStart(x, y, 0);
    assert Values(coeffs[..]) == Zeros(n);
    var i := 0;
    while i < n
      invariant 0 <= i <= n && i <= |y|
      invariant forall i' :: 0 <= i' < i ==> !HasTwin(x, i') && DenomProduct(x, i', n) != 0
      invariant forall k :: 0 <= k < n ==> Reduced(coeffs[k])
      invariant Values(coeffs[..]) == LagrangeSum(x, y, i)
      modifies coeffs
    {
      var basis, denom := BasisPolynomial(x, i);
      BasisShape(x, i, n);
      DenomZeroIffTwin(x, i);
      // y[i] is read before the reciprocal of the denominator is built, so a
      // short y fails first
      if i >= |y| {
        return Err(IndexOutOfBounds);
      }
      var reciprocal := Make(denom.den, denom.num);
      if reciprocal.Err? {
        return Err(reciprocal.error);
      }
      var scale := Multiply(Make(y[i], 1).value, reciprocal.value);
      ghost var s := Value(scale);
      ScaleValue(y[i], denom.num);
      LagrangeSumStep(x, y, i);
      ghost var sum := Values(coeffs[..]);
      ghost var term := Values(basis[..]);
      AddScaled(coeffs, basis, scale);
      assert Values(coeffs[..]) == Plus(sum, Scale(s, term));
      assert sum == LagrangeSum(x, y, i) && term == Basis(x, i, n);
      assert s == y[i] as real / DenomProduct(x, i, n) as real;
      assert Values(coeffs[..]) == LagrangeSum(x, y, i + 1);
      i := i + 1;
    }
    DistinctIffNoTwin(x);
    Interpolates(x, y);
    return Ok(coeffs[..]);
  }
}
