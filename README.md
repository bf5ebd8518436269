# Exact-rational Lagrange interpolation

This project is a Dafny model of the computational core of
`LagrangeInterpolation.java`. That core has two parts.

- **The `Fraction` helper class.** It holds an immutable pair of unbounded
  integers.
  - The constructor rejects a zero denominator and moves the sign into the
    numerator.
  - `simplify` divides both parts by their gcd.
  - `add` and `multiply` cross-multiply and then simplify.
  - `toString` renders `n` when the denominator is 1, and `n/d` otherwise.
- **The static method `buildPolynomial`.** It computes the coefficients of
  the interpolating polynomial in coefficient form. For each sample i it
  works in three steps.
  1. It builds the numerator L_i, the product of (x - x_j) over j != i, by
     convolving a coefficient array with one linear factor at a time.
  2. It multiplies the denominator, the product of (x_i - x_j) over the same
     j.
  3. It scales L_i by y_i / denominator and adds it into the result array,
     position by position.

The model is split into modules:

| module | file | contents |
|---|---|---|
| `Exceptions` | `exceptions.dfy` | the two runtime exceptions (`DivideByZero`, `IndexOutOfBounds`) and a `Result` type |
| `Decimal` | `decimal.dfy` | decimal rendering of integers, which `BigInteger.toString` performs, with a parser for the round trip |
| `Gcds` | `gcd.dfy` | Euclid's gcd on natural numbers, standing in for `BigInteger.gcd`, with its divisibility lemmas |
| `Fractions` | `fraction.dfy` | the `Fraction` datatype and its operations |
| `Polynomials` | `polynomial.dfy` | real-coefficient polynomials: evaluation, sum, scaling, multiplication by (x - c) |
| `Lagrange` | `lagrange.dfy` | `BuildPolynomial` and its specification |

Fractions are Dafny datatypes: the Java class never changes its fields
after construction. The meaning of a fraction is its exact rational value,
`Value(f) == num as real / den as real`. Dafny's `real` is exact, not
floating point.

`buildPolynomial` is modelled as imperative code over arrays, with the same
loops:

- the `coeffs` array, filled with 0/1 and then updated in place;
- a fresh `newBasis` array for each linear factor, filled slot by slot;
- `basis` and `denom`, reassigned in the inner loop.

Each loop is proved against ghost specification functions on real
coefficients:

- `Basis(x, i, m)`: the numerator after the factors for j < m;
- `DenomProduct(x, i, m)`: the denominator after the same factors;
- `LagrangeSum(x, y, m)`: the sum of the first m scaled bases.

Lemmas then prove that the final sum takes the value y_k at every node x_k.

The convolution loop and the accumulation loop are separate methods,
`MultiplyLinear` and `AddScaled`. The loop over j that builds one basis is
also separate, `BasisPolynomial`. Their statements and order of evaluation
follow lines 74-101 of the source, with one difference. `MultiplyLinear`
builds the fraction -x_j over 1 once, before its loop, where line 89 builds
it on every pass. The behaviour is the same, because the constructor cannot
fail with denominator 1.

### Error behaviour

The Java code fails with a runtime exception. The model returns
`Result.Err` in those cases instead.

- **Duplicate x value.** If x_i repeats, the denominator for sample i is 0.
  The reciprocal `new Fraction(denom.den, denom.num)` on line 98 then throws
  `ArithmeticException`. The model gives `Err(DivideByZero)`.
- **y shorter than x.** `y.get(i)` on line 98 is evaluated before that
  reciprocal is constructed. If y has fewer entries than x, and none of the
  first |y| samples has a duplicate x, the code throws
  `IndexOutOfBoundsException` at i = |y|. The model gives
  `Err(IndexOutOfBounds)`.
- **Extra y entries.** Entries of y beyond |x| are ignored.
- **No points.** With no points the result is the empty array.

### Rendering of zero

A zero coefficient is always `0/1`, because `simplify` and therefore every
`add` and `multiply` result is in lowest terms. `ToString` of a fraction
built directly by the constructor follows the code. For example,
`new Fraction(0, 5)` renders as `0/5`, not `0`, because only a denominator
of exactly 1 drops the `/`.

## Model

| member | source | states |
|---|---|---|
| `Fractions.Make` | LagrangeInterpolation.java:111-119 | fails with DivideByZero exactly when den is 0; otherwise the denominator is positive, the magnitudes are kept, and the value is num/den |
| `Fractions.Simplify` | LagrangeInterpolation.java:131-134 | the result is in lowest terms with the same value; a zero numerator gives 0/1; a reduced fraction is returned unchanged (idempotence) |
| `Fractions.ReducedUnique` | LagrangeInterpolation.java:131-134 | two lowest-terms fractions with equal values are the same pair, so lowest terms are canonical |
| `Fractions.SimplifyCanonical` | LagrangeInterpolation.java:131-134 | fractions with equal values simplify to the same pair |
| `Fractions.SimplifyInteger` | LagrangeInterpolation.java:131-134 | a fraction whose value is the integer n simplifies to n/1 |
| `Fractions.Add` | LagrangeInterpolation.java:121-125 | the sum is in lowest terms and its value is the exact sum of the operands' values |
| `Fractions.AddCommutative` | LagrangeInterpolation.java:121-125 | add is commutative, and adding 0/1 is simplification |
| `Fractions.AddAssociative` | LagrangeInterpolation.java:121-125 | add is associative on constructed fractions |
| `Fractions.Multiply` | LagrangeInterpolation.java:127-129 | the product is in lowest terms and its value is the exact product of the operands' values |
| `Fractions.MultiplyCommutative` | LagrangeInterpolation.java:127-129 | multiply is commutative, and multiplying by 1/1 is simplification |
| `Fractions.MultiplyAssociative` | LagrangeInterpolation.java:127-129 | multiply is associative on constructed fractions |
| `Fractions.MultiplyIntegers` | LagrangeInterpolation.java:94 | multiplying the integer fractions a/1 and b/1 gives (a*b)/1, so `denom` stays an integer over 1 |
| `Fractions.IntegerReduced` | LagrangeInterpolation.java:70-76 | the integer fractions 0/1 and 1/1 used as initial values are in lowest terms with the integer's value |
| `Fractions.ToString` | LagrangeInterpolation.java:137-139 | the rendering contains '/' exactly when the denominator is not 1; with denominator 1 it reads back as the numerator |
| `Fractions.ToStringRoundTrip` | LagrangeInterpolation.java:137-139 | reading the rendering of a constructed fraction back gives the same numerator and denominator |
| `Fractions.ToStringInjective` | LagrangeInterpolation.java:137-139 | distinct constructed fractions render differently |
| `Decimal.IntToString` | LagrangeInterpolation.java:138 | the rendering of an integer is a '-' exactly for a negative number, followed by decimal digits only, with no leading zero (zero renders as "0"), and contains no '/' |
| `Decimal.IntRoundTrip` | LagrangeInterpolation.java:138 | the decimal rendering of an integer reads back as that integer |
| `Gcds.Gcd` | LagrangeInterpolation.java:132 | the gcd is positive exactly when one of its arguments is |
| `Gcds.GcdDivides` | LagrangeInterpolation.java:132-133 | the gcd divides both arguments, so the divisions in simplify are exact |
| `Gcds.GcdGreatest` | LagrangeInterpolation.java:132 | every common divisor divides the gcd |
| `Gcds.GcdOfQuotients` | LagrangeInterpolation.java:133 | after dividing by the gcd, the quotients are coprime |
| `Polynomials.MulLinearAt` | LagrangeInterpolation.java:85-90 | coefficient k of p*(x - c) is p[k-1] (the "term * x" part) plus -c*p[k] (the "term * (-xj)" part) |
| `Polynomials.EvalMulLinear` | LagrangeInterpolation.java:81-91 | the product coefficients evaluate at t to p(t)*(t - c) |
| `Polynomials.EvalPlus` | LagrangeInterpolation.java:100 | the pointwise sum of coefficient arrays evaluates to the sum of the values |
| `Polynomials.EvalScale` | LagrangeInterpolation.java:97-100 | scaling every coefficient by c scales the value by c |
| `Lagrange.MultiplyLinear` | LagrangeInterpolation.java:81-91 | the fresh array is one longer than basis, every entry is a valid fraction, and its values are the coefficients of basis*(x - xj) |
| `Lagrange.PartialProductStep` | LagrangeInterpolation.java:85-90 | one pass of the convolution loop adds p[k] to slot k+1 and -c*p[k] to slot k, and leaves every other slot unchanged |
| `Lagrange.BasisPolynomial` | LagrangeInterpolation.java:74-95 | after the loop over j, basis holds the coefficients of the product of (x - x_j) over j != i, and denom is the product of (x_i - x_j) over 1 |
| `Lagrange.BasisShape` | LagrangeInterpolation.java:74-91 | after all factors the basis has exactly one coefficient per sample, and its leading coefficient is 1 |
| `Lagrange.BasisAtOwnNode` | LagrangeInterpolation.java:76-94 | the basis evaluated at x_i equals the denominator product |
| `Lagrange.BasisAtOtherNode` | LagrangeInterpolation.java:82-91 | the basis vanishes at every other node x_k already multiplied in |
| `Lagrange.DenomZero` | LagrangeInterpolation.java:94 | the partial denominator product is 0 exactly when an earlier sample repeats x_i |
| `Lagrange.DenomZeroIffTwin` | LagrangeInterpolation.java:94-98 | the full denominator for sample i, whose reciprocal line 98 constructs, is 0 exactly when another sample has the same x |
| `Lagrange.ScaleValue` | LagrangeInterpolation.java:98 | for a nonzero integer denominator d, the reciprocal built from 1 over d is a valid fraction, and y/1 multiplied by it has the value y/d, whatever the sign of d |
| `Lagrange.AddScaled` | LagrangeInterpolation.java:99-101 | coeffs becomes the pointwise sum of its old values and scale times the basis values, all in lowest terms |
| `Lagrange.AddProduct` | LagrangeInterpolation.java:100 | one accumulation step a.add(b.multiply(c)) is in lowest terms and has the value a + b*c |
| `Lagrange.LagrangeSumStep` | LagrangeInterpolation.java:97-101 | one pass of the outer loop adds (y_i / denominator_i) times L_i to the partial sum |
| `Lagrange.EvalLagrangeSum` | LagrangeInterpolation.java:72-101 | after m passes the partial sum is y_k at a node already added and 0 at every other node |
| `Lagrange.Interpolates` | LagrangeInterpolation.java:66-103 | for distinct x values, every denominator is nonzero and the full sum takes the value y_k at every x_k |
| `Lagrange.DistinctIffNoTwin` | LagrangeInterpolation.java:98 | the x values are distinct exactly when no sample has a twin |
| `Lagrange.BuildPolynomial` | LagrangeInterpolation.java:67-104 | the result is Ok exactly when y covers x and the x values are distinct. DivideByZero exactly when a duplicate x is met while y still has entries. IndexOutOfBounds exactly when y runs out first. On success: one lowest-terms fraction per sample, with values equal to the Lagrange sum and taking the value y_k at every x_k |

## Left out

- `main` (lines 9-64) is left out. It covers reading `input.json`, JSON parsing, base-N decoding of y values, the unused `n`/`k` keys, and console printing. This is I/O and library code. The model takes the already decoded integer points as two sequences.
- `BigInteger` is modelled by Dafny's unbounded `int`. `BigInteger.gcd` is modelled by `Gcds.Gcd` on magnitudes. `BigInteger.divide` truncates and Dafny's `/` is Euclidean, but the two agree here because simplify divides exactly.
- `Lagrange.BuildPolynomial` returns the contents of the coefficient array (`coeffs[..]`), not the array object.
- `Arrays.fill` shares one `Fraction` object across slots. This aliasing has no effect, because fractions are immutable, so the model uses values.
- `ArithmeticException` and `IndexOutOfBoundsException` are modelled as `Err` results rather than thrown exceptions.
- `Lagrange.BuildPolynomial` does not state that the interpolant is unique, that is, that any polynomial with at most n coefficients through the n points has these coefficients. It also does not state that the result is unchanged when the points are permuted, or that its degree is below n beyond having n coefficients. Only interpolation at the nodes and the coefficient formula are proved. Mathematically, n coefficients plus interpolation at n distinct nodes already determine the result.
