/**
 * The exact fraction type of LagrangeInterpolation.java: an immutable pair
 * of unbounded integers. Construction rejects a zero denominator and moves
 * the sign into the numerator; `Simplify` produces lowest terms; `Add` and
 * `Multiply` cross-multiply and then simplify; `ToString` renders the value.
 *
 * The meaning of a fraction is its exact rational value `Value(f)`, a Dafny
 * `real` (exact, not floating point).
 */
module Fractions {
  import opened Gcds
  import opened Exceptions
  import opened Decimal

  datatype Fraction = Fraction(num: int, den: int)

  /** What every constructed fraction satisfies: the sign sits in the numerator. */
  predicate Valid(f: Fraction) {
    f.den > 0
  }

  /** Lowest terms: numerator and denominator share no factor beyond 1. */
  predicate Reduced(f: Fraction) {
    f.den > 0 && Gcd(Abs(f.num), f.den) == 1
  }

  ghost function Value(f: Fraction): real
    requires f.den != 0
  {
    f.num as real / f.den as real
  }

  /**
   * The constructor: fails on a zero denominator; otherwise keeps the
   * magnitudes (it does not reduce) and makes the denominator positive.
   */
  function Make(num: int, den: int): (r: Result<Fraction>)
    ensures r.Err? <==> den == 0
    ensures r.Err? ==> r.error == DivideByZero
    ensures r.Ok? ==> Valid(r.value) && Value(r.value) == num as real / den as real
    ensures r.Ok? ==> Abs(r.value.num) == Abs(num) && r.value.den == Abs(den)
  {
    if den == 0 then Err(DivideByZero)
    else if den < 0 then Ok(Fraction(-num, -den))
    else Ok(Fraction(num, den))
  }

  /** Exact division by a divisor of the magnitude keeps the sign. */
  lemma ExactQuotient(n: int, g: int)
    requires g > 0 && Abs(n) % g == 0
    ensures n == (n / g) * g && Abs(n / g) == Abs(n) / g
  {
    var q := Abs(n) / g;
    assert Abs(n) == q * g;
    if n < 0 {
      DivModUnique(n, g, -q, 0);
    } else {
      DivModUnique(n, g, q, 0);
    }
  }

  lemma PositiveFactor(q: int, g: int, d: int)
    requires g > 0 && d > 0 && d == q * g
    ensures q > 0
  {
  }

  /** Dividing numerator and denominator by the gcd gives a reduced pair of the same value. */
  lemma SimplifyFacts(n: int, d: int)
    requires d > 0
    ensures Gcd(Abs(n), d) > 0
    ensures d / Gcd(Abs(n), d) > 0
    ensures Gcd(Abs(n / Gcd(Abs(n), d)), d / Gcd(Abs(n), d)) == 1
    ensures (n / Gcd(Abs(n), d)) as real / (d / Gcd(Abs(n), d)) as real == n as real / d as real
  {
    var g := Gcd(Abs(n), d);
    GcdDivides(Abs(n), d);
    var n', d' := n / g, d / g;
    ExactQuotient(n, g);
    ExactQuotient(d, g);
    PositiveFactor(d', g, d);
    GcdOfQuotients(Abs(n), d);
    CancelFactor(n', d', g);
  }

  /** A zero numerator has the denominator as its gcd, so it simplifies to 0/1. */
  lemma SimplifyZeroFacts(n: int, d: int)
    requires d > 0
    ensures n == 0 ==> n / Gcd(Abs(n), d) == 0 && d / Gcd(Abs(n), d) == 1
  {
    if n == 0 {
      assert Gcd(0, d) == Gcd(d, 0) == d;
    }
  }

  /** Dividing numerator and denominator by the same positive factor keeps the value. */
  lemma CancelFactor(n: int, d: int, g: int)
    requires d > 0 && g > 0
    ensures ((n * g) as real) / ((d * g) as real) == n as real / d as real
  {
  }

  /**
   * Divides both parts by the gcd of their magnitudes, giving lowest terms
   * with the same value. A zero numerator becomes 0/1, and a fraction that
   * is already reduced is returned unchanged (so simplifying twice is the
   * same as simplifying once).
   */
  function Simplify(f: Fraction): (r: Fraction)
    requires Valid(f)
    ensures Reduced(r) && Value(r) == Value(f)
    ensures Reduced(f) ==> r == f
    ensures f.num == 0 ==> r == Fraction(0, 1)
  {
    SimplifyFacts(f.num, f.den);
    SimplifyZeroFacts(f.num, f.den);
    var g := Gcd(Abs(f.num), f.den);
    Make(f.num / g, f.den / g).value
  }

  /** Two reduced fractions with the same value are the same pair. */
  lemma ReducedUnique(a: Fraction, b: Fraction)
    requires Reduced(a) && Reduced(b) && Value(a) == Value(b)
    ensures a == b
  {
    CrossMultiply(a, b);
    DividesDenominator(a, b);
    DividesDenominator(b, a);
    DivisorBound(a.den, b.den);
    DivisorBound(b.den, a.den);
    CancelFactorInt(a.num, b.num, a.den);
  }

  lemma CancelFactorInt(x: int, y: int, d: int)
    requires d > 0 && x * d == y * d
    ensures x == y
  {
    assert (x - y) * d == 0;
  }

  /** Equal values means equal cross products. */
  lemma CrossMultiply(a: Fraction, b: Fraction)
    requires Valid(a) && Valid(b)
    ensures Value(a) == Value(b) <==> a.num * b.den == b.num * a.den
  {
  }

  lemma DividesDenominator(a: Fraction, b: Fraction)
    requires Reduced(a) && Valid(b) && a.num * b.den == b.num * a.den
    ensures b.den % a.den == 0
  {
    var m := Abs(a.num);
    assert m * b.den == Abs(b.num) * a.den;
    MultipleMod(Abs(b.num), a.den);
    CoprimeDivides(a.den, m, b.den);
  }

  /** Fractions with equal values simplify to the same pair. */
  lemma SimplifyCanonical(a: Fraction, b: Fraction)
    requires Valid(a) && Valid(b) && Value(a) == Value(b)
    ensures Simplify(a) == Simplify(b)
  {
    ReducedUnique(Simplify(a), Simplify(b));
  }

  /** An integer-valued fraction simplifies to that integer over 1. */
  lemma SimplifyInteger(f: Fraction, n: int)
    requires Valid(f) && Value(f) == n as real
    ensures Simplify(f) == Fraction(n, 1)
  {
    assert Gcd(Abs(n), 1) == 1;
    ReducedUnique(Simplify(f), Fraction(n, 1));
  }

  /** Cross-multiplied sum in lowest terms: the exact sum of the two values. */
  function Add(a: Fraction, b: Fraction): (r: Fraction)
    requires Valid(a) && Valid(b)
    ensures Reduced(r) && Value(r) == Value(a) + Value(b)
  {
    SumValue(a, b);
    Simplify(Make(a.num * b.den + b.num * a.den, a.den * b.den).value)
  }

  lemma SumValue(a: Fraction, b: Fraction)
    requires Valid(a) && Valid(b)
    ensures a.den * b.den > 0
    ensures (a.num * b.den + b.num * a.den) as real / (a.den * b.den) as real == Value(a) + Value(b)
  {
  }

  lemma ProductValue(a: Fraction, b: Fraction)
    requires Valid(a) && Valid(b)
    ensures a.den * b.den > 0
    ensures (a.num * b.num) as real / (a.den * b.den) as real == Value(a) * Value(b)
  {
  }

  /** Product in lowest terms: the exact product of the two values. */
  function Multiply(a: Fraction, b: Fraction): (r: Fraction)
    requires Valid(a) && Valid(b)
    ensures Reduced(r) && Value(r) == Value(a) * Value(b)
  {
    ProductValue(a, b);
    Simplify(Make(a.num * b.num, a.den * b.den).value)
  }

  /** Addition is commutative and 0/1 is its identity up to simplification. */
  lemma AddCommutative(a: Fraction, b: Fraction)
    requires Valid(a) && Valid(b)
    ensures Add(a, b) == Add(b, a)
    ensures Add(a, Fraction(0, 1)) == Simplify(a)
  {
    ReducedUnique(Add(a, b), Add(b, a));
    ReducedUnique(Add(a, Fraction(0, 1)), Simplify(a));
  }

  lemma AddAssociative(a: Fraction, b: Fraction, c: Fraction)
    requires Valid(a) && Valid(b) && Valid(c)
    ensures Add(Add(a, b), c) == Add(a, Add(b, c))
  {
    ReducedUnique(Add(Add(a, b), c), Add(a, Add(b, c)));
  }

  /** Multiplication is commutative and 1/1 is its identity up to simplification. */
  lemma MultiplyCommutative(a: Fraction, b: Fraction)
    requires Valid(a) && Valid(b)
    ensures Multiply(a, b) == Multiply(b, a)
    ensures Multiply(a, Fraction(1, 1)) == Simplify(a)
  {
    ReducedUnique(Multiply(a, b), Multiply(b, a));
    ReducedUnique(Multiply(a, Fraction(1, 1)), Simplify(a));
  }

  lemma RealAssociative(x: real, y: real, z: real)
    ensures (x * y) * z == x * (y * z)
  {
  }

  lemma MultiplyAssociative(a: Fraction, b: Fraction, c: Fraction)
    requires Valid(a) && Valid(b) && Valid(c)
    ensures Multiply(Multiply(a, b), c) == Multiply(a, Multiply(b, c))
  {
    hide Multiply;
    var ab, bc := Multiply(a, b), Multiply(b, c);
    var left, right := Multiply(ab, c), Multiply(a, bc);
    RealAssociative(Value(a), Value(b), Value(c));
    assert Value(left) == Value(right);
    ReducedUnique(left, right);
  }

  /** An integer over 1 is in lowest terms. */
  lemma IntegerReduced(n: int)
    ensures Reduced(Fraction(n, 1)) && Value(Fraction(n, 1)) == n as real
  {
    assert Gcd(Abs(n), 1) == Gcd(1, 0);
  }

  /** The product of two integers over 1 is their integer product over 1. */
  lemma MultiplyIntegers(a: int, b: int)
    ensures Multiply(Fraction(a, 1), Fraction(b, 1)) == Fraction(a * b, 1)
  {
    SimplifyInteger(Fraction(a * b, 1), a * b);
  }

  /**
   * Renders the bare numerator when the denominator is 1 and
   * "numerator/denominator" otherwise.
   */
  function ToString(f: Fraction): (s: string)
    ensures '/' in s <==> f.den != 1
    ensures f.den == 1 ==> ParseInt(s) == f.num
  {
    IntRoundTrip(f.num);
    if f.den == 1 then IntToString(f.num) else IntToString(f.num) + "/" + IntToString(f.den)
  }

  /** In a + "/" + b with no '/' in a, the first '/' is at position |a|. */
  lemma FirstSlash(a: string, b: string)
    requires '/' !in a
    ensures (a + "/" + b)[|a|] == '/'
    ensures forall k :: 0 <= k < |a| ==> (a + "/" + b)[k] != '/'
  {
    forall k | 0 <= k < |a| ensures (a + "/" + b)[k] != '/' {
      assert (a + "/" + b)[k] == a[k];
    }
  }

  /** The position of the first '/' in s, or |s| when there is none. */
  function SlashIndex(s: string): (i: nat)
    ensures i <= |s|
    ensures i < |s| ==> s[i] == '/'
    ensures forall k :: 0 <= k < i ==> s[k] != '/'
  {
    if |s| == 0 then 0
    else if s[0] == '/' then 0
    else 1 + SlashIndex(s[1..])
  }

  /** Reads a rendered fraction back: "n" as n/1, "n/d" as n/d. */
  function ParseFraction(s: string): Fraction
  {
    var i := SlashIndex(s);
    if i == |s| then Fraction(ParseInt(s), 1)
    else Fraction(ParseInt(s[..i]), ParseInt(s[i + 1..]))
  }

  /** Rendering a constructed fraction and reading it back gives the same pair. */
  lemma ToStringRoundTrip(f: Fraction)
    requires Valid(f)
    ensures ParseFraction(ToString(f)) == f
  {
    var s := ToString(f);
    if f.den == 1 {
      assert SlashIndex(s) == |s|;
    } else {
      var a, b := IntToString(f.num), IntToString(f.den);
      FirstSlash(a, b);
      assert SlashIndex(s) == |a|;
      assert s[..|a|] == a && s[|a| + 1..] == b;
      IntRoundTrip(f.num);
      IntRoundTrip(f.den);
    }
  }

  /** Rendering loses nothing: distinct constructed fractions render differently. */
  lemma ToStringInjective(a: Fraction, b: Fraction)
    requires Valid(a) && Valid(b) && ToString(a) == ToString(b)
    ensures a == b
  {
    ToStringRoundTrip(a);
    ToStringRoundTrip(b);
  }
}
