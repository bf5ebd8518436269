/**
 * Greatest common divisors over unbounded integers. This replaces the
 * library `gcd` on arbitrary-precision integers that the fraction type
 * relies on: like it, `Gcd` works on absolute values and `Gcd(a, 0) == a`.
 */
module Gcds {

  function Abs(n: int): (r: nat)
    ensures r == n || r == -n
  {
    if n < 0 then -n else n
  }

  /** Euclid's algorithm on natural numbers; positive unless both arguments are 0. */
  function Gcd(a: nat, b: nat): (r: nat)
    ensures r > 0 <==> a > 0 || b > 0
    decreases b
  {
    if b == 0 then a else Gcd(b, a % b)
  }

  /** Division with remainder is unique: the quotient and remainder of x by m are q and r. */
  lemma DivModUnique(x: int, m: int, q: int, r: int)
    requires m > 0 && 0 <= r < m && x == q * m + r
    ensures x / m == q && x % m == r
  {
    var q', r' := x / m, x % m;
    assert x == q' * m + r';
    assert (q - q') * m == r' - r;
    if q - q' >= 1 {
      MulMonotone(q - q', m);
    } else if q - q' <= -1 {
      MulMonotone(q' - q, m);
    }
  }

  lemma MulMonotone(k: int, m: int)
    requires k >= 1 && m > 0
    ensures k * m >= m
  {
    assert k * m == (k - 1) * m + m;
  }

  /** A multiple of m leaves no remainder. */
  lemma MultipleMod(k: int, m: int)
    requires m > 0
    ensures (k * m) % m == 0 && (k * m) / m == k
  {
    DivModUnique(k * m, m, k, 0);
  }

  /** A number q * b + r is divisible by every common divisor of b and r. */
  lemma CombinationMod(a: int, q: int, b: int, r: int, g: int)
    requires g > 0 && a == q * b + r && b % g == 0 && r % g == 0
    ensures a % g == 0
  {
    var s, t := b / g, r / g;
    assert b == s * g && r == t * g;
    assert a == (q * s + t) * g;
    MultipleMod(q * s + t, g);
  }

  /** The gcd divides both of its arguments. */
  lemma {:induction false} GcdDivides(a: nat, b: nat)
    requires a > 0 || b > 0
    ensures a % Gcd(a, b) == 0 && b % Gcd(a, b) == 0
    decreases b
  {
    if b == 0 {
      MultipleMod(1, a);
    } else {
      GcdDivides(b, a % b);
      CombinationMod(a, a / b, b, a % b, Gcd(a, b));
    }
  }

  /** Every common divisor of a and b divides their gcd. */
  lemma {:induction false} GcdGreatest(a: nat, b: nat, d: int)
    requires d > 0 && a % d == 0 && b % d == 0
    ensures Gcd(a, b) % d == 0
    decreases b
  {
    if b != 0 {
      CombinationMod(a % b, -(a / b), b, a, d);
      GcdGreatest(b, a % b, d);
    }
  }

  /** Scaling both arguments scales the gcd. */
  lemma {:induction false} GcdScale(a: nat, b: nat, k: nat)
    requires k > 0
    ensures Gcd(a * k, b * k) == Gcd(a, b) * k
    decreases b
  {
    if b != 0 {
      assert a == (a / b) * b + a % b;
      assert a * k == (a / b) * (b * k) + (a % b) * k;
      assert 0 <= (a % b) * k < b * k by {
        MulMonotone(b - a % b, k);
      }
      DivModUnique(a * k, b * k, a / b, (a % b) * k);
      GcdScale(b, a % b, k);
    }
  }

  /** A positive multiple of d is at least d. */
  lemma DivisorBound(d: int, n: int)
    requires d > 0 && n > 0 && n % d == 0
    ensures d <= n
  {
    assert n == (n / d) * d;
    MulMonotone(n / d, d);
  }

  /** Dividing out the gcd leaves two coprime numbers. */
  lemma {:induction false} GcdOfQuotients(a: nat, b: nat)
    requires b > 0
    ensures Gcd(a / Gcd(a, b), b / Gcd(a, b)) == 1
  {
    var g := Gcd(a, b);
    GcdDivides(a, b);
    var a', b' := a / g, b / g;
    assert a == a' * g && b == b' * g;
    GcdScale(a', b', g);
    assert Gcd(a', b') * g == 1 * g;
  }

  /** Euclid's lemma: a divisor of m * n coprime to m divides n. */
  lemma {:induction false} CoprimeDivides(d: nat, m: nat, n: nat)
    requires d > 0 && n > 0 && Gcd(m, d) == 1 && (m * n) % d == 0
    ensures n % d == 0
  {
    GcdScale(m, d, n);
    var mn, dn := m * n, d * n;
    MultipleMod(n, d);
    assert dn % d == 0;
    GcdGreatest(mn, dn, d);
  }
}
