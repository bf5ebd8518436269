/**
 * Dense polynomials with exact rational (Dafny `real`) coefficients. A
 * polynomial is the sequence of its coefficients, index k holding the
 * coefficient of x^k. These are the specification against which the
 * fraction arrays of the interpolation code are proved.
 */
module Polynomials {

  /** The value of the polynomial at t, by Horner's rule. */
  ghost function Eval(p: seq<real>, t: real): real
  {
    if |p| == 0 then 0.0 else p[0] + t * Eval(p[1..], t)
  }

  ghost function Zeros(n: nat): (p: seq<real>)
    ensures |p| == n && forall k :: 0 <= k < n ==> p[k] == 0.0
  {
    seq(n, k => 0.0)
  }

  /** Coefficient-wise sum of two polynomials of the same length. */
  ghost function Plus(p: seq<real>, q: seq<real>): (r: seq<real>)
    requires |p| == |q|
    ensures |r| == |p| && forall k :: 0 <= k < |p| ==> r[k] == p[k] + q[k]
  {
    seq(|p|, k requires 0 <= k < |p| => p[k] + q[k])
  }

  /** Every coefficient multiplied by c. */
  ghost function Scale(c: real, p: seq<real>): (r: seq<real>)
    ensures |r| == |p| && forall k :: 0 <= k < |p| ==> r[k] == c * p[k]
  {
    seq(|p|, k requires 0 <= k < |p| => c * p[k])
  }

  /**
   * The product p * (x - c): one coefficient longer, each new coefficient
   * the old one a degree lower (the "times x" term) plus -c times the old
   * one at the same degree.
   */
  ghost function MulLinear(p: seq<real>, c: real): (r: seq<real>)
    ensures |r| == |p| + 1
  {
    Plus([0.0] + p, Scale(-c, p) + [0.0])
  }

  /** Coefficient k of p * (x - c). */
  lemma MulLinearAt(p: seq<real>, c: real, k: nat)
    requires k <= |p|
    ensures MulLinear(p, c)[k] == (if 0 < k then p[k - 1] else 0.0) + (if k < |p| then -c * p[k] else 0.0)
  {
  }

  lemma {:induction false} EvalZeros(n: nat, t: real)
    ensures Eval(Zeros(n), t) == 0.0
  {
    if n > 0 {
      assert Zeros(n)[1..] == Zeros(n - 1);
      EvalZeros(n - 1, t);
    }
  }

  lemma {:induction false} EvalPlus(p: seq<real>, q: seq<real>, t: real)
    requires |p| == |q|
    ensures Eval(Plus(p, q), t) == Eval(p, t) + Eval(q, t)
  {
    hide Plus;
    if |p| > 0 {
      assert Plus(p, q)[1..] == Plus(p[1..], q[1..]);
      EvalPlus(p[1..], q[1..], t);
    }
  }

  lemma {:induction false} EvalScale(c: real, p: seq<real>, t: real)
    ensures Eval(Scale(c, p), t) == c * Eval(p, t)
  {
    if |p| > 0 {
      forall k | 0 <= k < |p| - 1 ensures Scale(c, p)[1..][k] == Scale(c, p[1..])[k] {
        assert Scale(c, p)[1..][k] == Scale(c, p)[k + 1];
      }
      assert Scale(c, p)[1..] == Scale(c, p[1..]);
      EvalScale(c, p[1..], t);
    }
  }

  /** A trailing zero coefficient does not change the value. */
  lemma {:induction false} EvalPadded(p: seq<real>, t: real)
    ensures Eval(p + [0.0], t) == Eval(p, t)
  {
    if |p| > 0 {
      assert (p + [0.0])[1..] == p[1..] + [0.0];
      EvalPadded(p[1..], t);
    }
  }

  /** Multiplying the coefficients by (x - c) multiplies the value by (t - c). */
  lemma EvalMulLinear(p: seq<real>, c: real, t: real)
    ensures Eval(MulLinear(p, c), t) == Eval(p, t) * (t - c)
  {
    assert ([0.0] + p)[1..] == p;
    EvalPlus([0.0] + p, Scale(-c, p) + [0.0], t);
    EvalPadded(Scale(-c, p), t);
    EvalScale(-c, p, t);
  }
}
