/**
 * Univariate polynomials over the scalar field, as coefficient lists with the
 * constant term first (the layout of arkworks' `DensePolynomial::coeffs`).
 *
 * `Eval` is the specification every evaluation loop in the library is proved
 * against. The remaining operations (sum, scaling, multiplication by a linear
 * factor, division by `x - r`) exist to prove that a polynomial with fewer
 * coefficients than it has distinct roots is zero everywhere, which is what
 * makes Lagrange interpolation exact.
 */
module Polynomial {
  import opened Field

  type Poly = seq<Scalar>

  /** `p[0] + p[1]·x + ... + p[n-1]·x^(n-1)`, in Horner form. */
  function Eval(p: Poly, x: Scalar): Scalar
  {
    if |p| == 0 then 0.0 else p[0] + x * Eval(p[1..], x)
  }

  function Pow(x: Scalar, n: nat): Scalar
  {
    if n == 0 then 1.0 else Pow(x, n - 1) * x
  }

  /** The values of `p` at each point of `xs`, in order. */
  function EvalAll(p: Poly, xs: seq<Scalar>): (ys: seq<Scalar>)
    ensures |ys| == |xs|
    ensures forall k :: 0 <= k < |xs| ==> ys[k] == Eval(p, xs[k])
  {
    seq(|xs|, k requires 0 <= k < |xs| => Eval(p, xs[k]))
  }

  /** Evaluating a suffix: one Horner step. */
  lemma EvalSuffix(p: Poly, i: nat, x: Scalar)
    requires i < |p|
    ensures Eval(p[i..], x) == p[i] + x * Eval(p[i + 1..], x)
  {
    assert p[i..][1..] == p[i + 1..];
  }

  function Add(p: Poly, q: Poly): (r: Poly)
    ensures |r| == if |p| <= |q| then |q| else |p|
  {
    if |p| == 0 then q
    else if |q| == 0 then p
    else [p[0] + q[0]] + Add(p[1..], q[1..])
  }

  function Scale(c: Scalar, p: Poly): (r: Poly)
    ensures |r| == |p|
  {
    if |p| == 0 then [] else [c * p[0]] + Scale(c, p[1..])
  }

  /** `p(x)·(u + v·x)`, as u·p plus v·p shifted up one degree. */
  function MulLinear(p: Poly, u: Scalar, v: Scalar): (r: Poly)
    ensures |r| == |p| + 1
  {
    Add(Scale(u, p), [0.0] + Scale(v, p))
  }

  /** The quotient of `p` by `x - r` (synthetic division). */
  function Quotient(p: Poly, r: Scalar): (q: Poly)
    ensures |p| >= 1 ==> |q| == |p| - 1
    ensures |p| == 0 ==> |q| == 0
  {
    if |p| <= 1 then [] else [Eval(p[1..], r)] + Quotient(p[1..], r)
  }

  lemma {:induction false} EvalAdd(p: Poly, q: Poly, x: Scalar)
    ensures Eval(Add(p, q), x) == Eval(p, x) + Eval(q, x)
  {
    if |p| != 0 && |q| != 0 {
      var r := Add(p, q);
      assert r[1..] == Add(p[1..], q[1..]);
      EvalAdd(p[1..], q[1..], x);
    }
  }

  /** Adding polynomials of equal length adds them coefficient by coefficient. */
  lemma {:induction false} AddAt(p: Poly, q: Poly, k: nat)
    requires |p| == |q| && k < |p|
    ensures |Add(p, q)| == |p| && Add(p, q)[k] == p[k] + q[k]
  {
    if k != 0 {
      AddAt(p[1..], q[1..], k - 1);
    }
  }

  /** Scaling multiplies every coefficient. */
  lemma {:induction false} ScaleAt(c: Scalar, p: Poly, k: nat)
    requires k < |p|
    ensures Scale(c, p)[k] == c * p[k]
  {
    if k != 0 {
      ScaleAt(c, p[1..], k - 1);
    }
  }

  lemma {:induction false} EvalScale(c: Scalar, p: Poly, x: Scalar)
    ensures Eval(Scale(c, p), x) == c * Eval(p, x)
  {
    if |p| != 0 {
      var r := Scale(c, p);
      assert r[1..] == Scale(c, p[1..]);
      EvalScale(c, p[1..], x);
      var e := Eval(p[1..], x);
      assert x * (c * e) == c * (x * e);
    }
  }

  /** The value u + v·x of a linear factor. */
  function Linear(u: Scalar, v: Scalar, x: Scalar): Scalar
  {
    u + v * x
  }

  lemma EvalMulLinear(p: Poly, u: Scalar, v: Scalar, x: Scalar)
    ensures Eval(MulLinear(p, u, v), x) == Eval(p, x) * Linear(u, v, x)
  {
    var shifted := [0.0] + Scale(v, p);
    assert shifted[1..] == Scale(v, p);
    EvalAdd(Scale(u, p), shifted, x);
    EvalScale(u, p, x);
    EvalScale(v, p, x);
    MulLinearClose(Eval(MulLinear(p, u, v), x), Eval(Scale(u, p), x), Eval(shifted, x), Eval(Scale(v, p), x),
                   Eval(p, x), u, v, x);
  }

  /** On plain values: u·e + x·(v·e) = e·(u + v·x). */
  lemma MulLinearClose(em: Scalar, eu: Scalar, es: Scalar, ev: Scalar, e: Scalar, u: Scalar, v: Scalar, x: Scalar)
    requires em == eu + es && eu == u * e && es == 0.0 + x * ev && ev == v * e
    ensures em == e * Linear(u, v, x)
  {
  }

  /** Division by `x - r` leaves the value at `r` as remainder. */
  lemma {:induction false} EvalQuotient(p: Poly, r: Scalar, x: Scalar)
    ensures Eval(p, x) == (x - r) * Eval(Quotient(p, r), x) + Eval(p, r)
  {
    if |p| == 1 {
      assert p[1..] == [];
    } else if |p| > 1 {
      var t := p[1..];
      var q := Quotient(p, r);
      assert q[1..] == Quotient(t, r);
      EvalQuotient(t, r, x);
      QuotientStep(Eval(p, x), Eval(q, x), Eval(Quotient(t, r), x), Eval(t, x), Eval(t, r), Eval(p, r), p[0], x, r);
    }
  }

  /** One step of synthetic division, on plain values. */
  lemma QuotientStep(ep: Scalar, eq: Scalar, qt: Scalar, et: Scalar, etr: Scalar, epr: Scalar, p0: Scalar, x: Scalar, r: Scalar)
    requires ep == p0 + x * et && et == (x - r) * qt + etr && eq == etr + x * qt && epr == p0 + r * etr
    ensures ep == (x - r) * eq + epr
  {
  }

  /**
   * A polynomial with at most n coefficients that vanishes at n distinct points
   * vanishes everywhere.
   */
  lemma {:induction false} VanishesEverywhere(h: Poly, xs: seq<Scalar>, x: Scalar)
    requires Distinct(xs)
    requires |h| <= |xs|
    requires forall k :: 0 <= k < |xs| ==> Eval(h, xs[k]) == 0.0
    ensures Eval(h, x) == 0.0
    decreases |xs|
  {
    if |h| != 0 {
      var r := xs[0];
      var q := Quotient(h, r);
      var rest := xs[1..];
      forall k | 0 <= k < |rest|
        ensures Eval(q, rest[k]) == 0.0
      {
        assert rest[k] == xs[k + 1];
        EvalQuotient(h, r, rest[k]);
        ZeroFactor(Eval(h, rest[k]), rest[k] - r, Eval(q, rest[k]), Eval(h, r));
      }
      assert Distinct(rest);
      VanishesEverywhere(q, rest, x);
      EvalQuotient(h, r, x);
    }
  }

  /** On plain values: a = b·c + d with a = d = 0 and b != 0 forces c = 0. */
  lemma ZeroFactor(a: Scalar, b: Scalar, c: Scalar, d: Scalar)
    requires a == b * c + d && a == 0.0 && d == 0.0 && b != 0.0
    ensures c == 0.0
  {
  }
}
