/**
 * The scalar field and the three pairing groups, in exponent form.
 *
 * The scalar field Fr of BLS12-381 is represented by Dafny's `real`, an exact
 * field in which division by a non-zero value is always defined. Every element
 * of G1, G2 and GT is represented by its discrete logarithm with respect to the
 * fixed generators g (of G1), h (of G2) and e(g, h) (of GT). In that
 * representation
 *   - adding two group elements adds their logarithms,
 *   - multiplying a group element by a scalar multiplies its logarithm,
 *   - the pairing e(a·g, b·h) is a·b,
 *   - multiplying two GT elements adds their logarithms, and raising a GT element
 *     to a scalar power multiplies its logarithm,
 *   - the identity of every group is 0.
 */
module Field {

  type Scalar = real
  type G1 = real
  type G2 = real
  type GT = real

  /** The generator g of G1. */
  const G1Generator: G1 := 1.0
  /** The generator h of G2. */
  const G2Generator: G2 := 1.0
  /** The identity ("one") of GT. */
  const GTOne: GT := 0.0

  function Pairing(a: G1, b: G2): GT
  {
    a * b
  }

  /** The field inverse; the source's `inverse().unwrap()` panics on zero. */
  function Inverse(x: Scalar): (r: Scalar)
    requires x != 0.0
    ensures r * x == 1.0
    ensures r != 0.0
  {
    1.0 / x
  }

  function Min(a: nat, b: nat): nat
  {
    if a <= b then a else b
  }

  /** `f(s[0]) + ... + f(s[|s|-1])`, folded from the left. */
  function SumBy<T>(s: seq<T>, f: T -> real): real
  {
    if |s| == 0 then 0.0 else SumBy(s[..|s| - 1], f) + f(s[|s| - 1])
  }

  /** `a[0]*b[0] + ... + a[n-1]*b[n-1]`. */
  function DotPrefix(a: seq<real>, b: seq<real>, n: nat): real
    requires n <= |a| && n <= |b|
  {
    if n == 0 then 0.0 else DotPrefix(a, b, n - 1) + a[n - 1] * b[n - 1]
  }

  /** The sum of the pairwise products of two sequences, up to the shorter one. */
  function Dot(a: seq<real>, b: seq<real>): real
  {
    DotPrefix(a, b, Min(|a|, |b|))
  }

  predicate Distinct(xs: seq<Scalar>)
  {
    forall i, j :: 0 <= i < j < |xs| ==> xs[i] != xs[j]
  }

  lemma SumByAppend<T>(s: seq<T>, x: T, f: T -> real)
    ensures SumBy(s + [x], f) == SumBy(s, f) + f(x)
  {
    assert (s + [x])[..|s|] == s;
  }

  lemma SumByConcat<T>(s: seq<T>, t: seq<T>, f: T -> real)
    ensures SumBy(s + t, f) == SumBy(s, f) + SumBy(t, f)
    decreases |t|
  {
    if |t| == 0 {
      assert s + t == s;
    } else {
      var t' := t[..|t| - 1];
      assert s + t == (s + t') + [t[|t| - 1]];
      SumByAppend(s + t', t[|t| - 1], f);
      SumByConcat(s, t', f);
    }
  }

  /** Removing position k takes its term out of the sum. */
  lemma SumByRemove<T>(s: seq<T>, k: nat, f: T -> real)
    requires k < |s|
    ensures SumBy(s, f) == SumBy(s[..k] + s[k + 1..], f) + f(s[k])
  {
    assert s == s[..k] + ([s[k]] + s[k + 1..]);
    SumByConcat(s[..k], [s[k]] + s[k + 1..], f);
    SumByConcat([s[k]], s[k + 1..], f);
    SumByConcat(s[..k], s[k + 1..], f);
    assert SumBy([s[k]], f) == f(s[k]) by {
      assert [s[k]][..0] == [];
    }
  }

  /** Sums over a sequence do not depend on the order of its elements. */
  lemma {:induction false} SumByPermutation<T>(s: seq<T>, t: seq<T>, f: T -> real)
    requires multiset(s) == multiset(t)
    ensures SumBy(s, f) == SumBy(t, f)
    decreases |s|
  {
    if |s| == 0 {
      assert |t| == |multiset(t)| == 0;
    } else {
      var x := s[|s| - 1];
      var s' := s[..|s| - 1];
      assert s == s' + [x];
      assert x in multiset(t);
      var k :| 0 <= k < |t| && t[k] == x;
      var t' := t[..k] + t[k + 1..];
      assert t == t[..k] + [x] + t[k + 1..];
      assert multiset(t) == multiset(t[..k]) + multiset{x} + multiset(t[k + 1..]);
      assert multiset(t') == multiset(t[..k]) + multiset(t[k + 1..]);
      assert multiset(t) == multiset(t') + multiset{x};
      assert multiset(s) == multiset(s') + multiset{x};
      assert multiset(s') == multiset(s) - multiset{x};
      assert multiset(t') == multiset(t) - multiset{x};
      SumByPermutation(s', t', f);
      SumByRemove(t, k, f);
    }
  }

  lemma DotPrefixAdd(a: seq<real>, b: seq<real>, c: seq<real>, n: nat)
    requires n <= |a| && n <= |b| && n <= |c|
    ensures DotPrefix(seq(n, i requires 0 <= i < n => a[i] + b[i]), c, n)
         == DotPrefix(a, c, n) + DotPrefix(b, c, n)
  {
    var ab := seq(n, i requires 0 <= i < n => a[i] + b[i]);
    var k := 0;
    while k < n
      invariant k <= n
      invariant DotPrefix(ab, c, k) == DotPrefix(a, c, k) + DotPrefix(b, c, k)
    {
      k := k + 1;
    }
  }
}
