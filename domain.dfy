/**
 * The arkworks evaluation domains the library builds: the size of the domain
 * `GeneralEvaluationDomain::new(n)` returns for n points (radix-2 over the
 * BLS12-381 scalar field), and `fft_in_place` over the domain's elements.
 * The elements themselves come from foreign code and are a parameter of
 * every operation that uses them.
 */
module EvaluationDomain {
  import opened Field
  import opened Polynomial

  predicate IsPowerOfTwo(p: nat)
    decreases p
  {
    p == 1 || (p >= 2 && p % 2 == 0 && IsPowerOfTwo(p / 2))
  }

  /** The least power of two at least n, searching upwards from p. */
  function NextPowerOfTwoFrom(n: nat, p: nat): (r: nat)
    requires IsPowerOfTwo(p)
    ensures IsPowerOfTwo(r) && r >= n && r >= p
    ensures r > p ==> r < 2 * n
    decreases n - p
  {
    if p >= n then p else NextPowerOfTwoFrom(n, 2 * p)
  }

  /**
   * The size of the radix-2 domain built for n points: the least power of two
   * that is at least n (1 for n = 0).
   */
  function DomainSize(n: nat): (size: nat)
    ensures IsPowerOfTwo(size) && size >= n
    ensures n >= 1 ==> size < 2 * n
  {
    NextPowerOfTwoFrom(n, 1)
  }

  /**
   * `fft_in_place` over a domain with the given elements: the vector is first
   * resized to the domain's size, padded with zeros or cut short, and then
   * evaluated at every element. A vector that fits is evaluated as it is.
   */
  function Fft(p: Poly, domain: seq<Scalar>): (ys: seq<Scalar>)
    ensures |ys| == |domain|
    ensures |p| <= |domain| ==> ys == EvalAll(p, domain)
  {
    if |p| <= |domain| then EvalAll(p, domain) else EvalAll(p[..|domain|], domain)
  }

  /** Entries past the domain's size take no part: appending more changes nothing. */
  lemma FftIgnoresTail(p: Poly, extra: Poly, domain: seq<Scalar>)
    requires |p| >= |domain|
    ensures Fft(p + extra, domain) == Fft(p, domain)
  {
    if |extra| == 0 {
      assert p + extra == p;
    } else if |p| == |domain| {
      assert (p + extra)[..|domain|] == p;
    } else {
      assert (p + extra)[..|domain|] == p[..|domain|];
    }
  }

  /** One entry of the FFT of a vector that fits the domain is its evaluation there. */
  lemma FftOfFittingVector(p: Poly, domain: seq<Scalar>, k: nat)
    requires |p| <= |domain| && k < |domain|
    ensures Fft(p, domain)[k] == Eval(p, domain[k])
  {
  }

  /** Cutting a scaled vector is scaling the cut vector. */
  lemma ScalePrefix(c: Scalar, p: Poly, n: nat)
    requires n <= |p|
    ensures Scale(c, p)[..n] == Scale(c, p[..n])
  {
    forall i | 0 <= i < n
      ensures Scale(c, p)[..n][i] == Scale(c, p[..n])[i]
    {
      ScaleAt(c, p, i);
      ScaleAt(c, p[..n], i);
    }
  }

  /** Scaling the vector scales its FFT entry by entry: the cut commutes with scaling. */
  lemma FftScale(c: Scalar, p: Poly, domain: seq<Scalar>, k: nat)
    requires k < |domain|
    ensures Fft(Scale(c, p), domain)[k] == c * Fft(p, domain)[k]
  {
    var q := if |p| <= |domain| then p else p[..|domain|];
    if |p| > |domain| {
      ScalePrefix(c, p, |domain|);
    }
    assert Fft(Scale(c, p), domain)[k] == Eval(Scale(c, q), domain[k]);
    assert Fft(p, domain)[k] == Eval(q, domain[k]);
    EvalScale(c, q, domain[k]);
  }

  /**
   * Cut short, the FFT is not the evaluation of the whole vector: over the
   * one-element domain [1], the vector [-2, 1] gives [-2], while the
   * polynomial -2 + x is -1 at 1.
   */
  lemma FftOfLongVectorIsNotEvaluation()
    ensures Fft([-2.0, 1.0], [1.0]) == [-2.0] && EvalAll([-2.0, 1.0], [1.0]) == [-1.0]
  {
    assert [-2.0, 1.0][..1] == [-2.0];
    assert Eval([-2.0], 1.0) == -2.0 + 1.0 * Eval([], 1.0);
    assert Eval([-2.0, 1.0], 1.0) == -2.0 + 1.0 * Eval([1.0], 1.0);
    assert Eval([1.0], 1.0) == 1.0 + 1.0 * Eval([], 1.0);
  }
}
