/** The value-level meaning of a `Poly`: a dense coefficient sequence over the
    scalar field, where index i holds the coefficient of x^i. Every operation of
    the imperative class in `Polynomial` is specified by a function here. */
module PolySpec {
  import opened Field

  function Max(a: int, b: int): int
  {
    if a >= b then a else b
  }

  /** The coefficient of x^k; zero past either end of the sequence. */
  function Coeff(s: seq<F>, k: int): F
  {
    if 0 <= k < |s| then s[k] else 0
  }

  /** Two sequences denote the same polynomial: they differ only by trailing zeros. */
  ghost predicate SameCoeffs(a: seq<F>, b: seq<F>)
  {
    forall k: nat :: Coeff(a, k) == Coeff(b, k)
  }

  /** No trailing zero coefficient, except in the zero polynomial `[0]`. */
  predicate IsNormalized(s: seq<F>)
  {
    |s| >= 1 && (|s| > 1 ==> s[|s| - 1] != 0)
  }

  predicate AllZero(s: seq<F>)
  {
    forall i :: 0 <= i < |s| ==> s[i] == 0
  }

  /** `Poly::normalize`: strip trailing zeros, keeping at least one coefficient.
      An empty sequence is left as it is. */
  function Normalize(s: seq<F>): (r: seq<F>)
    ensures |s| >= 1 ==> IsNormalized(r)
    ensures |r| <= |s| && r == s[..|r|]
    ensures forall k :: |r| <= k < |s| ==> s[k] == 0
    ensures |s| >= 1 ==> |r| >= 1
  {
    if |s| <= 1 || s[|s| - 1] != 0 then s
    else Normalize(s[..|s| - 1])
  }

  /** Coefficient-wise sum, the shorter operand padded with zeros (`AddAssign<&Poly>`
      before it renormalises). */
  function PadAdd(a: seq<F>, b: seq<F>): seq<F>
  {
    seq(Max(|a|, |b|), k requires 0 <= k < Max(|a|, |b|) => Add(Coeff(a, k), Coeff(b, k)))
  }

  /** Coefficient-wise difference, the shorter operand padded with zeros. */
  function PadSub(a: seq<F>, b: seq<F>): seq<F>
  {
    seq(Max(|a|, |b|), k requires 0 <= k < Max(|a|, |b|) => Sub(Coeff(a, k), Coeff(b, k)))
  }

  /** What the loop of `SubAssign<&Poly>` computes before it renormalises: where both
      operands have a coefficient it subtracts, where only `rhs` has one it copies
      that coefficient without negating it. */
  function SubAsWritten(a: seq<F>, b: seq<F>): seq<F>
  {
    seq(Max(|a|, |b|), k requires 0 <= k < Max(|a|, |b|) =>
      if k < |a| && k < |b| then Sub(a[k], b[k])
      else if k < |a| then a[k]
      else b[k])
  }

  /** The sum of a_i · b_(k-i) over i < n: coefficient k of the product after the
      first n rows of the convolution. */
  function SumTo(a: seq<F>, b: seq<F>, k: int, n: nat): F
  {
    if n == 0 then 0
    else Add(SumTo(a, b, k, n - 1), Mul(Coeff(a, n - 1), Coeff(b, k - (n - 1))))
  }

  /** `Mul<&Poly>`: the full convolution, of length |a| + |b| - 1, not normalised. */
  function Conv(a: seq<F>, b: seq<F>): seq<F>
    requires |a| >= 1 && |b| >= 1
  {
    seq(|a| + |b| - 1, k requires 0 <= k < |a| + |b| - 1 => SumTo(a, b, k, |a|))
  }

  /** `Mul<&Scalar>`: the zero polynomial when s is zero, otherwise every
      coefficient multiplied by s. */
  function Scale(c: seq<F>, s: F): seq<F>
  {
    if s == 0 then [0] else seq(|c|, i requires 0 <= i < |c| => Mul(c[i], s))
  }

  /** The sum of c_i · x^i over i < n (coefficients past the end count as zero). */
  function EvalUpTo(c: seq<F>, n: nat, x: F): F
  {
    if n == 0 then 0
    else Add(EvalUpTo(c, n - 1, x), Mul(Pow(x, n - 1), Coeff(c, n - 1)))
  }

  /** The value of the polynomial at x. */
  function Eval(c: seq<F>, x: F): F
  {
    EvalUpTo(c, |c|, x)
  }

  /** The sum of xp_i · c_i over i < n. */
  function Dot(xp: seq<F>, c: seq<F>, n: nat): F
    requires n <= |xp| && n <= |c|
  {
    if n == 0 then 0 else Add(Dot(xp, c, n - 1), Mul(xp[n - 1], c[n - 1]))
  }

  /** The monomial c·x^e as `Poly::zero()` followed by `set(e, c)` builds it. */
  function Monomial(e: nat, c: F): seq<F>
  {
    seq(e + 1, i requires 0 <= i <= e => if i == e then c else 0)
  }
}
