/** Laws of the specification layer: what normalisation keeps, and that
    evaluation turns padded sums, scaling and the convolution product into the
    corresponding field operations. */
module PolyAlgebra {
  import opened Field
  import opened PolySpec

  /* ---------- normalisation ---------- */

  /** Normalising only strips trailing zeros: every coefficient is kept. */
  lemma NormalizeKeepsCoeffs(s: seq<F>)
    ensures SameCoeffs(Normalize(s), s)
  {
    var r := Normalize(s);
    forall k: nat ensures Coeff(r, k) == Coeff(s, k) {
      if k < |r| { assert r[k] == s[k]; }
    }
  }

  /** A normalised sequence is left unchanged by normalisation. */
  lemma NormalizedIsFixed(s: seq<F>)
    requires IsNormalized(s)
    ensures Normalize(s) == s
  {}

  /** Normalising twice changes nothing. */
  lemma NormalizeIdempotent(s: seq<F>)
    ensures Normalize(Normalize(s)) == Normalize(s)
  {
    if |s| >= 1 { NormalizedIsFixed(Normalize(s)); }
  }

  /** A non-empty sequence normalises to `[0]` exactly when it is all zeros. */
  lemma NormalizeAllZero(s: seq<F>)
    requires |s| >= 1
    ensures Normalize(s) == [0] <==> AllZero(s)
  {
    var r := Normalize(s);
    if AllZero(s) {
      assert r[|r| - 1] == s[|r| - 1] == 0;
    } else {
      var i :| 0 <= i < |s| && s[i] != 0;
      assert i < |r| && r[i] == s[i];
    }
  }

  /** `is_zero` on a normalised polynomial: it is `[0]` iff every coefficient is zero. */
  lemma IsZeroIffAllZero(c: seq<F>)
    requires IsNormalized(c)
    ensures c == [0] <==> AllZero(c)
  {
    NormalizedIsFixed(c);
    NormalizeAllZero(c);
  }

  /** A normalised non-zero polynomial has a non-zero coefficient at its degree
      and none above it. */
  lemma LeadingCoefficient(c: seq<F>)
    requires IsNormalized(c) && c != [0]
    ensures c[|c| - 1] != 0
    ensures forall k: nat :: |c| <= k ==> Coeff(c, k) == 0
  {}

  /** When everything from index k on is zero and index k-1 is not (or k is 1),
      normalising keeps exactly the first k coefficients. */
  lemma {:induction false} NormalizeDropsZeros(s: seq<F>, k: nat)
    requires 1 <= k <= |s|
    requires k == 1 || s[k - 1] != 0
    requires forall i :: k <= i < |s| ==> s[i] == 0
    ensures Normalize(s) == s[..k]
    decreases |s|
  {
    if |s| > k {
      NormalizeDropsZeros(s[..|s| - 1], k);
      assert s[..|s| - 1][..k] == s[..k];
    }
  }

  /** Two non-empty sequences with the same coefficients normalise to the same sequence. */
  lemma NormalizeUnique(a: seq<F>, b: seq<F>)
    requires |a| >= 1 && |b| >= 1 && SameCoeffs(a, b)
    ensures Normalize(a) == Normalize(b)
  {
    var ra, rb := Normalize(a), Normalize(b);
    NormalizeKeepsCoeffs(a);
    NormalizeKeepsCoeffs(b);
    assert forall k: nat :: Coeff(ra, k) == Coeff(rb, k) by {
      forall k: nat ensures Coeff(ra, k) == Coeff(rb, k) {
        assert Coeff(ra, k) == Coeff(a, k) == Coeff(b, k) == Coeff(rb, k);
      }
    }
    assert Coeff(ra, |rb| - 1) == Coeff(rb, |rb| - 1);
    assert Coeff(ra, |ra| - 1) == Coeff(rb, |ra| - 1);
    forall k | 0 <= k < |ra| ensures ra[k] == rb[k] {
      assert Coeff(ra, k) == Coeff(rb, k);
    }
  }

  /* ---------- padded sums ---------- */

  lemma CoeffPadAdd(a: seq<F>, b: seq<F>)
    ensures forall k: nat :: Coeff(PadAdd(a, b), k) == Add(Coeff(a, k), Coeff(b, k))
  {}

  lemma CoeffPadSub(a: seq<F>, b: seq<F>)
    ensures forall k: nat :: Coeff(PadSub(a, b), k) == Sub(Coeff(a, k), Coeff(b, k))
  {}

  /** When `rhs` is no longer than `self`, the subtraction loop computes the true
      coefficient-wise difference. */
  lemma SubAsWrittenIsDifference(a: seq<F>, b: seq<F>)
    requires |b| <= |a|
    ensures SubAsWritten(a, b) == PadSub(a, b)
  {}

  /** When `rhs` is longer than `self`, it does not: [0] minus [0, 1] gives [0, 1]
      where the difference is [0, P - 1], so the value at x = 1 is 1 instead of -1. */
  lemma SubAsWrittenLongerRhs()
    ensures SubAsWritten([0], [0, 1]) == [0, 1]
    ensures PadSub([0], [0, 1]) == [0, P - 1]
    ensures Eval(Normalize(SubAsWritten([0], [0, 1])), 1) == 1
    ensures Eval(Normalize(PadSub([0], [0, 1])), 1) == P - 1
  {
    assert SubAsWritten([0], [0, 1]) == [0, 1];
    assert PadSub([0], [0, 1]) == [0, P - 1];
    EvalTwo(0, 1, 1);
    EvalTwo(0, P - 1, 1);
  }

  /* ---------- evaluation ---------- */

  /** A constant polynomial evaluates to its constant. */
  lemma EvalConstant(s: F, x: F)
    ensures Eval([s], x) == s
  {
    assert Eval([s], x) == Add(EvalUpTo([s], 0, x), Mul(Pow(x, 0), s));
  }

  /** A polynomial of length two, a + b·x. */
  lemma EvalTwo(a: F, b: F, x: F)
    ensures Eval([a, b], x) == Add(a, Mul(x, b))
  {
    assert EvalUpTo([a, b], 1, x) == a by {
      assert EvalUpTo([a, b], 1, x) == Add(EvalUpTo([a, b], 0, x), Mul(Pow(x, 0), a));
    }
    assert Pow(x, 1) == x by { assert Pow(x, 1) == Mul(Pow(x, 0), x); }
  }

  /** Summing past the end only adds zero terms. */
  lemma {:induction false} EvalUpToBeyond(c: seq<F>, n: nat, x: F)
    requires n >= |c|
    ensures EvalUpTo(c, n, x) == Eval(c, x)
    decreases n
  {
    if n > |c| {
      EvalUpToBeyond(c, n - 1, x);
      MulZero(Pow(x, n - 1));
    }
  }

  /** The partial sums depend only on the coefficients below n. */
  lemma {:induction false} EvalUpToCoeffs(a: seq<F>, b: seq<F>, n: nat, x: F)
    requires forall k :: 0 <= k < n ==> Coeff(a, k) == Coeff(b, k)
    ensures EvalUpTo(a, n, x) == EvalUpTo(b, n, x)
  {
    if n > 0 { EvalUpToCoeffs(a, b, n - 1, x); }
  }

  /** Sequences with the same coefficients have the same value everywhere. */
  lemma EvalSameCoeffs(a: seq<F>, b: seq<F>, x: F)
    requires SameCoeffs(a, b)
    ensures Eval(a, x) == Eval(b, x)
  {
    var n := Max(|a|, |b|);
    EvalUpToBeyond(a, n, x);
    EvalUpToBeyond(b, n, x);
    EvalUpToCoeffs(a, b, n, x);
  }

  /** Normalising does not change the value of a polynomial. */
  lemma EvalNormalize(s: seq<F>, x: F)
    ensures Eval(Normalize(s), x) == Eval(s, x)
  {
    NormalizeKeepsCoeffs(s);
    EvalSameCoeffs(Normalize(s), s, x);
  }

  /** Partial sums are additive in the coefficients. */
  lemma {:induction false} EvalUpToLinear(u: seq<F>, v: seq<F>, w: seq<F>, n: nat, x: F)
    requires forall k :: 0 <= k < n ==> Coeff(w, k) == Add(Coeff(u, k), Coeff(v, k))
    ensures EvalUpTo(w, n, x) == Add(EvalUpTo(u, n, x), EvalUpTo(v, n, x))
  {
    if n > 0 {
      EvalUpToLinear(u, v, w, n - 1, x);
      var p := Pow(x, n - 1);
      Distrib(p, Coeff(u, n - 1), Coeff(v, n - 1));
      AddShuffle(EvalUpTo(u, n - 1, x), EvalUpTo(v, n - 1, x), Mul(p, Coeff(u, n - 1)), Mul(p, Coeff(v, n - 1)));
    }
  }

  /** The value of a padded sum is the sum of the values. */
  lemma EvalPadAdd(a: seq<F>, b: seq<F>, x: F)
    ensures Eval(PadAdd(a, b), x) == Add(Eval(a, x), Eval(b, x))
  {
    var n := Max(|a|, |b|);
    CoeffPadAdd(a, b);
    EvalUpToLinear(a, b, PadAdd(a, b), n, x);
    EvalUpToBeyond(a, n, x);
    EvalUpToBeyond(b, n, x);
  }

  /** The value of a padded difference is the difference of the values. */
  lemma EvalPadSub(a: seq<F>, b: seq<F>, x: F)
    ensures Eval(PadSub(a, b), x) == Sub(Eval(a, x), Eval(b, x))
  {
    var d := PadSub(a, b);
    var n := Max(|a|, |b|);
    forall k | 0 <= k < n ensures Coeff(a, k) == Add(Coeff(d, k), Coeff(b, k)) {
      assert Coeff(d, k) == Sub(Coeff(a, k), Coeff(b, k));
      SubAddCancel(Coeff(a, k), Coeff(b, k));
    }
    EvalUpToLinear(d, b, a, n, x);
    EvalUpToBeyond(a, n, x);
    EvalUpToBeyond(b, n, x);
    AddSubCancel(Eval(d, x), Eval(b, x));
  }

  /** Partial sums scale with the coefficients. */
  lemma {:induction false} EvalUpToScaled(c: seq<F>, w: seq<F>, s: F, n: nat, x: F)
    requires forall k :: 0 <= k < n ==> Coeff(w, k) == Mul(Coeff(c, k), s)
    ensures EvalUpTo(w, n, x) == Mul(EvalUpTo(c, n, x), s)
  {
    if n > 0 {
      EvalUpToScaled(c, w, s, n - 1, x);
      var p := Pow(x, n - 1);
      MulAssoc(p, Coeff(c, n - 1), s);
      DistribRight(EvalUpTo(c, n - 1, x), Mul(p, Coeff(c, n - 1)), s);
    }
  }

  /** `p * s` evaluates to s times the value of p. */
  lemma EvalScale(c: seq<F>, s: F, x: F)
    ensures Eval(Scale(c, s), x) == Mul(Eval(c, x), s)
  {
    if s == 0 {
      MulZero(Eval(c, x));
      EvalConstant(0, x);
    } else {
      EvalUpToScaled(c, Scale(c, s), s, |c|, x);
    }
  }

  /** Adding a scalar to coefficient 0 adds it to the value. */
  lemma EvalAddConstant(c: seq<F>, s: F, x: F)
    requires |c| >= 1
    ensures Eval(c[0 := Add(c[0], s)], x) == Add(Eval(c, x), s)
  {
    var w := c[0 := Add(c[0], s)];
    var e := [s];
    forall k | 0 <= k < |c| ensures Coeff(w, k) == Add(Coeff(c, k), Coeff(e, k)) {}
    EvalUpToLinear(c, e, w, |c|, x);
    EvalUpToBeyond(e, |c|, x);
    EvalConstant(s, x);
  }

  /** A sequence holding c·b shifted up by m places evaluates to c·x^m times b's value. */
  lemma {:induction false} EvalShifted(w: seq<F>, b: seq<F>, c: F, m: nat, n: nat, x: F)
    requires forall k :: 0 <= k < n ==> Coeff(w, k) == Mul(c, Coeff(b, k - m))
    ensures EvalUpTo(w, n, x) == Mul(Mul(c, Pow(x, m)), EvalUpTo(b, if n <= m then 0 else n - m, x))
    decreases n, 1
  {
    var K := Mul(c, Pow(x, m));
    if n == 0 {
      MulZero(K);
    } else {
      EvalUpToShiftedStep(w, b, c, m, n, x);
    }
  }

  lemma {:induction false} EvalUpToShiftedStep(w: seq<F>, b: seq<F>, c: F, m: nat, n: nat, x: F)
    requires n > 0
    requires forall k :: 0 <= k < n ==> Coeff(w, k) == Mul(c, Coeff(b, k - m))
    ensures EvalUpTo(w, n, x) == Mul(Mul(c, Pow(x, m)), EvalUpTo(b, if n <= m then 0 else n - m, x))
    decreases n, 0
  {
    var K := Mul(c, Pow(x, m));
    EvalShifted(w, b, c, m, n - 1, x);
    var k := n - 1;
    var prev := EvalUpTo(b, if k <= m then 0 else k - m, x);
    assert EvalUpTo(w, n, x) == Add(Mul(K, prev), Mul(Pow(x, k), Mul(c, Coeff(b, k - m))));
    if k < m {
      MulZero(c);
      MulZero(Pow(x, k));
    } else {
      var j := k - m;
      var bj := Coeff(b, j);
      PowAdd(x, m, j);
      MulShuffle(Pow(x, m), Pow(x, j), c, bj);
      assert Mul(Pow(x, k), Mul(c, bj)) == Mul(K, Mul(Pow(x, j), bj));
      assert EvalUpTo(b, j + 1, x) == Add(EvalUpTo(b, j, x), Mul(Pow(x, j), bj));
      Distrib(K, EvalUpTo(b, j, x), Mul(Pow(x, j), bj));
    }
  }

  /* ---------- the convolution product ---------- */

  /** Row sums vanish outside the range of the product. */
  lemma {:induction false} SumToOutside(a: seq<F>, b: seq<F>, k: int, n: nat)
    requires k < 0 || k >= |a| + |b| - 1
    ensures SumTo(a, b, k, n) == 0
  {
    if n > 0 {
      SumToOutside(a, b, k, n - 1);
      MulZero(Coeff(a, n - 1));
      MulZero(Coeff(b, k - (n - 1)));
    }
  }

  /** Rows past the end of a add nothing. */
  lemma {:induction false} SumToBeyond(a: seq<F>, b: seq<F>, k: int, n: nat)
    requires n >= |a|
    ensures SumTo(a, b, k, n) == SumTo(a, b, k, |a|)
    decreases n
  {
    if n > |a| {
      SumToBeyond(a, b, k, n - 1);
      MulZero(Coeff(b, k - (n - 1)));
    }
  }

  /** Coefficient k of the product is the sum over i + j = k of a_i · b_j, for every k. */
  lemma CoeffConv(a: seq<F>, b: seq<F>, k: int)
    requires |a| >= 1 && |b| >= 1
    ensures Coeff(Conv(a, b), k) == SumTo(a, b, k, |a|)
  {
    if !(0 <= k < |a| + |b| - 1) { SumToOutside(a, b, k, |a|); }
  }

  /** Row sums are additive in the left factor's coefficients. */
  lemma {:induction false} SumToLinear(q: seq<F>, t: seq<F>, s: seq<F>, d: seq<F>, k: int, n: nat)
    requires forall i :: 0 <= i < n ==> Coeff(s, i) == Add(Coeff(q, i), Coeff(t, i))
    ensures SumTo(s, d, k, n) == Add(SumTo(q, d, k, n), SumTo(t, d, k, n))
  {
    if n > 0 {
      SumToLinear(q, t, s, d, k, n - 1);
      var e := Coeff(d, k - (n - 1));
      DistribRight(Coeff(q, n - 1), Coeff(t, n - 1), e);
      AddShuffle(SumTo(q, d, k, n - 1), SumTo(t, d, k, n - 1), Mul(Coeff(q, n - 1), e), Mul(Coeff(t, n - 1), e));
    }
  }

  /** The product distributes over a sum in its left factor, coefficient by coefficient. */
  lemma ConvLinearLeft(q: seq<F>, t: seq<F>, s: seq<F>, d: seq<F>)
    requires |q| >= 1 && |t| >= 1 && |s| >= 1 && |d| >= 1
    requires SameCoeffs(s, PadAdd(q, t))
    ensures forall k: nat :: Coeff(Conv(s, d), k) == Add(Coeff(Conv(q, d), k), Coeff(Conv(t, d), k))
  {
    CoeffPadAdd(q, t);
    forall k: nat ensures Coeff(Conv(s, d), k) == Add(Coeff(Conv(q, d), k), Coeff(Conv(t, d), k)) {
      var n := Max(Max(|q|, |t|), |s|);
      forall i | 0 <= i < n ensures Coeff(s, i) == Add(Coeff(q, i), Coeff(t, i)) {
        assert Coeff(s, i) == Coeff(PadAdd(q, t), i);
      }
      SumToLinear(q, t, s, d, k, n);
      SumToBeyond(q, d, k, n);
      SumToBeyond(t, d, k, n);
      SumToBeyond(s, d, k, n);
      CoeffConv(s, d, k);
      CoeffConv(q, d, k);
      CoeffConv(t, d, k);
    }
  }

  /** The first n rows of the product, over its full length. */
  ghost function Rows(a: seq<F>, b: seq<F>, n: nat): seq<F>
    requires |a| >= 1 && |b| >= 1
  {
    seq(|a| + |b| - 1, k requires 0 <= k < |a| + |b| - 1 => SumTo(a, b, k, n))
  }

  /** Row m of the product: a_m times b, shifted up by m places. */
  ghost function Row(a: seq<F>, b: seq<F>, m: nat): seq<F>
    requires |a| >= 1 && |b| >= 1
  {
    seq(|a| + |b| - 1, k requires 0 <= k < |a| + |b| - 1 => RowCoeff(a, b, m, k))
  }

  ghost function RowCoeff(a: seq<F>, b: seq<F>, m: nat, k: int): F
  {
    Mul(Coeff(a, m), Coeff(b, k - m))
  }

  /** After n rows, the partial product evaluates to (the first n terms of a) times b. */
  lemma {:induction false} EvalRows(a: seq<F>, b: seq<F>, n: nat, x: F)
    requires |a| >= 1 && |b| >= 1 && n <= |a|
    ensures Eval(Rows(a, b, n), x) == Mul(EvalUpTo(a, n, x), Eval(b, x))
  {
    var L := |a| + |b| - 1;
    if n == 0 {
      EvalUpToCoeffs(Rows(a, b, 0), [], L, x);
      EvalUpToBeyond([], L, x);
      MulZero(Eval(b, x));
    } else {
      var m := n - 1;
      EvalRows(a, b, m, x);
      EvalRowsStep(a, b, m, x);
      var pm := Pow(x, m);
      DistribRight(EvalUpTo(a, m, x), Mul(Coeff(a, m), pm), Eval(b, x));
      MulComm(Coeff(a, m), pm);
    }
  }

  /** Adding row m adds a_m · x^m times the value of b. */
  lemma EvalRowsStep(a: seq<F>, b: seq<F>, m: nat, x: F)
    requires |a| >= 1 && |b| >= 1 && m < |a|
    ensures Eval(Rows(a, b, m + 1), x) == Add(Eval(Rows(a, b, m), x), Mul(Mul(Coeff(a, m), Pow(x, m)), Eval(b, x)))
  {
    var L := |a| + |b| - 1;
    var row := Row(a, b, m);
    var prev, next := Rows(a, b, m), Rows(a, b, m + 1);
    forall k | 0 <= k < L ensures Coeff(next, k) == Add(Coeff(prev, k), Coeff(row, k)) {
      assert next[k] == SumTo(a, b, k, m + 1);
      assert prev[k] == SumTo(a, b, k, m);
    }
    EvalUpToLinear(prev, row, next, L, x);
    forall k | 0 <= k < L ensures Coeff(row, k) == Mul(Coeff(a, m), Coeff(b, k - m)) {}
    EvalShifted(row, b, Coeff(a, m), m, L, x);
    EvalUpToBeyond(b, L - m, x);
  }

  /** The product evaluates to the product of the values. */
  lemma EvalConv(a: seq<F>, b: seq<F>, x: F)
    requires |a| >= 1 && |b| >= 1
    ensures Eval(Conv(a, b), x) == Mul(Eval(a, x), Eval(b, x))
  {
    assert Conv(a, b) == Rows(a, b, |a|);
    EvalRows(a, b, |a|, x);
  }

  /** Multiplying by the monomial c·x^e on the right shifts by e and scales by c. */
  lemma {:induction false} SumToMonomialRight(d: seq<F>, e: nat, c: F, k: int, n: nat)
    ensures SumTo(d, Monomial(e, c), k, n) == if 0 <= k - e < n then Mul(Coeff(d, k - e), c) else 0
  {
    if n > 0 {
      SumToMonomialRight(d, e, c, k, n - 1);
      if k - (n - 1) != e { MulZero(Coeff(d, n - 1)); }
    }
  }

  lemma ConvMonomialRight(d: seq<F>, e: nat, c: F)
    requires |d| >= 1
    ensures forall k: nat :: Coeff(Conv(d, Monomial(e, c)), k) == Mul(Coeff(d, k - e), c)
  {
    forall k: nat ensures Coeff(Conv(d, Monomial(e, c)), k) == Mul(Coeff(d, k - e), c) {
      CoeffConv(d, Monomial(e, c), k);
      SumToMonomialRight(d, e, c, k, |d|);
      if !(0 <= k - e < |d|) { MulZero(c); }
    }
  }

  /** Multiplying by the monomial c·x^e on the left does the same. */
  lemma {:induction false} SumToMonomialLeft(d: seq<F>, e: nat, c: F, k: int, n: nat)
    ensures SumTo(Monomial(e, c), d, k, n) == if e < n then Mul(c, Coeff(d, k - e)) else 0
  {
    if n > 0 {
      SumToMonomialLeft(d, e, c, k, n - 1);
      if n - 1 != e { MulZero(Coeff(d, k - (n - 1))); }
    }
  }

  lemma ConvMonomialLeft(d: seq<F>, e: nat, c: F)
    requires |d| >= 1
    ensures forall k: nat :: Coeff(Conv(Monomial(e, c), d), k) == Mul(c, Coeff(d, k - e))
  {
    forall k: nat ensures Coeff(Conv(Monomial(e, c), d), k) == Mul(c, Coeff(d, k - e)) {
      CoeffConv(Monomial(e, c), d, k);
      SumToMonomialLeft(d, e, c, k, e + 1);
    }
  }

  /* ---------- one step of long division ---------- */

  /** The zero polynomial times anything has only zero coefficients. */
  lemma ConvZeroLeft(d: seq<F>)
    requires |d| >= 1
    ensures forall k: nat :: Coeff(Conv([0], d), k) == 0
  {
    forall k: nat ensures Coeff(Conv([0], d), k) == 0 {
      CoeffConv([0], d, k);
      MulZero(Coeff(d, k));
    }
  }

  /** At the start of division, dividend == 0 · d + dividend. */
  lemma DivisionStart(n: seq<F>, d: seq<F>)
    requires |d| >= 1
    ensures SameCoeffs(n, PadAdd(Conv([0], d), n))
  {
    ConvZeroLeft(d);
    CoeffPadAdd(Conv([0], d), n);
  }

  /** One step of long division keeps dividend == q · d + r: the monomial t added
      to q is subtracted from r as d · t. */
  lemma DivisionStepKeepsLaw(n: seq<F>, q: seq<F>, r: seq<F>, d: seq<F>, e: nat, c: F)
    requires |q| >= 1 && |r| >= 1 && |d| >= 1 && |r| == |d| + e
    requires SameCoeffs(n, PadAdd(Conv(q, d), r))
    ensures SameCoeffs(n, PadAdd(Conv(Normalize(PadAdd(q, Monomial(e, c))), d),
                                 Normalize(SubAsWritten(r, Conv(d, Monomial(e, c))))))
  {
    var t := Monomial(e, c);
    var q2 := Normalize(PadAdd(q, t));
    var dt := Conv(d, t);
    var r2 := Normalize(SubAsWritten(r, dt));
    NormalizeKeepsCoeffs(PadAdd(q, t));
    ConvLinearLeft(q, t, q2, d);
    ConvMonomialLeft(d, e, c);
    ConvMonomialRight(d, e, c);
    SubAsWrittenIsDifference(r, dt);
    NormalizeKeepsCoeffs(PadSub(r, dt));
    CoeffPadSub(r, dt);
    CoeffPadAdd(Conv(q, d), r);
    CoeffPadAdd(Conv(q2, d), r2);
    forall k: nat ensures Coeff(n, k) == Coeff(PadAdd(Conv(q2, d), r2), k) {
      var tk := Coeff(Conv(t, d), k);
      MulComm(c, Coeff(d, k - e));
      assert Coeff(dt, k) == tk;
      assert Coeff(Conv(q2, d), k) == Add(Coeff(Conv(q, d), k), tk);
      assert Coeff(r2, k) == Sub(Coeff(r, k), tk);
      AddSubShift(Coeff(Conv(q, d), k), tk, Coeff(r, k));
    }
  }

  /** With c = lead(r) / lead(d), the step cancels the leading coefficient of r,
      so r becomes shorter or becomes the zero polynomial. */
  lemma DivisionStepShrinks(r: seq<F>, d: seq<F>, e: nat, inv: F)
    requires |r| >= 1 && |d| >= 1 && |r| == |d| + e
    requires Mul(d[|d| - 1], inv) == 1
    ensures var r2 := Normalize(SubAsWritten(r, Conv(d, Monomial(e, Mul(r[|r| - 1], inv)))));
            r2 == [0] || |r2| < |r|
  {
    var c := Mul(r[|r| - 1], inv);
    var dt := Conv(d, Monomial(e, c));
    var s := SubAsWritten(r, dt);
    SubAsWrittenIsDifference(r, dt);
    ConvMonomialRight(d, e, c);
    var top := |r| - 1;
    assert Coeff(dt, top) == Mul(d[|d| - 1], c);
    MulShuffle(r[top], inv, d[|d| - 1], 1);
    MulAssoc(d[|d| - 1], r[top], inv);
    MulComm(d[|d| - 1], r[top]);
    MulAssoc(r[top], d[|d| - 1], inv);
    MulOne(r[top]);
    assert Mul(d[|d| - 1], c) == r[top];
    assert s[top] == 0;
    if |s| == 1 {
      assert s == [0];
    }
  }

  /** One iteration of long division on values: with t the monomial that cancels
      the leading coefficient of r, the new quotient and remainder keep the law,
      the quotient stays normalised, and the remainder becomes zero or shorter. */
  lemma DivisionStep(n: seq<F>, q: seq<F>, r: seq<F>, d: seq<F>, inv: F, t: seq<F>, q2: seq<F>, r2: seq<F>)
    requires |q| >= 1 && |r| >= |d| >= 1
    requires Mul(d[|d| - 1], inv) == 1
    requires SameCoeffs(n, PadAdd(Conv(q, d), r))
    requires t == Monomial(|r| - |d|, Mul(r[|r| - 1], inv))
    requires q2 == Normalize(PadAdd(q, t)) && r2 == Normalize(SubAsWritten(r, Conv(d, t)))
    ensures IsNormalized(q2) && IsNormalized(r2)
    ensures SameCoeffs(n, PadAdd(Conv(q2, d), r2))
    ensures r2 == [0] || |r2| < |r|
  {
    var e, c := |r| - |d|, Mul(r[|r| - 1], inv);
    assert SameCoeffs(n, PadAdd(Conv(q2, d), r2)) by {
      DivisionStepKeepsLaw(n, q, r, d, e, c);
    }
    assert r2 == [0] || |r2| < |r| by {
      DivisionStepShrinks(r, d, e, inv);
    }
  }

  /* ---------- uniqueness of quotient and remainder ---------- */

  /** Coefficient m + |d| - 1 of a · d, when m is the top index of a, is a_m times
      the leading coefficient of d: only row m reaches that high. */
  lemma {:induction false} SumToTop(a: seq<F>, d: seq<F>, m: nat, n: nat)
    requires |d| >= 1
    requires forall i: nat :: m < i ==> Coeff(a, i) == 0
    ensures SumTo(a, d, m + |d| - 1, n) == if n <= m then 0 else Mul(Coeff(a, m), d[|d| - 1])
  {
    if n > 0 {
      SumToTop(a, d, m, n - 1);
      var k := m + |d| - 1;
      if n - 1 < m {
        MulZero(Coeff(a, n - 1));
      } else if n - 1 > m {
        MulZero(Coeff(d, k - (n - 1)));
      }
    }
  }

  lemma ConvTop(a: seq<F>, d: seq<F>, m: nat)
    requires |a| >= 1 && |d| >= 1 && m < |a|
    requires forall i: nat :: m < i ==> Coeff(a, i) == 0
    ensures Coeff(Conv(a, d), m + |d| - 1) == Mul(a[m], d[|d| - 1])
  {
    CoeffConv(a, d, m + |d| - 1);
    SumToTop(a, d, m, |a|);
  }

  /** The division law as coefficient equations. */
  lemma DivisionLawCoeffs(n: seq<F>, q: seq<F>, r: seq<F>, d: seq<F>)
    requires |n| >= 1 && |q| >= 1 && |r| >= 1 && |d| >= 1
    requires Normalize(PadAdd(Conv(q, d), r)) == Normalize(n)
    ensures forall k: nat :: Coeff(n, k) == Add(Coeff(Conv(q, d), k), Coeff(r, k))
  {
    NormalizeKeepsCoeffs(n);
    NormalizeKeepsCoeffs(PadAdd(Conv(q, d), r));
    CoeffPadAdd(Conv(q, d), r);
    forall k: nat ensures Coeff(n, k) == Add(Coeff(Conv(q, d), k), Coeff(r, k)) {
      assert Coeff(n, k) == Coeff(Normalize(n), k);
    }
  }

  /** Two quotients of the same dividend by the same divisor agree: with the
      remainders zero or shorter than d, q1 · d - q2 · d is a remainder difference,
      which cannot reach the degree of d, and a non-zero q1 - q2 would reach it
      because the leading coefficient of d is a unit. */
  lemma QuotientsAgree(n: seq<F>, d: seq<F>, q1: seq<F>, r1: seq<F>, q2: seq<F>, r2: seq<F>)
    requires |n| >= 1 && |d| >= 1 && IsUnit(d[|d| - 1])
    requires |q1| >= 1 && |r1| >= 1 && |q2| >= 1 && |r2| >= 1
    requires forall k: nat :: Coeff(n, k) == Add(Coeff(Conv(q1, d), k), Coeff(r1, k))
    requires forall k: nat :: Coeff(n, k) == Add(Coeff(Conv(q2, d), k), Coeff(r2, k))
    requires r1 == [0] || |r1| < |d|
    requires r2 == [0] || |r2| < |d|
    ensures SameCoeffs(q1, q2)
  {
    var delta := PadSub(q1, q2);
    CoeffPadSub(q1, q2);
    if !AllZero(delta) {
      var top := Normalize(delta);
      NormalizeAllZero(delta);
      var m := |top| - 1;
      assert delta[m] == top[m] != 0;
      forall i: nat | m < i ensures Coeff(delta, i) == 0 {}
      ConvTop(delta, d, m);
      UnitCancel(delta[m], d[|d| - 1]);
      var K := m + |d| - 1;
      assert Coeff(r1, K) == 0 && Coeff(r2, K) == 0;
      assert SameCoeffs(q1, PadAdd(q2, delta)) by {
        CoeffPadAdd(q2, delta);
        forall k: nat ensures Coeff(q1, k) == Coeff(PadAdd(q2, delta), k) {
          SubAddCancel(Coeff(q1, k), Coeff(q2, k));
          AddComm(Coeff(q2, k), Sub(Coeff(q1, k), Coeff(q2, k)));
        }
      }
      ConvLinearLeft(q2, delta, q1, d);
      assert false;
    }
    forall k: nat ensures Coeff(q1, k) == Coeff(q2, k) {
      if k < |delta| { assert delta[k] == 0; }
    }
  }

  /** Long division has a single answer: for a divisor whose leading coefficient
      is a unit, a normalised quotient and normalised remainder that satisfy the
      division law with the remainder zero or shorter than d are determined by
      the dividend. */
  lemma DivisionUnique(n: seq<F>, d: seq<F>, q1: seq<F>, r1: seq<F>, q2: seq<F>, r2: seq<F>)
    requires |n| >= 1 && |d| >= 1 && IsUnit(d[|d| - 1])
    requires IsNormalized(q1) && IsNormalized(r1) && IsNormalized(q2) && IsNormalized(r2)
    requires Normalize(PadAdd(Conv(q1, d), r1)) == Normalize(n)
    requires Normalize(PadAdd(Conv(q2, d), r2)) == Normalize(n)
    requires r1 == [0] || |r1| < |d|
    requires r2 == [0] || |r2| < |d|
    ensures q1 == q2 && r1 == r2
  {
    DivisionLawCoeffs(n, q1, r1, d);
    DivisionLawCoeffs(n, q2, r2, d);
    QuotientsAgree(n, d, q1, r1, q2, r2);
    NormalizeUnique(q1, q2);
    NormalizedIsFixed(q1);
    NormalizedIsFixed(q2);
    forall k: nat ensures Coeff(r1, k) == Coeff(r2, k) {
      assert Coeff(n, k) == Add(Coeff(Conv(q1, d), k), Coeff(r1, k));
      assert Coeff(n, k) == Add(Coeff(Conv(q2, d), k), Coeff(r2, k));
    }
    NormalizeUnique(r1, r2);
    NormalizedIsFixed(r1);
    NormalizedIsFixed(r2);
  }

  /* ---------- evaluation against precomputed powers ---------- */

  /** With xp holding the powers of x, the dot product is the value at x. */
  lemma {:induction false} DotOfPowers(xp: seq<F>, c: seq<F>, n: nat, x: F)
    requires n <= |xp| && n <= |c|
    requires forall i :: 0 <= i < n ==> xp[i] == Pow(x, i)
    ensures Dot(xp, c, n) == EvalUpTo(c, n, x)
  {
    if n > 0 { DotOfPowers(xp, c, n - 1, x); }
  }

  /** What `eval_with_pows` returns against the powers of x: coefficient 0 plus
      the value, so it equals the value exactly when coefficient 0 is zero. */
  lemma EvalWithPowsOffByConstant(c: seq<F>, xp: seq<F>, x: F)
    requires |c| >= 1 && |xp| >= |c|
    requires forall i :: 0 <= i < |c| ==> xp[i] == Pow(x, i)
    ensures Add(c[0], Dot(xp, c, |c|)) == Add(c[0], Eval(c, x))
    ensures Add(c[0], Dot(xp, c, |c|)) == Eval(c, x) <==> c[0] == 0
  {
    DotOfPowers(xp, c, |c|, x);
    EvalUpToBeyond(c, |c|, x);
  }
}
