/** `Poly` as the source has it: a coefficient vector that `normalize`, `set`,
    `+=` and `-=` update in place, and operators that build new polynomials. */
module Polynomial {
  import opened Wrappers
  import opened Field
  import opened Decimal
  import opened PolySpec
  import opened PolyAlgebra
  import PolyDisplay

  class Poly {
    /** `self.0`: the coefficient of x^i at index i. */
    var coeffs: seq<F>

    /** `Poly(c)`: wraps a vector as it is, without normalising. */
    constructor (c: seq<F>)
      ensures coeffs == c
    {
      coeffs := c;
    }

    /** `Poly::new`: wraps a vector and normalises it. */
    constructor New(c: seq<F>)
      ensures coeffs == PolySpec.Normalize(c)
    {
      coeffs := c;
      new;
      Normalize();
    }

    /** `Poly::from`: embeds `u64` values and normalises. */
    constructor From(c: seq<U64>)
      ensures |coeffs| == 0 <==> |c| == 0
      ensures SameCoeffs(coeffs, c)
      ensures |c| >= 1 ==> IsNormalized(coeffs)
    {
      coeffs := seq(|c|, i requires 0 <= i < |c| => c[i] as F);
      new;
      ghost var lifted := coeffs;
      Normalize();
      NormalizeKeepsCoeffs(lifted);
      assert SameCoeffs(lifted, c);
    }

    constructor Zero()
      ensures coeffs == [0]
    {
      coeffs := [0];
    }

    constructor One()
      ensures coeffs == [1]
    {
      coeffs := [1];
    }

    /** `normalize`: drops the trailing zeros, down to a single coefficient. */
    method Normalize()
      modifies this
      ensures coeffs == PolySpec.Normalize(old(coeffs))
    {
      if |coeffs| > 1 && coeffs[|coeffs| - 1] == 0 {
        // position of the first non-zero coefficient, counting from the top
        var pos := 0;
        while pos < |coeffs| && coeffs[|coeffs| - 1 - pos] == 0
          invariant 0 <= pos <= |coeffs|
          invariant forall i :: |coeffs| - pos <= i < |coeffs| ==> coeffs[i] == 0
        {
          pos := pos + 1;
        }
        if pos < |coeffs| {
          NormalizeDropsZeros(coeffs, |coeffs| - pos);
          coeffs := coeffs[..|coeffs| - pos];
        } else {
          NormalizeDropsZeros(coeffs, 1);
          coeffs := coeffs[..1];
        }
      }
    }

    /** `is_zero`: the vector is exactly `[0]`. */
    predicate IsZero()
      reads this
    {
      |coeffs| == 1 && coeffs[0] == 0
    }

    /** What `is_zero` decides: a zero polynomial has only zero coefficients, and
        a normalised one with only zero coefficients is zero. */
    lemma IsZeroMeansAllZero()
      ensures IsZero() ==> AllZero(coeffs)
      ensures IsNormalized(coeffs) && AllZero(coeffs) ==> IsZero()
    {
      if IsNormalized(coeffs) {
        IsZeroIffAllZero(coeffs);
      }
    }

    /** `degree`: the last index of the vector, normalised or not; nothing lies
        past it, and for a normalised non-zero polynomial its coefficient is the
        leading, non-zero one. */
    function Degree(): (d: nat)
      reads this
      requires |coeffs| >= 1
      ensures d == |coeffs| - 1
      ensures forall k: nat :: d < k ==> Coeff(coeffs, k) == 0
      ensures IsNormalized(coeffs) && !IsZero() ==> coeffs[d] != 0
    {
      |coeffs| - 1
    }

    /** `get`: the coefficient at index i when there is one. */
    function Get(i: nat): (r: Option<F>)
      reads this
      ensures r.Some? <==> i < |coeffs|
      ensures r.Some? ==> r.value == Coeff(coeffs, i)
    {
      if i < |coeffs| then Some(coeffs[i]) else None
    }

    /** `set`: pads with zeros up to index i, writes index i, leaves every other
        coefficient as it was, and does not renormalise. */
    method Set(i: nat, v: F)
      modifies this
      ensures |coeffs| == Max(|old(coeffs)|, i + 1)
      ensures coeffs[i] == v
      ensures forall k: nat :: k != i ==> Coeff(coeffs, k) == Coeff(old(coeffs), k)
    {
      if |coeffs| < i + 1 {
        coeffs := coeffs + seq(i + 1 - |coeffs|, _ => 0);
      }
      coeffs := coeffs[i := v];
    }

    /** `eval`: the value at x, accumulating the powers of x on the way. */
    method Eval(x: F) returns (y: F)
      requires |coeffs| >= 1
      ensures y == PolySpec.Eval(coeffs, x)
    {
      var xPow: F := 1;
      y := coeffs[0];
      assert y == EvalUpTo(coeffs, 1, x);
      for i := 1 to |coeffs|
        invariant xPow == Pow(x, i - 1)
        invariant y == EvalUpTo(coeffs, i, x)
      {
        xPow := Field.Mul(xPow, x);
        y := Add(y, Field.Mul(xPow, coeffs[i]));
      }
    }

    /** `eval_with_pows`: coefficient 0 plus the sum of xp_i · c_i over every i
        (so coefficient 0 is counted a second time through xp_0). */
    method EvalWithPows(xp: seq<F>) returns (y: F)
      requires |coeffs| >= 1 && |xp| >= |coeffs|
      ensures y == Add(coeffs[0], Dot(xp, coeffs, |coeffs|))
    {
      y := coeffs[0];
      ghost var sum: F := 0;
      for i := 0 to |coeffs|
        invariant sum == Dot(xp, coeffs, i)
        invariant y == Add(coeffs[0], sum)
      {
        AddAssoc(coeffs[0], sum, Field.Mul(xp[i], coeffs[i]));
        y := Add(y, Field.Mul(xp[i], coeffs[i]));
        sum := Add(sum, Field.Mul(xp[i], coeffs[i]));
      }
    }

    /** `+= &Poly`: the coefficient-wise sum, shorter operand padded, normalised. */
    method AddAssign(rhs: Poly)
      modifies this
      ensures coeffs == PolySpec.Normalize(PadAdd(old(coeffs), old(rhs.coeffs)))
    {
      var b := rhs.coeffs;
      ghost var a := coeffs;
      for n := 0 to Max(|coeffs|, |b|)
        invariant |coeffs| == Max(|a|, n)
        invariant forall k :: 0 <= k < n ==> coeffs[k] == PadAdd(a, b)[k]
        invariant forall k :: n <= k < |a| ==> coeffs[k] == a[k]
      {
        if n >= |coeffs| {
          coeffs := coeffs + [b[n]];
        } else if n < |coeffs| && n < |b| {
          coeffs := coeffs[n := Add(coeffs[n], b[n])];
        }
      }
      assert coeffs == PadAdd(a, b);
      Normalize();
    }

    /** `+= &Scalar`: adds to coefficient 0 only, without renormalising. */
    method AddAssignScalar(s: F)
      requires |coeffs| >= 1
      modifies this
      ensures coeffs == old(coeffs)[0 := Add(old(coeffs)[0], s)]
    {
      coeffs := coeffs[0 := Add(coeffs[0], s)];
    }

    /** `-= &Poly`: subtracts where both have a coefficient, copies the coefficients
        only `rhs` has (unnegated), then normalises. */
    method SubAssign(rhs: Poly)
      modifies this
      ensures coeffs == PolySpec.Normalize(SubAsWritten(old(coeffs), old(rhs.coeffs)))
    {
      var b := rhs.coeffs;
      ghost var a := coeffs;
      for n := 0 to Max(|coeffs|, |b|)
        invariant |coeffs| == Max(|a|, n)
        invariant forall k :: 0 <= k < n ==> coeffs[k] == SubAsWritten(a, b)[k]
        invariant forall k :: n <= k < |a| ==> coeffs[k] == a[k]
      {
        if n >= |coeffs| {
          coeffs := coeffs + [b[n]];
        } else if n < |coeffs| && n < |b| {
          coeffs := coeffs[n := Sub(coeffs[n], b[n])];
        }
      }
      assert coeffs == SubAsWritten(a, b);
      Normalize();
    }

    /** `&self * &rhs`: the full convolution, accumulated row by row into a buffer
        of length |self| + |rhs| - 1; not normalised. */
    method MulPoly(rhs: Poly) returns (product: Poly)
      requires |coeffs| >= 1 && |rhs.coeffs| >= 1
      ensures fresh(product)
      ensures product.coeffs == Conv(coeffs, rhs.coeffs)
    {
      var a, b := coeffs, rhs.coeffs;
      var mul := new F[|a| + |b| - 1](_ => 0);
      for n := 0 to |a|
        invariant forall k :: 0 <= k < mul.Length ==> mul[k] == SumTo(a, b, k, n)
      {
        for m := 0 to |b|
          invariant forall k :: 0 <= k < mul.Length ==>
            mul[k] == if n <= k < n + m then SumTo(a, b, k, n + 1) else SumTo(a, b, k, n)
        {
          mul[n + m] := Add(mul[n + m], Field.Mul(a[n], b[m]));
        }
        forall k | 0 <= k < mul.Length && !(n <= k < n + |b|)
          ensures SumTo(a, b, k, n + 1) == SumTo(a, b, k, n)
        {
          MulZero(a[n]);
        }
      }
      product := new Poly(mul[..]);
    }

    /** `&self * &s`: the zero polynomial when s is zero, otherwise every
        coefficient scaled by s, keeping the length. */
    method MulScalar(s: F) returns (product: Poly)
      ensures fresh(product)
      ensures product.coeffs == Scale(coeffs, s)
    {
      if s == 0 {
        product := new Poly.Zero();
      } else {
        var c := coeffs;
        product := new Poly(seq(|c|, i requires 0 <= i < |c| => Field.Mul(c[i], s)));
      }
    }

    /** `div`: long division by d. The quotient q and remainder r satisfy
        q · d + r == self (as `+=` compares them, normalised), and r is zero or of
        lower degree than d. The leading coefficient of d is inverted (and
        unwrapped) as soon as one step runs. */
    method Div(d: Poly) returns (q: Poly, r: Poly)
      requires |coeffs| >= 1 && |d.coeffs| >= 1
      requires coeffs != [0] && |coeffs| >= |d.coeffs| ==> IsUnit(d.coeffs[|d.coeffs| - 1])
      ensures fresh(q) && fresh(r)
      ensures IsNormalized(q.coeffs) && |r.coeffs| >= 1
      ensures PolySpec.Normalize(PadAdd(Conv(q.coeffs, d.coeffs), r.coeffs)) == PolySpec.Normalize(coeffs)
      ensures r.coeffs == [0] || |r.coeffs| < |d.coeffs|
      ensures IsNormalized(coeffs) ==> IsNormalized(r.coeffs)
    {
      ghost var n := coeffs;
      var dc := d.coeffs;
      q := new Poly.Zero();
      r := new Poly(coeffs);
      DivisionStart(n, dc);
      while !r.IsZero() && r.Degree() >= d.Degree()
        invariant fresh(q) && fresh(r) && q != r
        invariant d.coeffs == dc
        invariant |r.coeffs| >= 1 && IsNormalized(q.coeffs)
        invariant r.coeffs == n || IsNormalized(r.coeffs)
        invariant SameCoeffs(n, PadAdd(Conv(q.coeffs, dc), r.coeffs))
        invariant r.coeffs == n || IsUnit(dc[|dc| - 1])
        decreases |r.coeffs| + (if r.IsZero() then 0 else 1)
      {
        ghost var inv, t := DivStep(d, q, r, n);
      }
      if r.IsZero() {
        assert r.coeffs == [0];
      }
      NormalizeUnique(n, PadAdd(Conv(q.coeffs, dc), r.coeffs));
      if IsNormalized(n) { NormalizedIsFixed(n); }
    }

    /** One pass of the loop in `div`: t = (lead r / lead d) · x^(deg r - deg d) is
        added to q, and d · t is subtracted from r. The pass keeps n == q · d + r,
        keeps q and r normalised, and leaves r zero or shorter. */
    static method DivStep(d: Poly, q: Poly, r: Poly, ghost n: seq<F>) returns (ghost inv: F, ghost mono: seq<F>)
      requires q != r && q != d && r != d
      requires |d.coeffs| >= 1 && |r.coeffs| >= |d.coeffs| && IsUnit(d.coeffs[|d.coeffs| - 1])
      requires |q.coeffs| >= 1 && SameCoeffs(n, PadAdd(Conv(q.coeffs, d.coeffs), r.coeffs))
      modifies q, r
      ensures d.coeffs == old(d.coeffs)
      ensures inv == Invert(old(d.coeffs)[|old(d.coeffs)| - 1]).value
      ensures mono == Monomial(|old(r.coeffs)| - |old(d.coeffs)|, Field.Mul(old(r.coeffs)[|old(r.coeffs)| - 1], inv))
      ensures q.coeffs == PolySpec.Normalize(PadAdd(old(q.coeffs), mono))
      ensures r.coeffs == PolySpec.Normalize(SubAsWritten(old(r.coeffs), Conv(old(d.coeffs), mono)))
      ensures IsNormalized(q.coeffs) && IsNormalized(r.coeffs)
      ensures SameCoeffs(n, PadAdd(Conv(q.coeffs, old(d.coeffs)), r.coeffs))
      ensures r.coeffs == [0] || |r.coeffs| < |old(r.coeffs)|
    {
      ghost var (q0, r0, dc) := (q.coeffs, r.coeffs, d.coeffs);
      var leadR := r.coeffs[|r.coeffs| - 1];
      var leadD := d.coeffs[|d.coeffs| - 1];
      inv := Invert(leadD).value;
      assert Field.Mul(dc[|dc| - 1], inv) == 1;
      assert SameCoeffs(n, PadAdd(Conv(q0, dc), r0));
      var e := |r.coeffs| - |d.coeffs|;
      var t := new Poly.Zero();
      t.Set(e, Field.Mul(leadR, Invert(leadD).value));
      mono := t.coeffs;
      SetOnZero(mono, e, Field.Mul(leadR, inv));
      assert mono == Monomial(|r0| - |dc|, Field.Mul(r0[|r0| - 1], inv));
      q.AddAssign(t);
      var dt := d.MulPoly(t);
      r.SubAssign(dt);
      assert q.coeffs == PolySpec.Normalize(PadAdd(q0, mono));
      assert r.coeffs == PolySpec.Normalize(SubAsWritten(r0, Conv(dc, mono)));
      DivisionStep(n, q0, r0, dc, inv, mono, q.coeffs, r.coeffs);
    }

    /** `lagrange`: the sum over j of y_j times the basis polynomial
        L_j = prod over i != j of (x - x_i) / (x_j - x_i), built factor by factor.
        It passes through every point, and has at most max(1, k) coefficients. */
    static method Lagrange(p: seq<(F, F)>) returns (l: Poly)
      requires forall i, j :: 0 <= i < |p| && 0 <= j < |p| && i != j ==> IsUnit(Sub(p[j].0, p[i].0))
      ensures fresh(l)
      ensures IsNormalized(l.coeffs) && |l.coeffs| <= Max(1, |p|)
      ensures forall t :: 0 <= t < |p| ==> PolySpec.Eval(l.coeffs, p[t].0) == p[t].1
    {
      var k := |p|;
      l := new Poly.Zero();
      forall t | 0 <= t < k
        ensures PolySpec.Eval(l.coeffs, p[t].0) == 0
      {
        EvalConstant(0, p[t].0);
      }
      for j := 0 to k
        invariant fresh(l)
        invariant IsNormalized(l.coeffs) && |l.coeffs| <= Max(1, k)
        invariant forall t :: 0 <= t < k ==> PolySpec.Eval(l.coeffs, p[t].0) == if t < j then p[t].1 else 0
      {
        ghost var before := l.coeffs;
        var lj := Basis(p, j);
        var scaled := lj.MulScalar(p[j].1);
        l.AddAssign(scaled);
        AddBasisTerm(before, lj.coeffs, p[j].1, l.coeffs);
        forall t | 0 <= t < k
          ensures PolySpec.Eval(l.coeffs, p[t].0) == if t < j + 1 then p[t].1 else 0
        {
          MulOne(p[j].1);
          MulZero(p[j].1);
        }
      }
    }

    /** The inner loop of `lagrange`: the basis polynomial L_j, the product over
        i != j of (x - x_i) / (x_j - x_i). It is 1 at x_j, 0 at every other x_t, and
        has degree k - 1. */
    static method Basis(p: seq<(F, F)>, j: nat) returns (lj: Poly)
      requires j < |p|
      requires forall i :: 0 <= i < |p| && i != j ==> IsUnit(Sub(p[j].0, p[i].0))
      ensures fresh(lj)
      ensures |lj.coeffs| == |p|
      ensures PolySpec.Eval(lj.coeffs, p[j].0) == 1
      ensures forall t :: 0 <= t < |p| && t != j ==> PolySpec.Eval(lj.coeffs, p[t].0) == 0
    {
      var k := |p|;
      lj := new Poly.One();
      EvalConstant(1, p[j].0);
      for i := 0 to k
        invariant fresh(lj)
        invariant |lj.coeffs| == 1 + i - (if j < i then 1 else 0)
        invariant PolySpec.Eval(lj.coeffs, p[j].0) == 1
        invariant forall t :: 0 <= t < i && t != j ==> PolySpec.Eval(lj.coeffs, p[t].0) == 0
      {
        if i != j {
          var c := Invert(Sub(p[j].0, p[i].0)).value;
          var factor := new Poly.New([Neg(Field.Mul(c, p[i].0)), c]);
          BasisFactor(lj.coeffs, factor.coeffs, c, p, i, j);
          lj := lj.MulPoly(factor);
        }
      }
    }

    /** `Display`: the text of the polynomial, highest power first. */
    method Display() returns (s: string)
      requires |coeffs| >= 1
      ensures s == PolyDisplay.Display(coeffs)
    {
      var first := true;
      s := "";
      var i := |coeffs|;
      while i > 0
        invariant 0 <= i <= |coeffs|
        invariant s + PolyDisplay.Render(coeffs, i, first) == PolyDisplay.Display(coeffs)
      {
        i := i - 1;
        PolyDisplay.RenderStep(coeffs, i + 1, first);
        if ToDecimal(coeffs[i]) == "0" {
          continue;
        }
        var sign := SignedCoeff(coeffs[i], i, first);
        PolyDisplay.NumericIsCoeffText(coeffs[i], i, first, sign);
        PolyDisplay.Regroup(s, sign, PolyDisplay.PowerText(i), PolyDisplay.Render(coeffs, i, false));
        s := s + sign;
        ghost var written := s;
        if i >= 1 {
          s := s + "x";
        }
        if i >= 2 {
          s := s + ("^" + ToDecimal(i));
          PolyDisplay.Concat3(written, "x", "^" + ToDecimal(i));
        }
        assert s == written + PolyDisplay.PowerText(i);
        first := false;
      }
    }
  }

  /** The sign and coefficient `Display` writes for the coefficient v of x^i:
      "-" and the digits of -v when v has more than 20 digits and -v fewer than
      20 (that is, v >= 10^20 and -v < 10^19), otherwise "+" (except first) and
      the digits of v; the digits "1" are left out on powers of x. */
  method SignedCoeff(v: F, i: nat, first: bool) returns (t: string)
    ensures Neg(v) < Pow10(19) && v >= Pow10(20) ==>
      t == if Neg(v) == 1 && i != 0 then "-" else "-" + ToDecimal(Neg(v))
    ensures !(Neg(v) < Pow10(19) && v >= Pow10(20)) ==>
      t == (if first then "" else "+") + (if i == 0 || v != 1 then ToDecimal(v) else "")
  {
    var n := ToDecimal(v);
    var inv := ToDecimal(Neg(v));
    t := "";
    if |inv| < 20 && |n| > 20 {
      if inv == "1" && i != 0 {
        t := t + "-";
      } else {
        t := t + "-" + inv;
      }
    } else {
      if !first {
        t := t + "+";
      }
      if i == 0 || n != "1" {
        t := t + n;
      }
    }
    assert t == PolyDisplay.CoeffText(v, i, first);
    PolyDisplay.CoeffTextNumeric(v, i, first);
  }

  /** What `Poly::zero()` followed by `set(e, c)` leaves: the monomial c·x^e. */
  lemma SetOnZero(s: seq<F>, e: nat, c: F)
    requires |s| == e + 1 && s[e] == c
    requires forall k: nat :: k != e ==> Coeff(s, k) == Coeff([0], k)
    ensures s == Monomial(e, c)
  {
    forall k | 0 <= k <= e
      ensures s[k] == Monomial(e, c)[k]
    {
      assert Coeff(s, k) == s[k];
    }
  }

  /** Adding y_j · L_j to the running sum adds y_j · L_j(x) to its value at every x,
      and keeps the length within the longer of the two. */
  lemma AddBasisTerm(before: seq<F>, lj: seq<F>, y: F, after: seq<F>)
    requires |before| >= 1 && |lj| >= 1
    requires after == PolySpec.Normalize(PadAdd(before, Scale(lj, y)))
    ensures IsNormalized(after) && |after| <= Max(|before|, |lj|)
    ensures forall x :: PolySpec.Eval(after, x) == Add(PolySpec.Eval(before, x), Field.Mul(PolySpec.Eval(lj, x), y))
  {
    forall x ensures PolySpec.Eval(after, x) == Add(PolySpec.Eval(before, x), Field.Mul(PolySpec.Eval(lj, x), y)) {
      EvalNormalize(PadAdd(before, Scale(lj, y)), x);
      EvalPadAdd(before, Scale(lj, y), x);
      EvalScale(lj, y, x);
    }
  }

  /** The value of the partial basis polynomial times the factor (x - x_i)/(x_j - x_i). */
  lemma EvalBasisFactor(lj: seq<F>, c: F, xi: F, x: F)
    requires |lj| >= 1
    ensures PolySpec.Eval(Conv(lj, [Neg(Field.Mul(c, xi)), c]), x)
         == Field.Mul(PolySpec.Eval(lj, x), Field.Mul(c, Sub(x, xi)))
  {
    EvalConv(lj, [Neg(Field.Mul(c, xi)), c], x);
    EvalTwo(Neg(Field.Mul(c, xi)), c, x);
    MulComm(x, c);
    DistribSub(c, x, xi);
    SubIsAddNeg(Field.Mul(c, x), Field.Mul(c, xi));
    AddComm(Neg(Field.Mul(c, xi)), Field.Mul(c, x));
  }

  /** Multiplying the partial basis polynomial (built from the points before i) by
      the factor (x - x_i) / (x_j - x_i) keeps its value 1 at x_j, keeps it zero
      where it was, makes it zero at x_i, and adds one coefficient. */
  lemma BasisFactor(lj: seq<F>, factor: seq<F>, c: F, p: seq<(F, F)>, i: nat, j: nat)
    requires i < |p| && j < |p| && i != j
    requires Invert(Sub(p[j].0, p[i].0)) == Some(c)
    requires factor == PolySpec.Normalize([Neg(Field.Mul(c, p[i].0)), c])
    requires |lj| >= 1
    requires PolySpec.Eval(lj, p[j].0) == 1
    requires forall t :: 0 <= t < i && t != j ==> PolySpec.Eval(lj, p[t].0) == 0
    ensures |factor| == 2 && |Conv(lj, factor)| == |lj| + 1
    ensures PolySpec.Eval(Conv(lj, factor), p[j].0) == 1
    ensures forall t :: 0 <= t < i + 1 && t != j ==> PolySpec.Eval(Conv(lj, factor), p[t].0) == 0
  {
    var xi, xj := p[i].0, p[j].0;
    InverseNonZero(Sub(xj, xi));
    assert factor == [Neg(Field.Mul(c, xi)), c];
    EvalBasisFactor(lj, c, xi, xj);
    MulComm(c, Sub(xj, xi));
    MulOne(1);
    forall t | 0 <= t < i + 1 && t != j
      ensures PolySpec.Eval(Conv(lj, factor), p[t].0) == 0
    {
      EvalBasisFactor(lj, c, xi, p[t].0);
      if t == i {
        SubSelf(xi);
        MulZero(c);
      }
      MulZero(Field.Mul(c, Sub(p[t].0, xi)));
    }
  }
}
