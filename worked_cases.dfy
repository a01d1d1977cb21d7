/** The cases the repository checks for its polynomial type (`src/poly.rs`,
    the `test_*` functions), stated about the model. */
module WorkedCases {
  import opened Wrappers
  import opened Field
  import opened Decimal
  import opened PolySpec
  import opened PolyAlgebra
  import opened PolyDisplay
  import Polynomial

  /** Sums of equal and of unequal lengths; the longer operand's tail is kept. */
  lemma AddCases()
    ensures Normalize(PadAdd([1, 2, 3], [1, 2, 3])) == [2, 4, 6]
    ensures Normalize(PadAdd([1, 2, 3], [1, 2, 3, 4, 5])) == [2, 4, 6, 4, 5]
    ensures Normalize(PadAdd([1, 2, 3, 4, 6], [1, 2, 3])) == [2, 4, 6, 4, 6]
  {
    assert PadAdd([1, 2, 3], [1, 2, 3]) == [2, 4, 6];
    assert PadAdd([1, 2, 3], [1, 2, 3, 4, 5]) == [2, 4, 6, 4, 5];
    assert PadAdd([1, 2, 3, 4, 6], [1, 2, 3]) == [2, 4, 6, 4, 6];
  }

  /** A polynomial minus itself is `[0]`; removing the low terms keeps x^2. */
  lemma SubCases()
    ensures Normalize(SubAsWritten([1, 2, 3], [1, 2, 3])) == [0]
    ensures Normalize(SubAsWritten([1, 2, 3], [1, 2])) == [0, 0, 3]
  {
    assert SubAsWritten([1, 2, 3], [1, 2, 3]) == [0, 0, 0];
    assert SubAsWritten([1, 2, 3], [1, 2]) == [0, 0, 3];
  }

  /** (5 + 10x^2 + 6x^3)(1 + 2x + 4x^2), multiplied as the repository does. */
  method MulCase() returns (product: Polynomial.Poly)
    ensures product.coeffs == [5, 10, 30, 26, 52, 24]
  {
    var p := new Polynomial.Poly([5, 0, 10, 6]);
    var q := new Polynomial.Poly([1, 2, 4]);
    product := p.MulPoly(q);
    ghost var a, b := p.coeffs, q.coeffs;
    assert SumTo(a, b, 0, 1) == 5;
    assert SumTo(a, b, 0, 2) == 5;
    assert SumTo(a, b, 0, 3) == 5;
    assert SumTo(a, b, 0, 4) == 5;
    assert SumTo(a, b, 1, 1) == 10;
    assert SumTo(a, b, 1, 2) == 10;
    assert SumTo(a, b, 1, 3) == 10;
    assert SumTo(a, b, 1, 4) == 10;
    assert SumTo(a, b, 2, 1) == 20;
    assert SumTo(a, b, 2, 2) == 20;
    assert SumTo(a, b, 2, 3) == 30;
    assert SumTo(a, b, 2, 4) == 30;
    assert SumTo(a, b, 3, 1) == 0;
    assert SumTo(a, b, 3, 2) == 0;
    assert SumTo(a, b, 3, 3) == 20;
    assert SumTo(a, b, 3, 4) == 26;
    assert SumTo(a, b, 4, 1) == 0;
    assert SumTo(a, b, 4, 2) == 0;
    assert SumTo(a, b, 4, 3) == 40;
    assert SumTo(a, b, 4, 4) == 52;
    assert SumTo(a, b, 5, 1) == 0;
    assert SumTo(a, b, 5, 2) == 0;
    assert SumTo(a, b, 5, 3) == 0;
    assert SumTo(a, b, 5, 4) == 24;
  }

  /** Trailing zeros go, and normalising again changes nothing. */
  lemma NormalizeCase()
    ensures Normalize([1, 0, 0, 0]) == [1]
    ensures Normalize(Normalize([1, 0, 0, 0])) == [1]
  {
    NormalizeDropsZeros([1, 0, 0, 0], 1);
  }

  /** 1 + 2x + x^2 at x = 2. */
  lemma EvalCase()
    ensures Eval([1, 2, 1], 2) == 9
  {
    var c: seq<F> := [1, 2, 1];
    assert Pow(2, 1) == 2 && Pow(2, 2) == 4;
    assert EvalUpTo(c, 1, 2) == 1 && EvalUpTo(c, 2, 2) == 5 && EvalUpTo(c, 3, 2) == 9;
  }

  /** `set(2, 7)` on the zero polynomial pads it to three coefficients. */
  method GetSetCase() returns (p: Polynomial.Poly)
    ensures p.coeffs == [0, 0, 7]
    ensures p.Get(2) == Some(7)
  {
    p := new Polynomial.Poly.Zero();
    p.Set(2, 7);
    assert Coeff(p.coeffs, 0) == 0 && Coeff(p.coeffs, 1) == 0;
    assert p.coeffs == [0, 0, 7];
  }

  /** The check the repository makes for every division: multiplying the
      quotient back by the divisor and adding the remainder gives the dividend. */
  method DivRoundTrip(n: Polynomial.Poly, d: Polynomial.Poly) returns (n2: Polynomial.Poly)
    requires IsNormalized(n.coeffs) && |d.coeffs| >= 1 && IsUnit(d.coeffs[|d.coeffs| - 1])
    ensures n2.coeffs == n.coeffs
  {
    var q, r := n.Div(d);
    n2 := q.MulPoly(d);
    n2.AddAssign(r);
    NormalizedIsFixed(n.coeffs);
  }

  /** (1 + x)^2 / (1 + x) is 1 + x with nothing left over. */
  method DivCase() returns (q: Polynomial.Poly, r: Polynomial.Poly)
    ensures q.coeffs == [1, 1] && r.coeffs == [0]
  {
    var n := new Polynomial.Poly([1, 2, 1]);
    var d := new Polynomial.Poly([1, 1]);
    OneIsUnit();
    q, r := n.Div(d);
    assert Conv([1, 1], [1, 1]) == [1, 2, 1] by {
      var a: seq<F> := [1, 1];
      assert SumTo(a, a, 0, 2) == 1;
      assert SumTo(a, a, 1, 2) == 2;
      assert SumTo(a, a, 2, 2) == 1;
    }
    assert PadAdd([1, 2, 1], [0]) == [1, 2, 1];
    DivisionUnique([1, 2, 1], [1, 1], q.coeffs, r.coeffs, [1, 1], [0]);
  }

  /** Through (1, 1) and (2, 2) the interpolant is x. */
  method LagrangeMinimal() returns (l: Polynomial.Poly)
    ensures l.coeffs == [0, 1]
  {
    OneIsUnit();
    assert ExtGcd(0, 1) == (1, 0, 1);
    assert ExtGcd(1, P - 1) == (1, 1, 0);
    assert ExtGcd(P - 1, P) == (1, -1, 1);
    assert Invert(P - 1) == Some(P - 1);
    var points: seq<(F, F)> := [(1, 1), (2, 2)];
    assert Sub(points[0].0, points[1].0) == P - 1 && Sub(points[1].0, points[0].0) == 1;
    l := Polynomial.Poly.Lagrange(points);
    var c := l.coeffs;
    assert Eval(c, points[0].0) == points[0].1;
    assert Eval(c, points[1].0) == points[1].1;
    if |c| == 1 {
      assert c == [c[0]];
      EvalConstant(c[0], 1);
      EvalConstant(c[0], 2);
      assert false;
    }
    assert c == [c[0], c[1]];
    EvalTwo(c[0], c[1], 1);
    EvalTwo(c[0], c[1], 2);
    MulOne(c[1]);
  }

  /** The quadratics the repository prints (`x^2+2x+1`, `x^2+1`, `x^2`, `2x^2`):
      with digits as coefficients, the leading "1" is dropped, zero terms vanish
      and every later term is joined by "+". */
  lemma DisplayQuadratic(c: F, b: F, a: F)
    requires 1 <= a < 10 && b < 10 && c < 10
    ensures Display([c, b, a]) ==
      (if a == 1 then "" else Digit(a)) + "x^2"
      + (if b == 0 then "" else "+" + (if b == 1 then "" else Digit(b)) + "x")
      + (if c == 0 then "" else "+" + Digit(c))
  {
    QuadraticTerms([c, b, a], c, b, a);
  }

  lemma QuadraticTerms(s: seq<F>, c: F, b: F, a: F)
    requires s == [c, b, a] && 1 <= a < 10 && b < 10 && c < 10
    ensures Render(s, 3, true) ==
      (if a == 1 then "" else Digit(a)) + "x^2"
      + (if b == 0 then "" else "+" + (if b == 1 then "" else Digit(b)) + "x")
      + (if c == 0 then "" else "+" + Digit(c))
  {
    var lead := if a == 1 then "" else Digit(a);
    var mid := if b == 0 then "" else "+" + (if b == 1 then "" else Digit(b)) + "x";
    var low := if c == 0 then "" else "+" + Digit(c);
    var rest := Render(s, 2, false);
    assert rest == mid + low by {
      LowTerms(s, b, c);
    }
    assert Render(s, 3, true) == lead + "x^2" + rest by {
      RenderPositive(s, 3, true);
      assert PowerText(2) == "x^2";
      assert "" + lead == lead;
    }
    Concat3(lead + "x^2", mid, low);
  }

  /** The terms below x^2 of a quadratic with digit coefficients. */
  lemma LowTerms(s: seq<F>, b: F, c: F)
    requires |s| == 3 && s[0] == c < 10 && s[1] == b < 10
    ensures Render(s, 2, false) ==
      (if b == 0 then "" else "+" + (if b == 1 then "" else Digit(b)) + "x")
      + (if c == 0 then "" else "+" + Digit(c))
  {
    var low := if c == 0 then "" else "+" + Digit(c);
    if c == 0 { RenderZero(s, 1, false); } else { RenderPositive(s, 1, false); }
    assert Render(s, 1, false) == low;
    if b == 0 { RenderZero(s, 2, false); } else { RenderPositive(s, 2, false); }
    assert PowerText(1) == "x";
  }

  /** A negative constant is printed with a minus sign: `-4` for -4. */
  lemma DisplayNegativeConstant(v: F)
    requires 1 <= v < Pow10(19)
    ensures Display([Neg(v)]) == "-" + ToDecimal(v)
  {
    NegativeTerm(v, 0, true);
    SmallNumerals(Neg(v));
    RenderStep([Neg(v)], 1, true);
  }

  /** Linear polynomials with a negative leading coefficient (`-4x`, `-x-2`):
      "-1" before x is written as "-" alone. */
  lemma DisplayNegativeLinear(b: F, a: F)
    requires 1 <= a < 10 && b < 10
    ensures Display([Neg(b), Neg(a)]) ==
      (if a == 1 then "-" else "-" + Digit(a)) + "x" + (if b == 0 then "" else "-" + Digit(b))
  {
    NegativeLinearTerms([Neg(b), Neg(a)], b, a);
  }

  lemma NegativeLinearTerms(s: seq<F>, b: F, a: F)
    requires s == [Neg(b), Neg(a)] && 1 <= a < 10 && b < 10
    ensures Render(s, 2, true) ==
      (if a == 1 then "-" else "-" + Digit(a)) + "x" + (if b == 0 then "" else "-" + Digit(b))
  {
    if b == 0 { RenderZero(s, 1, false); } else { RenderNegative(s, 1, false, b); }
    assert Render(s, 1, false) == (if b == 0 then "" else "-" + Digit(b));
    RenderNegative(s, 2, true, a);
    assert PowerText(1) == "x";
  }

  /** A positive leading coefficient followed by a negative constant (`x-2`). */
  lemma DisplayLinearMinus(b: F, a: F)
    requires 1 <= a < 10 && 1 <= b < 10
    ensures Display([Neg(b), a]) == (if a == 1 then "" else Digit(a)) + "x-" + Digit(b)
  {
    LinearMinusTerms([Neg(b), a], b, a);
  }

  lemma LinearMinusTerms(s: seq<F>, b: F, a: F)
    requires s == [Neg(b), a] && 1 <= a < 10 && 1 <= b < 10
    ensures Render(s, 2, true) == (if a == 1 then "" else Digit(a)) + "x-" + Digit(b)
  {
    var lead := if a == 1 then "" else Digit(a);
    var low := Render(s, 1, false);
    assert low == "-" + Digit(b) by {
      RenderNegative(s, 1, false, b);
    }
    assert Render(s, 2, true) == lead + "x" + low by {
      RenderPositive(s, 2, true);
      assert PowerText(1) == "x";
      assert "" + lead == lead;
    }
    Concat3(lead + "x", "-", Digit(b));
    assert lead + "x" + "-" == lead + "x-";
  }
}
