/** The text `impl Display for Poly` writes: terms from the highest power down,
    zero coefficients skipped, a coefficient that reads as a small negative number
    written with a minus sign, unit coefficients left out on powers of x. */
module PolyDisplay {
  import opened Field
  import opened Decimal
  import opened PolySpec

  /** A coefficient is written as negative when its negation has fewer than 20
      digits while the coefficient itself has more than 20. */
  predicate LooksNegative(v: F)
  {
    |ToDecimal(Neg(v))| < 20 && |ToDecimal(v)| > 20
  }

  /** The sign and coefficient written for the non-zero coefficient v of x^i. */
  function CoeffText(v: F, i: nat, first: bool): string
  {
    var n := ToDecimal(v);
    var inv := ToDecimal(Neg(v));
    if |inv| < 20 && |n| > 20 then
      (if inv == "1" && i != 0 then "-" else "-" + inv)
    else
      (if first then "" else "+") + (if i == 0 || n != "1" then n else "")
  }

  /** The power of x written after a coefficient. */
  function PowerText(i: nat): string
  {
    (if i >= 1 then "x" else "") + (if i >= 2 then "^" + ToDecimal(i) else "")
  }

  /** The text of coefficients n-1 down to 0; first holds while nothing has been written. */
  function Render(c: seq<F>, n: nat, first: bool): string
    requires n <= |c|
  {
    if n == 0 then ""
    else if ToDecimal(c[n - 1]) == "0" then Render(c, n - 1, first)
    else CoeffText(c[n - 1], n - 1, first) + PowerText(n - 1) + Render(c, n - 1, false)
  }

  /** Render(c, n, first) with the coefficient of x^(n-1) written out. */
  lemma RenderStep(c: seq<F>, n: nat, first: bool)
    requires 1 <= n <= |c|
    ensures ToDecimal(c[n - 1]) == "0" ==> Render(c, n, first) == Render(c, n - 1, first)
    ensures ToDecimal(c[n - 1]) != "0" ==>
      Render(c, n, first) == CoeffText(c[n - 1], n - 1, first) + PowerText(n - 1) + Render(c, n - 1, false)
  {}

  /** Regrouping the text written so far, the next term and the rest. */
  lemma Regroup(s: string, a: string, b: string, rest: string)
    ensures s + (a + b + rest) == (s + a + b) + rest
  {}

  function Display(c: seq<F>): string
  {
    Render(c, |c|, true)
  }

  /** Which coefficients read as negative: exactly those v with v >= 10^20 whose
      negation P - v is below 10^19. */
  lemma LooksNegativeIff(v: F)
    ensures LooksNegative(v) <==> Neg(v) < Pow10(19) && v >= Pow10(20)
  {
    DecimalLength(Neg(v), 19);
    DecimalLength(v, 20);
  }

  /** The text written for a coefficient, in terms of its value: the negative
      form when v >= 10^20 and its negation is below 10^19, the plain digits
      otherwise, with "1" dropped on powers of x in either form. */
  lemma CoeffTextNumeric(v: F, i: nat, first: bool)
    ensures CoeffText(v, i, first) ==
      if Neg(v) < Pow10(19) && v >= Pow10(20) then
        (if Neg(v) == 1 && i != 0 then "-" else "-" + ToDecimal(Neg(v)))
      else
        (if first then "" else "+") + (if i == 0 || v != 1 then ToDecimal(v) else "")
  {
    LooksNegativeIff(v);
    SmallNumerals(v);
    SmallNumerals(Neg(v));
  }

  /** Text given by the value-level description is the text CoeffText writes. */
  lemma NumericIsCoeffText(v: F, i: nat, first: bool, t: string)
    requires Neg(v) < Pow10(19) && v >= Pow10(20) ==>
      t == if Neg(v) == 1 && i != 0 then "-" else "-" + ToDecimal(Neg(v))
    requires !(Neg(v) < Pow10(19) && v >= Pow10(20)) ==>
      t == (if first then "" else "+") + (if i == 0 || v != 1 then ToDecimal(v) else "")
    ensures t == CoeffText(v, i, first)
  {
    CoeffTextNumeric(v, i, first);
  }

  /** Every written term is non-empty. */
  lemma TermNonEmpty(v: F, i: nat, first: bool)
    requires v != 0
    ensures |CoeffText(v, i, first) + PowerText(i)| >= 1
  {
    SmallNumerals(v);
  }

  /** Nothing is written exactly when every coefficient is zero; so `[0]` prints
      as the empty string. */
  lemma {:induction false} RenderEmptyIffZero(c: seq<F>, n: nat, first: bool)
    requires n <= |c|
    ensures Render(c, n, first) == "" <==> forall i :: 0 <= i < n ==> c[i] == 0
  {
    if n > 0 {
      var v := c[n - 1];
      RenderStep(c, n, first);
      SmallNumerals(v);
      if v == 0 {
        RenderEmptyIffZero(c, n - 1, first);
      } else {
        TermNonEmpty(v, n - 1, first);
      }
    }
  }

  lemma DisplayEmptyIffZero(c: seq<F>)
    ensures Display(c) == "" <==> AllZero(c)
  {
    RenderEmptyIffZero(c, |c|, true);
  }

  /** "+" only separates terms: the text never starts with it. */
  lemma {:induction false} RenderNoLeadingPlus(c: seq<F>, n: nat)
    requires n <= |c|
    ensures Render(c, n, true) != "" ==> Render(c, n, true)[0] != '+'
  {
    if n > 0 {
      var v := c[n - 1];
      if ToDecimal(v) == "0" {
        RenderNoLeadingPlus(c, n - 1);
      } else {
        SmallNumerals(v);
        var head := CoeffText(v, n - 1, true) + PowerText(n - 1);
        TermNonEmpty(v, n - 1, true);
        var n10 := ToDecimal(v);
        DecimalIsCanonical(v);
        assert IsDigit(n10[0]);
        assert head[0] != '+';
        assert Render(c, n, true)[0] == head[0];
      }
    }
  }

  /** The digits 10^20 and 10^19 against which `fmt` compares lengths. */
  lemma Thresholds()
    ensures Pow10(19) == 10_000_000_000_000_000_000
    ensures Pow10(20) == 100_000_000_000_000_000_000
  {
    assert Pow10(5) == 100_000;
    assert Pow10(10) == 10_000_000_000;
    assert Pow10(15) == 1_000_000_000_000_000;
  }

  /** A coefficient below 10^20 is written as its digits, "1" dropped on powers of x. */
  lemma PositiveTerm(v: F, i: nat, first: bool)
    requires 1 <= v < Pow10(20)
    ensures CoeffText(v, i, first) ==
      (if first then "" else "+") + (if i == 0 || v != 1 then ToDecimal(v) else "")
  {
    LooksNegativeIff(v);
    SmallNumerals(v);
  }

  /** The negation of a value v below 10^19 is written as "-v", just "-" for -1
      on a power of x. */
  lemma NegativeTerm(v: F, i: nat, first: bool)
    requires 1 <= v < Pow10(19)
    ensures CoeffText(Neg(v), i, first) ==
      (if v == 1 && i != 0 then "-" else "-" + ToDecimal(v))
  {
    Thresholds();
    LooksNegativeIff(Neg(v));
    SmallNumerals(v);
  }

  /** The digit string of a single-digit value. */
  function Digit(v: nat): (s: string)
    requires v < 10
    ensures s == ToDecimal(v)
  {
    [DigitChar(v)]
  }

  /** One step of the rendering over a zero coefficient, a small positive one
      and the negation of a small one. */
  lemma RenderZero(s: seq<F>, n: nat, first: bool)
    requires 1 <= n <= |s| && s[n - 1] == 0
    ensures Render(s, n, first) == Render(s, n - 1, first)
  {
    SmallNumerals(0);
    RenderStep(s, n, first);
  }

  lemma RenderPositive(s: seq<F>, n: nat, first: bool)
    requires 1 <= n <= |s| && 1 <= s[n - 1] < 10
    ensures Render(s, n, first) ==
      (if first then "" else "+") + (if n == 1 || s[n - 1] != 1 then Digit(s[n - 1]) else "")
      + PowerText(n - 1) + Render(s, n - 1, false)
  {
    SmallNumerals(s[n - 1]);
    RenderStep(s, n, first);
    Thresholds();
    PositiveTerm(s[n - 1], n - 1, first);
  }

  lemma RenderNegative(s: seq<F>, n: nat, first: bool, v: F)
    requires 1 <= n <= |s| && 1 <= v < 10 && s[n - 1] == Neg(v)
    ensures Render(s, n, first) ==
      (if v == 1 && n != 1 then "-" else "-" + Digit(v))
      + PowerText(n - 1) + Render(s, n - 1, false)
  {
    SmallNumerals(Neg(v));
    RenderStep(s, n, first);
    Thresholds();
    NegativeTerm(v, n - 1, first);
  }

  lemma Concat3(x: string, y: string, z: string)
    ensures x + (y + z) == x + y + z
  {}
}
