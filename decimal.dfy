/** Decimal rendering of naturals, as `BigUint::to_str_radix(10)` produces it:
    no sign, no leading zero, "0" for zero. */
module Decimal {

  predicate IsDigit(c: char)
  {
    '0' <= c <= '9'
  }

  function DigitChar(d: nat): (c: char)
    requires d < 10
    ensures IsDigit(c) && (c as int) - ('0' as int) == d
  {
    ((d + '0' as int) as char)
  }

  function Pow10(k: nat): (r: nat)
    ensures r >= 1
  {
    if k == 0 then 1 else 10 * Pow10(k - 1)
  }

  /** A canonical decimal numeral: only digits, and no leading zero unless it is "0". */
  predicate IsCanonical(s: string)
  {
    |s| >= 1 && (forall i :: 0 <= i < |s| ==> IsDigit(s[i])) && (|s| > 1 ==> s[0] != '0')
  }

  /** The decimal numeral of n. */
  function ToDecimal(n: nat): (s: string)
    ensures |s| >= 1
  {
    if n < 10 then [DigitChar(n)]
    else ToDecimal(n / 10) + [DigitChar(n % 10)]
  }

  /** Every rendered numeral is canonical. */
  lemma {:induction false} DecimalIsCanonical(n: nat)
    ensures IsCanonical(ToDecimal(n))
  {
    if n >= 10 {
      DecimalIsCanonical(n / 10);
      var init := ToDecimal(n / 10);
      if |init| == 1 {
        assert init == [DigitChar(n / 10)];
      }
      assert ToDecimal(n)[0] == init[0];
    }
  }

  /** The value a string of digits denotes: the inverse of ToDecimal. */
  function Value(s: string): nat
    requires forall i :: 0 <= i < |s| ==> IsDigit(s[i])
  {
    if s == [] then 0
    else
      assert IsDigit(s[|s| - 1]);
      10 * Value(s[..|s| - 1]) + ((s[|s| - 1] as int) - ('0' as int))
  }

  /** Reading back a rendered numeral gives the number. */
  lemma {:induction false} ValueOfDecimal(n: nat)
    ensures IsCanonical(ToDecimal(n)) && Value(ToDecimal(n)) == n
  {
    DecimalIsCanonical(n);
    if n >= 10 {
      ValueOfDecimal(n / 10);
      var s := ToDecimal(n);
      assert s[..|s| - 1] == ToDecimal(n / 10);
    }
  }

  /** Rendering the value of a canonical numeral gives the numeral back. */
  lemma {:induction false} DecimalOfValue(s: string)
    requires IsCanonical(s)
    ensures ToDecimal(Value(s)) == s
    decreases |s|
  {
    var init, last := s[..|s| - 1], s[|s| - 1];
    var d := (last as int) - ('0' as int);
    if |s| == 1 {
      assert Value(init) == 0;
      assert DigitChar(d) == last;
    } else {
      assert IsCanonical(init) by {
        assert init[0] == s[0];
      }
      DecimalOfValue(init);
      ValueLeadingDigit(init);
      var v := Value(s);
      assert v == 10 * Value(init) + d;
      assert v / 10 == Value(init) && v % 10 == d;
      assert DigitChar(d) == last;
      assert s == init + [last];
    }
  }

  /** A canonical numeral of more than one digit denotes a number of at least 10^(len-1). */
  lemma {:induction false} ValueLeadingDigit(s: string)
    requires IsCanonical(s)
    ensures Value(s) < Pow10(|s|)
    ensures |s| > 1 ==> Pow10(|s| - 1) <= Value(s)
    decreases |s|
  {
    var init := s[..|s| - 1];
    if |s| > 1 {
      assert IsCanonical(init) by {
        assert init[0] == s[0];
      }
      ValueLeadingDigit(init);
    } else {
      assert Value(init) == 0;
    }
  }

  /** The numeral of n has at most k digits exactly when n < 10^k. */
  lemma DecimalLength(n: nat, k: nat)
    requires k >= 1
    ensures |ToDecimal(n)| <= k <==> n < Pow10(k)
  {
    var s := ToDecimal(n);
    ValueOfDecimal(n);
    ValueLeadingDigit(s);
    if |s| <= k {
      PowMonotone(|s|, k);
    } else {
      PowMonotone(k, |s| - 1);
    }
  }

  lemma {:induction false} PowMonotone(i: nat, j: nat)
    requires i <= j
    ensures Pow10(i) <= Pow10(j)
    decreases j
  {
    if i < j { PowMonotone(i, j - 1); }
  }

  /** Only zero renders as "0" and only one as "1". */
  lemma SmallNumerals(n: nat)
    ensures ToDecimal(n) == "0" <==> n == 0
    ensures ToDecimal(n) == "1" <==> n == 1
  {
    DecimalIsCanonical(n);
    if n >= 10 {
      assert |ToDecimal(n)| > 1;
    }
  }
}
