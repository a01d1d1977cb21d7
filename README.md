# a0kzg polynomials in Dafny

This project models the polynomial engine of a0kzg, a KZG polynomial
commitment library over the scalar field of BLS12-381. A `Poly` is a dense
vector of field elements, where index i holds the coefficient of x^i. The
model covers:

- building a polynomial, normalising it, reading and writing coefficients;
- addition, subtraction, multiplication by a polynomial and by a scalar;
- evaluation, and evaluation against a table of precomputed powers;
- long division by a polynomial whose leading coefficient is invertible;
- Lagrange interpolation;
- the text form `Display` writes;
- the division step of `KZG::prove_one`, which shows that p(x) - y is divisible
  by x - z when p(z) = y.

The model is laid out as follows:

- `Field` (field.dfy) holds the prime field: canonical residues modulo the
  group order P, the ring laws, and inversion by the extended Euclidean
  algorithm.
- `Decimal` (decimal.dfy) holds the decimal numerals `BigUint::to_str_radix(10)`
  writes. Display decides a coefficient's sign from the length of these numerals.
- `PolySpec` (poly_spec.dfy) holds the value-level meaning of every operation,
  as functions on `seq<F>`.
- `PolyAlgebra` (poly_algebra.dfy) holds what is proved about those functions.
  This includes evaluation being a ring homomorphism, the division step keeping
  n = q·d + r, and the uniqueness of quotient and remainder.
- `Polynomial` (poly.dfy) holds the `Poly` class. Its methods update
  `coeffs: seq<F>` in place where the source does (`normalize`, `set`, `+=`,
  `-=`) and return fresh objects where the source builds new values. The
  arithmetic methods are proved against the `PolySpec` function for each;
  `Display` is proved against `PolyDisplay.Display`; `Lagrange` and `Basis`
  are proved against the interpolation properties themselves (the value at
  each x_j).
- `PolyDisplay` (display.dfy) holds the text of `Display` and its rules.
- `Kzg` (kzg.dfy) holds the polynomial part of `prove_one`.
- `WorkedCases` (worked_cases.dfy) holds the repository's unit tests, restated as
  lemmas and methods with exact results.

## Model

| member | source | states |
|---|---|---|
| Field.Bezout | src/poly.rs:93 | the triple the extended Euclidean algorithm returns satisfies a·s + b·t = g |
| Field.Invert | src/poly.rs:93 | an inverse, when one is returned, multiplies the value to 1 |
| Field.ZeroIsNotUnit | src/poly.rs:93 | zero has no inverse, so `invert().unwrap()` on a zero leading coefficient panics |
| Field.UnitCancel | src/poly.rs:87-99 | a product with an invertible factor is zero exactly when the other factor is zero |
| Field.AddIsMod | src/poly.rs:137-148 | field addition is addition modulo P |
| Field.SubIsMod | src/poly.rs:157-168 | field subtraction is subtraction modulo P |
| Field.NegIsMod | src/poly.rs:21 | negation is 0 - a modulo P |
| Field.MulAssoc | src/poly.rs:170-183 | multiplication modulo P is associative |
| Field.Distrib | src/poly.rs:170-183 | multiplication distributes over addition |
| Field.PowAdd | src/poly.rs:29-37 | the running power built by `eval` adds exponents: x^m · x^n = x^(m+n) |
| Decimal.ValueOfDecimal | src/poly.rs:112-124 | the decimal text of n is canonical and reads back as n |
| Decimal.DecimalOfValue | src/poly.rs:112-124 | a canonical numeral is the decimal text of the value it denotes |
| Decimal.DecimalLength | src/poly.rs:112-116 | the numeral of n has at most k digits exactly when n < 10^k |
| Decimal.SmallNumerals | src/poly.rs:113-124 | only 0 is written "0" and only 1 is written "1" |
| PolySpec.Normalize | src/poly.rs:56-66 | the result is a prefix of the input with only zeros cut off, normalised, and non-empty when the input is |
| PolyAlgebra.NormalizeKeepsCoeffs | src/poly.rs:56-66 | normalising keeps every coefficient |
| PolyAlgebra.NormalizedIsFixed | src/poly.rs:56-66 | a normalised vector is left unchanged |
| PolyAlgebra.NormalizeIdempotent | src/poly.rs:228-235 | normalising twice is normalising once |
| PolyAlgebra.NormalizeAllZero | src/poly.rs:56-69 | a non-empty vector normalises to `[0]` exactly when every coefficient is zero |
| PolyAlgebra.IsZeroIffAllZero | src/poly.rs:67-69 | a normalised vector is `[0]` exactly when it is all zeros |
| PolyAlgebra.LeadingCoefficient | src/poly.rs:47-49 | a normalised non-zero polynomial has a non-zero coefficient at its degree and none above it |
| PolyAlgebra.NormalizeDropsZeros | src/poly.rs:56-66 | normalising cuts the vector just after its last non-zero coefficient, or keeps one zero |
| PolyAlgebra.NormalizeUnique | src/poly.rs:56-66 | two vectors with the same coefficients normalise to the same vector |
| PolyAlgebra.CoeffPadAdd | src/poly.rs:137-148 | each coefficient of the padded sum is the sum of the coefficients |
| PolyAlgebra.CoeffPadSub | src/poly.rs:157-168 | each coefficient of the padded difference is the difference of the coefficients |
| PolyAlgebra.SubAsWrittenIsDifference | src/poly.rs:157-168 | when rhs is no longer than self, the loop of `sub_assign` computes the true difference |
| PolyAlgebra.SubAsWrittenLongerRhs | src/poly.rs:160-161 | with a longer rhs, 0 - x is computed as x (value 1 at x = 1) instead of -x (value P - 1) |
| PolyAlgebra.EvalConstant | src/poly.rs:29-37 | a constant polynomial evaluates to its constant |
| PolyAlgebra.EvalTwo | src/poly.rs:29-37 | a + b·x evaluates to a + x·b |
| PolyAlgebra.EvalSameCoeffs | src/poly.rs:29-37 | trailing zeros do not change the value |
| PolyAlgebra.EvalNormalize | src/poly.rs:56-66 | normalising does not change the value at any x |
| PolyAlgebra.EvalPadAdd | src/poly.rs:137-148 | the value of a sum is the sum of the values |
| PolyAlgebra.EvalPadSub | src/poly.rs:157-168 | the value of a padded difference is the difference of the values |
| PolyAlgebra.EvalScale | src/poly.rs:186-195 | scaling by s multiplies the value by s, the zero case included |
| PolyAlgebra.EvalAddConstant | src/poly.rs:150-154 | adding s to coefficient 0 adds s to the value |
| PolyAlgebra.CoeffConv | src/poly.rs:170-183 | coefficient k of the product is the sum of a_i · b_(k-i) |
| PolyAlgebra.SumToOutside | src/poly.rs:170-183 | the product has no coefficient past index \|a\| + \|b\| - 2 |
| PolyAlgebra.ConvLinearLeft | src/poly.rs:170-183 | multiplication distributes over addition on the left |
| PolyAlgebra.EvalConv | src/poly.rs:170-183 | the value of a product is the product of the values |
| PolyAlgebra.ConvMonomialRight | src/poly.rs:170-183 | multiplying by c·x^e shifts the coefficients up by e and scales them by c |
| PolyAlgebra.ConvMonomialLeft | src/poly.rs:170-183 | the same with the monomial on the left |
| PolyAlgebra.ConvZeroLeft | src/poly.rs:170-183 | zero times anything has only zero coefficients, though it is not normalised |
| PolyAlgebra.DivisionStart | src/poly.rs:88-89 | q = 0, r = self satisfies self = q·d + r |
| PolyAlgebra.DivisionStepKeepsLaw | src/poly.rs:90-97 | adding t to q and subtracting d·t from r keeps self = q·d + r |
| PolyAlgebra.DivisionStepShrinks | src/poly.rs:90-97 | subtracting d·t, with t = (lead r / lead d)·x^(deg r - deg d), cancels the leading coefficient of r |
| PolyAlgebra.DivisionStep | src/poly.rs:90-97 | one pass keeps q and r normalised, keeps the law, and leaves r zero or shorter |
| PolyAlgebra.ConvTop | src/poly.rs:87-99 | the top coefficient of a·d is lead a · lead d |
| PolyAlgebra.DivisionLawCoeffs | src/poly.rs:87-99 | the normalised division law holds coefficient by coefficient |
| PolyAlgebra.QuotientsAgree | src/poly.rs:87-99 | when the divisor's leading coefficient is invertible, two quotients with in-degree remainders have the same coefficients |
| PolyAlgebra.DivisionUnique | src/poly.rs:87-99 | normalised quotient and remainder are unique: any two results of `div` are equal |
| PolyAlgebra.DotOfPowers | src/poly.rs:39-45 | with xp_i = x^i, the sum of xp_i · c_i is the value at x (the intended meaning of `eval_with_pows`) |
| PolyAlgebra.EvalWithPowsOffByConstant | src/poly.rs:39-45 | `eval_with_pows` returns c_0 + c(x), equal to c(x) exactly when c_0 = 0 |
| Polynomial.Poly.constructor | src/poly.rs:4 | the tuple constructor keeps the vector as given |
| Polynomial.Poly.New | src/poly.rs:7-11 | `new` normalises its vector |
| Polynomial.Poly.From | src/poly.rs:50-55 | `from` keeps every u64 value as a coefficient and normalises |
| Polynomial.Poly.Zero | src/poly.rs:70-72 | zero is `[0]` |
| Polynomial.Poly.One | src/poly.rs:73-75 | one is `[1]` |
| Polynomial.Poly.Normalize | src/poly.rs:56-66 | the new vector is the old one normalised |
| Polynomial.Poly.Degree | src/poly.rs:47-49 | the degree is len − 1 whether or not the vector is normalised; no coefficient past it is non-zero, and for a normalised non-zero polynomial the one at it is non-zero |
| Polynomial.Poly.Get | src/poly.rs:83-85 | `get(i)` is present exactly when i is in range, and then is coefficient i |
| Polynomial.Poly.Set | src/poly.rs:76-81 | `set(i, v)` grows the vector to i + 1 when needed, writes v at i and changes no other coefficient |
| Polynomial.Poly.Eval | src/poly.rs:29-37 | `eval` returns the value of the polynomial at x |
| Polynomial.Poly.EvalWithPows | src/poly.rs:39-45 | `eval_with_pows` returns c_0 plus the sum of xp_i · c_i over every i |
| Polynomial.Poly.AddAssign | src/poly.rs:137-148 | `+=` leaves the normalised padded sum |
| Polynomial.Poly.AddAssignScalar | src/poly.rs:150-154 | `+= s` adds s to coefficient 0 and changes nothing else |
| Polynomial.Poly.SubAssign | src/poly.rs:157-168 | `-=` leaves the normalised result of the loop as written, which is the difference when rhs is no longer |
| Polynomial.Poly.MulPoly | src/poly.rs:170-183 | the product is the full convolution, of length \|a\| + \|b\| - 1, not normalised |
| Polynomial.Poly.MulScalar | src/poly.rs:186-195 | `* s` is `[0]` when s is zero, otherwise every coefficient times s |
| Polynomial.Poly.Div | src/poly.rs:87-99 | q is normalised, q·d + r equals self once normalised, r is zero or shorter than d, and r is normalised when self is |
| Polynomial.Poly.DivStep | src/poly.rs:90-97 | one loop pass adds the monomial t to q, subtracts d·t from r, keeps the division law and shrinks r |
| Polynomial.Poly.Lagrange | src/poly.rs:13-27 | the interpolant passes through every point, is normalised, and has at most max(1, k) coefficients |
| Polynomial.Poly.Basis | src/poly.rs:17-23 | L_j is 1 at x_j, 0 at every other x_t, and has k coefficients |
| Polynomial.Poly.Display | src/poly.rs:101-136 | the text written is `PolyDisplay.Display` of the coefficients |
| Polynomial.SignedCoeff | src/poly.rs:112-124 | a value whose negation has under 20 digits while it has over 20 is written as "-" and its negation, with the 1 dropped off a non-constant term; any other value is written as "+" (except on the first term) and its digits, with the 1 dropped off a non-constant term |
| PolyDisplay.CoeffTextNumeric | src/poly.rs:112-124 | the string-length test on the decimal texts is the numeric test -v < 10^19 and v >= 10^20, and the "1" test is v == 1 |
| PolyDisplay.NumericIsCoeffText | src/poly.rs:112-124 | a text that follows the numeric rule is the coefficient text of `Display` |
| Polynomial.Poly.IsZeroMeansAllZero | src/poly.rs:67-69 | `is_zero` implies every coefficient is zero, and for a normalised vector every coefficient zero implies `is_zero` |
| Polynomial.SetOnZero | src/poly.rs:92-93 | `zero()` followed by `set(e, c)` is the monomial c·x^e |
| Polynomial.AddBasisTerm | src/poly.rs:24 | adding y_j · L_j adds y_j · L_j(x) to the value at every x, within the longer length |
| Polynomial.EvalBasisFactor | src/poly.rs:20-21 | the factor (x - x_i)·c multiplies the value by c·(x - x_i) |
| Polynomial.BasisFactor | src/poly.rs:18-23 | one factor keeps L_j(x_j) = 1, zeroes L_j at x_i, and adds one coefficient |
| PolyDisplay.LooksNegativeIff | src/poly.rs:112-116 | a coefficient is written negative exactly when it is at least 10^20 and its negation is below 10^19 |
| PolyDisplay.TermNonEmpty | src/poly.rs:112-131 | every written term is non-empty |
| PolyDisplay.RenderEmptyIffZero | src/poly.rs:101-136 | nothing is written exactly when every coefficient is zero |
| PolyDisplay.DisplayEmptyIffZero | src/poly.rs:101-136 | the text is empty exactly for the all-zero polynomial |
| PolyDisplay.RenderNoLeadingPlus | src/poly.rs:119-121 | the text never starts with "+" |
| PolyDisplay.PositiveTerm | src/poly.rs:118-124 | a coefficient below 10^20 is written as its digits, "1" dropped on powers of x |
| PolyDisplay.NegativeTerm | src/poly.rs:112-117 | the negation of v < 10^19 is written "-v", just "-" for -1 on a power of x |
| Kzg.EvalLinear | src/kzg.rs:57 | `Poly::new(vec![-z, 1])` evaluates to x - z |
| Kzg.RootDivision | src/kzg.rs:54-58 | dividing by x - z gives n(x) = q(x)·(x - z) + r(x), and r is zero exactly when n(z) = 0 |
| Kzg.ProveOne | src/kzg.rs:43-58 | the interpolant passes through (z, y), the remainder of (p - y)/(x - z) is zero, and q(x)·(x - z) = p(x) - y |
| WorkedCases.AddCases | src/poly.rs:197-210 | the sums of the addition test |
| WorkedCases.SubCases | src/poly.rs:212-221 | the differences of the subtraction test |
| WorkedCases.MulCase | src/poly.rs:223-226 | (5 + 10x^2 + 6x^3)(1 + 2x + 4x^2) = 5 + 10x + 30x^2 + 26x^3 + 52x^4 + 24x^5 |
| WorkedCases.NormalizeCase | src/poly.rs:228-235 | `[1,0,0,0]` normalises to `[1]`, again to `[1]` |
| WorkedCases.GetSetCase | src/poly.rs:237-243 | `set(2, 7)` on zero gives `[0,0,7]` and `get(2)` is 7 |
| WorkedCases.DivRoundTrip | src/poly.rs:248-259 | q·d + r restores a normalised dividend exactly, as the division test checks |
| WorkedCases.DivCase | src/poly.rs:255 | (1 + x)^2 / (1 + x) is 1 + x with remainder zero |
| WorkedCases.EvalCase | src/poly.rs:262-265 | 1 + 2x + x^2 at 2 is 9 |
| WorkedCases.LagrangeMinimal | src/poly.rs:280-289 | through (1, 1) and (2, 2) the interpolant is x |
| WorkedCases.DisplayQuadratic | src/poly.rs:267-278 | quadratics with digit coefficients print as `x^2+2x+1`, `x^2+1`, `x^2`, `2x^2` do |
| WorkedCases.DisplayNegativeConstant | src/poly.rs:267-278 | -v prints as "-v" |
| WorkedCases.DisplayNegativeLinear | src/poly.rs:267-278 | a negative linear polynomial prints as `-4x` and `-x-2` do |
| WorkedCases.DisplayLinearMinus | src/poly.rs:267-278 | a positive x term with a negative constant prints as `x-2` does |

## Left out

- Primality of P is not proved. So "every non-zero value is invertible" is not available, and callers state `IsUnit` of the leading coefficient of the divisor and of the point differences (the source panics in `unwrap` otherwise).
- `Scalar` internals (Montgomery form, byte encodings) are not modelled. A scalar is its canonical residue, and its decimal text is that of the residue.
- Polynomial.Poly.MulPoly: requires both operands non-empty. The source panics only when both are empty (the length |a| + |b| - 1 underflows at src/poly.rs:174); with one empty operand it returns |other| - 1 zeros. The callers in the model (the division step and `Lagrange`) pass non-empty operands.
- Polynomial.Poly.Div: requires a non-empty dividend and divisor. On an empty vector the source panics in `degree` (the `len() - 1` underflow at src/poly.rs:48) once the loop guard reaches it. With the dividend `[0]` the guard stops before reading an empty divisor, and the source returns `([0], [0])`; the requires excludes that input. Every caller passes a non-empty divisor (`Poly::new(vec![-z, 1])` at src/kzg.rs:57).
- Polynomial.Poly.Degree, Polynomial.Poly.AddAssignScalar and Polynomial.Poly.Display: require a non-empty vector. The source panics on an empty one: `len() - 1` underflows at src/poly.rs:48 (reached from `Display` at src/poly.rs:104), and `self.0[0]` is out of range at src/poly.rs:152.
- Polynomial.Poly.Eval and Polynomial.Poly.EvalWithPows: require a non-empty vector and a power table at least as long. The source panics on index out of range otherwise.
- Polynomial.Poly.Lagrange: requires that point differences be invertible, i.e. distinct x values. With a repeated x the source panics in `unwrap`.
- The group side of `prove_one` is not modelled: the commitment (src/kzg.rs:50-52), the proof pi (src/kzg.rs:60-62) and `verify_one`'s pairing check (src/kzg.rs:67-78). It is elliptic-curve arithmetic outside the polynomial core.
- `trusted_setup` and `rand_scalars` (src/kzg.rs:16-41) are not modelled: they draw randomness. Kzg.ProveOne takes the random second point (rx, ry) as parameters instead.
- The multi-point proofs, verkle.rs, main.rs, lib.rs and the benches are not part of this model.
- Polynomial.Poly.Lagrange: the multi-point test (src/poly.rs:291-301) is covered by the general contract, not by a worked case.
- WorkedCases.DisplayQuadratic, WorkedCases.DisplayNegativeLinear and WorkedCases.DisplayLinearMinus: the print test's strings are covered by lemmas over arbitrary single-digit coefficients, not by a call of `Display` on each concrete polynomial.
- Polynomial.Poly.Div: the dividend need not be normalised in the contract, but the law is stated up to normalisation, as `+=` compares it.

## Findings

| source | as written | input that shows it | evidently intended | confidence | as-written member | corrected member |
|---|---|---|---|---|---|---|
| src/poly.rs:160-161 | where only rhs has a coefficient, `-=` copies it without negating it | `[0] -= [0, 1]` gives x, whose value at 1 is 1, instead of -x | push the negated coefficient, giving the padded difference | not executed | PolyAlgebra.SubAsWrittenLongerRhs | PolyAlgebra.EvalPadSub |
| src/poly.rs:39-45 | `eval_with_pows` starts from c_0 and then adds xp_0 · c_0 again | c = `[1]`, xp = `[1]` gives 2 instead of 1 | start the sum from zero, giving c(x) | not executed | PolyAlgebra.EvalWithPowsOffByConstant | PolyAlgebra.DotOfPowers |
