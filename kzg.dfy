/** The polynomial step of `KZG::prove_one`: interpolate the evaluation point
    (z, y) together with a second point, subtract y, and divide by x - z. The
    commitment and the proof are group elements built from the coefficients;
    only the coefficient arithmetic is modelled here. */
module Kzg {
  import opened Field
  import opened PolySpec
  import opened PolyAlgebra
  import opened Polynomial

  /** The divisor `Poly::new(vec![-z, 1])` is x - z. */
  lemma EvalLinear(z: F, x: F)
    ensures PolySpec.Eval([Neg(z), 1], x) == Sub(x, z)
  {
    EvalTwo(Neg(z), 1, x);
    MulOne(x);
    AddComm(Neg(z), x);
    SubIsAddNeg(x, z);
  }

  /** Dividing n by x - z: the division law makes n(x) = q(x)·(x - z) + r(x) at
      every x, and the remainder is zero exactly when z is a root of n. */
  lemma RootDivision(n: seq<F>, q: seq<F>, r: seq<F>, z: F)
    requires |n| >= 1 && |q| >= 1 && |r| >= 1
    requires PolySpec.Normalize(PadAdd(Conv(q, [Neg(z), 1]), r)) == PolySpec.Normalize(n)
    requires r == [0] || |r| < 2
    ensures forall x :: PolySpec.Eval(n, x) == Add(Field.Mul(PolySpec.Eval(q, x), Sub(x, z)), PolySpec.Eval(r, x))
    ensures PolySpec.Eval(n, z) == 0 <==> r == [0]
  {
    var d := [Neg(z), 1];
    forall x ensures PolySpec.Eval(n, x) == Add(Field.Mul(PolySpec.Eval(q, x), Sub(x, z)), PolySpec.Eval(r, x)) {
      EvalNormalize(n, x);
      EvalNormalize(PadAdd(Conv(q, d), r), x);
      EvalPadAdd(Conv(q, d), r, x);
      EvalConv(q, d, x);
      EvalLinear(z, x);
    }
    SubSelf(z);
    MulZero(PolySpec.Eval(q, z));
    EvalConstant(r[0], z);
    assert r == [r[0]];
  }

  /** `prove_one` up to the group operations. The second interpolation point
      (rx, ry) is drawn at random by the source and is a parameter here; the
      source panics unless rx differs from z. The interpolant passes through both
      points, the remainder of (p - y) / (x - z) is zero (the source asserts it),
      and the quotient satisfies q(x)·(x - z) = p(x) - y everywhere. */
  method ProveOne(z: F, y: F, rx: F, ry: F) returns (p: Poly, q: Poly, remainder: Poly)
    requires IsUnit(Sub(rx, z)) && IsUnit(Sub(z, rx))
    ensures fresh(p) && fresh(q) && fresh(remainder)
    ensures PolySpec.Eval(p.coeffs, z) == y && PolySpec.Eval(p.coeffs, rx) == ry
    ensures remainder.IsZero()
    ensures forall x :: Field.Mul(PolySpec.Eval(q.coeffs, x), Sub(x, z)) == Sub(PolySpec.Eval(p.coeffs, x), y)
  {
    var points := [(z, y), (rx, ry)];
    p := Poly.Lagrange(points);
    ghost var pc := p.coeffs;
    assert PolySpec.Eval(pc, points[0].0) == points[0].1;
    assert PolySpec.Eval(pc, points[1].0) == points[1].1;
    var p2 := new Poly(p.coeffs);
    var constant := new Poly.New([y]);
    p2.SubAssign(constant);
    var divisor := new Poly.New([Neg(z), 1]);
    OneIsUnit();
    q, remainder := p2.Div(divisor);
    assert p2.coeffs == PolySpec.Normalize(PadSub(pc, [y])) by {
      SubAsWrittenIsDifference(pc, [y]);
    }
    forall x ensures PolySpec.Eval(p2.coeffs, x) == Sub(PolySpec.Eval(pc, x), y) {
      EvalNormalize(PadSub(pc, [y]), x);
      EvalPadSub(pc, [y], x);
      EvalConstant(y, x);
    }
    RootDivision(p2.coeffs, q.coeffs, remainder.coeffs, z);
    SubSelf(y);
    assert PolySpec.Eval(p2.coeffs, z) == 0;
    assert remainder.coeffs == [0];
    forall x ensures Field.Mul(PolySpec.Eval(q.coeffs, x), Sub(x, z)) == Sub(PolySpec.Eval(pc, x), y) {
      EvalConstant(0, x);
    }
  }
}
