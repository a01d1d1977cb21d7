/** The conventional optional value, used where the source returns an
    `Option` (`Vec::get`) or a `CtOption` (`Scalar::invert`). */
module Wrappers {
  datatype Option<+T> = None | Some(value: T)
}

/** The scalar field of BLS12-381: integers modulo the prime group order P.
    Every operation returns the canonical representative in [0, P), which is
    the integer the source obtains from `BigUint::from_bytes_le(to_bytes(v))`. */
module Field {
  import opened Wrappers

  const P: nat := 0x73eda753299d7d483339d80809a1d80553bda402fffe5bfeffffffff00000001

  type F = x: int | 0 <= x < P

  /** The source's `u64`; `Scalar::from(u64)` embeds it unchanged, as 2^64 < P. */
  type U64 = x: int | 0 <= x < 0x1_0000_0000_0000_0000

  /** Addition, subtraction and negation reduce by at most one P, so they are
      written as the case split that reduction amounts to; AddIsMod, SubIsMod and
      NegIsMod state that this is the residue modulo P. */
  function Add(a: F, b: F): F { if a + b < P then a + b else a + b - P }
  function Sub(a: F, b: F): F { if a >= b then a - b else a - b + P }
  function Neg(a: F): F { if a == 0 then 0 else P - a }
  function Mul(a: F, b: F): F { (a * b) % P }

  /** x^n, built as the source builds its running power: one more factor of x
      on the right at every step. */
  function Pow(x: F, n: nat): F
  {
    if n == 0 then 1 else Mul(Pow(x, n - 1), x)
  }

  /* ---------- modular arithmetic on integers ---------- */

  lemma ModMultiple(k: int, m: int)
    ensures (P * k + m) % P == m % P
  {
    var q, r := m / P, m % P;
    assert m == P * q + r;
    assert P * k + m == P * (k + q) + r;
  }

  lemma AddIsMod(a: F, b: F)
    ensures Add(a, b) == (a + b) % P
  {
    if a + b >= P { ModMultiple(1, a + b - P); }
  }

  lemma SubIsMod(a: F, b: F)
    ensures Sub(a, b) == (a - b) % P
  {
    if a < b { ModMultiple(-1, a - b + P); }
  }

  lemma NegIsMod(a: F)
    ensures Neg(a) == (0 - a) % P
  {
    if a != 0 { ModMultiple(-1, P - a); }
  }

  lemma ModMulLeft(x: int, y: int)
    ensures ((x % P) * y) % P == (x * y) % P
  {
    var q := x / P;
    assert x == P * q + x % P;
    assert x * y == P * (q * y) + (x % P) * y;
    ModMultiple(q * y, (x % P) * y);
  }

  lemma ModMulRight(x: int, y: int)
    ensures (x * (y % P)) % P == (x * y) % P
  {
    ModMulLeft(y, x);
  }

  /* ---------- the field is a commutative ring ---------- */

  lemma AddComm(a: F, b: F)
    ensures Add(a, b) == Add(b, a)
  {}

  lemma AddAssoc(a: F, b: F, c: F)
    ensures Add(Add(a, b), c) == Add(a, Add(b, c))
  {}

  lemma MulComm(a: F, b: F)
    ensures Mul(a, b) == Mul(b, a)
  {}

  lemma MulAssoc(a: F, b: F, c: F)
    ensures Mul(Mul(a, b), c) == Mul(a, Mul(b, c))
  {
    ModMulLeft(a * b, c);
    ModMulRight(a, b * c);
    assert (a * b) * c == a * (b * c);
  }

  lemma Distrib(a: F, b: F, c: F)
    ensures Mul(a, Add(b, c)) == Add(Mul(a, b), Mul(a, c))
  {
    AddIsMod(b, c);
    AddIsMod(Mul(a, b), Mul(a, c));
    ModMulRight(a, b + c);
    assert a * (b + c) == a * b + a * c;
    var q1, q2 := (a * b) / P, (a * c) / P;
    assert a * b + a * c == P * (q1 + q2) + (Mul(a, b) + Mul(a, c));
    ModMultiple(q1 + q2, Mul(a, b) + Mul(a, c));
  }

  lemma DistribRight(a: F, b: F, c: F)
    ensures Mul(Add(a, b), c) == Add(Mul(a, c), Mul(b, c))
  {
    MulComm(Add(a, b), c);
    Distrib(c, a, b);
    MulComm(c, a);
    MulComm(c, b);
  }

  /** Regrouping four summands. */
  lemma AddShuffle(a: F, b: F, c: F, d: F)
    ensures Add(Add(a, b), Add(c, d)) == Add(Add(a, c), Add(b, d))
  {
    AddAssoc(a, b, Add(c, d));
    AddAssoc(b, c, d);
    AddComm(b, c);
    AddAssoc(c, b, d);
    AddAssoc(a, c, Add(b, d));
  }

  /** Regrouping four factors. */
  lemma MulShuffle(a: F, b: F, c: F, d: F)
    ensures Mul(Mul(a, b), Mul(c, d)) == Mul(Mul(c, a), Mul(b, d))
  {
    ModMulLeft(a * b, Mul(c, d));
    ModMulRight(a * b, c * d);
    ModMulLeft(c * a, Mul(b, d));
    ModMulRight(c * a, b * d);
    assert (a * b) * (c * d) == (c * a) * (b * d);
  }

  lemma MulZero(a: F)
    ensures Mul(a, 0) == 0 && Mul(0, a) == 0
  {}

  lemma MulOne(a: F)
    ensures Mul(a, 1) == a && Mul(1, a) == a
  {}

  lemma SubIsAddNeg(a: F, b: F)
    ensures Sub(a, b) == Add(a, Neg(b))
  {}

  lemma SubSelf(a: F)
    ensures Sub(a, a) == 0
  {}

  lemma SubAddCancel(a: F, b: F)
    ensures Add(Sub(a, b), b) == a
  {}

  lemma AddSubCancel(a: F, b: F)
    ensures Sub(Add(a, b), b) == a
  {}

  /** Adding t to one summand and taking it from the other changes nothing. */
  lemma AddSubShift(a: F, t: F, r: F)
    ensures Add(Add(a, t), Sub(r, t)) == Add(a, r)
  {}

  /** Multiplication distributes over subtraction: a·(b − c) = a·b − a·c. */
  lemma DistribSub(a: F, b: F, c: F)
    ensures Mul(a, Sub(b, c)) == Sub(Mul(a, b), Mul(a, c))
  {
    SubIsMod(b, c);
    SubIsMod(Mul(a, b), Mul(a, c));
    ModMulRight(a, b - c);
    assert a * (b - c) == a * b - a * c;
    var q1, q2 := (a * b) / P, (a * c) / P;
    assert a * b - a * c == P * (q1 - q2) + (Mul(a, b) - Mul(a, c));
    ModMultiple(q1 - q2, Mul(a, b) - Mul(a, c));
  }

  /** Pow adds exponents. */
  lemma {:induction false} PowAdd(x: F, m: nat, n: nat)
    ensures Mul(Pow(x, m), Pow(x, n)) == Pow(x, m + n)
    decreases n
  {
    if n == 0 {
      MulOne(Pow(x, m));
    } else {
      PowAdd(x, m, n - 1);
      MulAssoc(Pow(x, m), Pow(x, n - 1), x);
    }
  }

  /* ---------- inversion ---------- */

  /** The extended Euclidean algorithm: the triple (g, s, t) where g = gcd(a, b)
      and s, t are the coefficients Bezout finds for it. */
  function ExtGcd(a: nat, b: nat): (nat, int, int)
    decreases a
  {
    if a == 0 then (b, 0, 1)
    else
      var (g, s, t) := ExtGcd(b % a, a);
      (g, t - (b / a) * s, s)
  }

  /** a·s + b·t = g for the triple (g, s, t). */
  predicate IsBezout(a: int, b: int, e: (nat, int, int))
  {
    a * e.1 + b * e.2 == e.0
  }

  /** One step of the algorithm keeps the identity: from m·s + a·t = g with
      b = a·q + m it follows that a·(t - q·s) + b·s = g. */
  lemma BezoutStep(a: int, b: int, q: int, m: int, e: (nat, int, int))
    requires b == a * q + m && IsBezout(m, a, e)
    ensures IsBezout(a, b, (e.0, e.2 - q * e.1, e.1))
  {
    var (g, s, t) := e;
    assert a * (t - q * s) + b * s == a * t + s * (b - a * q);
  }

  /** The triple ExtGcd returns satisfies a·s + b·t = g. Kept as a lemma rather
      than a postcondition of ExtGcd, so that the identity is in scope only
      where it is asked for. */
  lemma {:induction false} Bezout(a: nat, b: nat)
    ensures IsBezout(a, b, ExtGcd(a, b))
    decreases a
  {
    if a != 0 {
      Bezout(b % a, a);
      BezoutStep(a, b, b / a, b % a, ExtGcd(b % a, a));
    }
  }

  /** `Scalar::invert`: the multiplicative inverse when a and P are coprime,
      None otherwise. Since P is prime, None happens only for zero. */
  function Invert(a: F): (r: Option<F>)
    ensures r.Some? ==> Mul(a, r.value) == 1
  {
    var (g, s, t) := ExtGcd(a, P);
    if g == 1 then
      Bezout(a, P);
      ModMulRight(a, s);
      ModMultiple(-t, 1);
      assert a * s == P * (-t) + 1;
      Some(s % P)
    else None
  }

  /** What `invert().unwrap()` needs in order not to panic. */
  predicate IsUnit(a: F)
  {
    Invert(a).Some?
  }

  /** Zero has no inverse: `invert().unwrap()` on zero panics. */
  lemma ZeroIsNotUnit()
    ensures !IsUnit(0)
  {}

  lemma OneIsUnit()
    ensures Invert(1) == Some(1)
  {}

  /** A unit is not a zero divisor: a · u = 0 only for a = 0. */
  lemma UnitCancel(a: F, u: F)
    requires IsUnit(u)
    ensures Mul(a, u) == 0 <==> a == 0
  {
    var inv := Invert(u).value;
    MulAssoc(a, u, inv);
    MulOne(a);
    MulZero(inv);
    MulZero(u);
  }

  /** An inverse is never zero. */
  lemma InverseNonZero(a: F)
    requires IsUnit(a)
    ensures Invert(a).value != 0
  {
    MulZero(a);
  }
}
