/** Exact rationals over arbitrary-precision integers, always held in lowest
    terms with a positive denominator. Every operation builds its result
    through the single normalising constructor, so no unreduced or
    zero-denominator fraction can arise. */
module Fractions {
  import opened Outcomes
  import opened Divisibility

  datatype Fraction = Fraction(num: int, den: int)

  /** The invariant every constructed fraction satisfies. */
  predicate Valid(f: Fraction) {
    f.den > 0 && Gcd(Abs(f.num), f.den) == 1
  }

  /** The rational number a fraction denotes. */
  ghost function Value(f: Fraction): real
    requires f.den != 0
  {
    f.num as real / f.den as real
  }

  /** A real number is whole when it equals its floor. */
  ghost predicate IsWhole(v: real) {
    v.Floor as real == v
  }

  /** The additive identity 0/1 that seeds accumulations. */
  const Zero: Fraction := Fraction(0, 1)

  // ---- real-arithmetic facts about quotients of integers ----

  lemma QuotientCross(x: int, y: int, u: int, v: int)
    requires y != 0 && v != 0 && x * v == u * y
    ensures x as real / y as real == u as real / v as real
  {
    var xr, yr, ur, vr := x as real, y as real, u as real, v as real;
    assert xr * vr == ur * yr;
    calc {
      xr / yr;
      (xr * vr) / (yr * vr);
      (ur * yr) / (yr * vr);
      ur / vr;
    }
  }

  lemma QuotientSum(a: int, b: int, c: int, d: int)
    requires b != 0 && d != 0
    ensures a as real / b as real + c as real / d as real
         == (a * d + c * b) as real / (b * d) as real
  {
    var ar, br, cr, dr := a as real, b as real, c as real, d as real;
    assert (a * d + c * b) as real == ar * dr + cr * br;
    assert (b * d) as real == br * dr;
    calc {
      ar / br + cr / dr;
      (ar * dr) / (br * dr) + (cr * br) / (br * dr);
      (ar * dr + cr * br) / (br * dr);
    }
  }

  lemma QuotientProduct(a: int, b: int, c: int, d: int)
    requires b != 0 && d != 0
    ensures (a as real / b as real) * (c as real / d as real)
         == (a * c) as real / (b * d) as real
  {
    assert (a * c) as real == a as real * c as real;
    assert (b * d) as real == b as real * d as real;
  }

  // ---- construction ----

  /** The constructor's normalisation: move the sign into the numerator,
      then divide both parts by their gcd. */
  function Normalize(num: int, den: int): (f: Fraction)
    requires den != 0
    ensures Valid(f)
    ensures f.num * den == num * f.den
    ensures Value(f) == num as real / den as real
  {
    var f := if den < 0 then Reduce(-num, -den) else Reduce(num, den);
    assert f.num * den == num * f.den;
    QuotientCross(f.num, f.den, num, den);
    f
  }

  /** Division of both parts by their gcd, skipped when the gcd is already 1. */
  function Reduce(n: int, d: int): (f: Fraction)
    requires d > 0
    ensures Valid(f) && f.num * d == n * f.den
  {
    GcdDivides(Abs(n), d);
    var g := Gcd(Abs(n), d);
    if g != 1 then
      ReduceCorrect(n, d);
      Fraction(TruncDiv(n, g), TruncDiv(d, g))
    else
      Fraction(n, d)
  }

  lemma ReduceCorrect(n: int, d: int)
    requires d > 0
    ensures var g := Gcd(Abs(n), d);
            && g > 0
            && var f := Fraction(TruncDiv(n, g), TruncDiv(d, g));
            && Valid(f) && f.num * d == n * f.den
  {
    GcdDivides(Abs(n), d);
    GcdOfQuotients(Abs(n), d);
    var g := Gcd(Abs(n), d);
    DividesAbs(g, n);
    TruncDivExact(n, g);
    TruncDivExact(d, g);
    var n', d' := n / g, d / g;
    assert Abs(n') == Abs(n) / g by {
      AbsMul(g, n');
      DividesIntro(g, Abs(n), Abs(n'));
    }
    assert d' > 0;
    CancelCross(g, n', d');
  }

  lemma CancelCross(g: int, n': int, d': int)
    ensures n' * (g * d') == (g * n') * d'
  {
  }

  /** Construction from a numerator and a denominator; a zero denominator is
      rejected and produces no fraction. */
  function Make(num: int, den: int): (r: Result<Fraction>)
    ensures r.Err? <==> den == 0
    ensures r.Err? ==> r.error == DivisionByZero
    ensures r.Ok? ==> Valid(r.value) && Value(r.value) == num as real / den as real
  {
    if den == 0 then Err(DivisionByZero) else Ok(Normalize(num, den))
  }

  /** An integer as a fraction over 1. */
  function Of(n: int): (f: Fraction)
    ensures Valid(f) && f.den == 1 && Value(f) == n as real
  {
    Normalize(n, 1)
  }

  // ---- arithmetic ----

  function Add(a: Fraction, b: Fraction): (r: Fraction)
    requires Valid(a) && Valid(b)
    ensures Valid(r) && Value(r) == Value(a) + Value(b)
  {
    QuotientSum(a.num, a.den, b.num, b.den);
    Normalize(a.num * b.den + b.num * a.den, a.den * b.den)
  }

  function Mul(a: Fraction, b: Fraction): (r: Fraction)
    requires Valid(a) && Valid(b)
    ensures Valid(r) && Value(r) == Value(a) * Value(b)
  {
    QuotientProduct(a.num, a.den, b.num, b.den);
    Normalize(a.num * b.num, a.den * b.den)
  }

  function Negate(a: Fraction): (r: Fraction)
    requires Valid(a)
    ensures Valid(r) && r.den == a.den && Value(r) == -Value(a)
  {
    NegateKeepsTerms(a);
    Normalize(-a.num, a.den)
  }

  lemma NegateKeepsTerms(a: Fraction)
    requires Valid(a)
    ensures Normalize(-a.num, a.den) == Fraction(-a.num, a.den)
  {
    assert Abs(-a.num) == Abs(a.num);
  }

  // ---- integrality ----

  /** Integrality test on the reduced form; exact because the form is reduced. */
  function IsInteger(f: Fraction): (b: bool)
    requires Valid(f)
    ensures b <==> Divides(f.den, f.num)
  {
    IntegerIffUnitDenominator(f);
    f.den == 1
  }

  /** A reduced fraction denotes an integer exactly when its denominator is 1. */
  lemma IntegerIffUnitDenominator(f: Fraction)
    requires Valid(f)
    ensures Divides(f.den, f.num) <==> f.den == 1
  {
    if Divides(f.den, f.num) {
      DividesIntro(f.den, f.den, 1);
      DividesNeg(f.den, f.num);
      GcdGreatest(Abs(f.num), f.den, f.den);
      DivisorBound(f.den, 1);
    }
    if f.den == 1 {
      DividesIntro(1, f.num, f.num);
    }
  }

  /** Exact extraction: the integer a fraction denotes, or NotAnInteger. */
  function ToIntegerExact(f: Fraction): (r: Result<int>)
    requires Valid(f)
    ensures r.Ok? <==> IsWhole(Value(f))
    ensures r.Err? ==> r.error == NotAnInteger
    ensures r.Ok? ==> r.value as real == Value(f)
  {
    WholeIffInteger(f);
    if !IsInteger(f) then Err(NotAnInteger) else Ok(f.num)
  }

  lemma WholeIffInteger(f: Fraction)
    requires Valid(f)
    ensures IsWhole(Value(f)) <==> f.den == 1
  {
    IntegerIffUnitDenominator(f);
    var v := Value(f);
    if IsWhole(v) {
      var m := v.Floor;
      assert f.num == m * f.den by {
        assert (m as real) / (1 as real) == v;
        assert f.num as real == m as real * f.den as real;
        assert (m * f.den) as real == m as real * f.den as real;
      }
      DividesIntro(f.den, f.num, m);
    }
  }

  // ---- canonical form ----

  /** Two reduced fractions with the same value are identical: normalisation
      yields the unique reduced, denominator-positive representation. */
  lemma Canonical(a: Fraction, b: Fraction)
    requires Valid(a) && Valid(b) && Value(a) == Value(b)
    ensures a == b
  {
    CrossFromValue(a, b);
    assert a.num * b.den == b.num * a.den;
    DividesIntro(a.den, b.num * a.den, b.num);
    assert a.num * b.den == b.num * a.den;
    Euclid(a.num, a.den, b.den);
    DividesIntro(b.den, a.num * b.den, a.num);
    Euclid(b.num, b.den, a.den);
    DivisorBound(a.den, b.den);
    DivisorBound(b.den, a.den);
    assert a.den == b.den;
    assert a.num * a.den == b.num * a.den;
  }

  lemma CrossFromValue(a: Fraction, b: Fraction)
    requires a.den > 0 && b.den > 0 && Value(a) == Value(b)
    ensures a.num * b.den == b.num * a.den
  {
    var an, ad, bn, bd := a.num as real, a.den as real, b.num as real, b.den as real;
    assert an / ad == bn / bd;
    assert an * bd == bn * ad;
    assert (a.num * b.den) as real == an * bd;
    assert (b.num * a.den) as real == bn * ad;
  }

  /** Normalising a fraction that is already reduced changes nothing. */
  lemma NormalizeReduced(f: Fraction)
    requires Valid(f)
    ensures Normalize(f.num, f.den) == f
  {
  }

  /** Any zero numerator normalises to 0/1, and ZERO is built that way. */
  lemma ZeroNormalForm(den: int)
    requires den != 0
    ensures Normalize(0, den) == Zero
  {
    var f := Normalize(0, den);
    assert Value(f) == 0.0;
    assert Valid(Zero) && Value(Zero) == 0.0;
    Canonical(f, Zero);
  }

  /** ZERO is the identity of addition, on both sides. */
  lemma AddZero(f: Fraction)
    requires Valid(f)
    ensures Add(Zero, f) == f && Add(f, Zero) == f
  {
    assert Valid(Zero);
    Canonical(Add(Zero, f), f);
    Canonical(Add(f, Zero), f);
  }

  /** Addition and multiplication do not depend on operand order, down to the
      representation. */
  lemma Commutes(a: Fraction, b: Fraction)
    requires Valid(a) && Valid(b)
    ensures Add(a, b) == Add(b, a) && Mul(a, b) == Mul(b, a)
  {
    Canonical(Add(a, b), Add(b, a));
    assert Value(a) * Value(b) == Value(b) * Value(a);
    Canonical(Mul(a, b), Mul(b, a));
  }

  /** Negation is its own inverse and cancels under addition. */
  lemma NegateInverse(a: Fraction)
    requires Valid(a)
    ensures Negate(Negate(a)) == a && Add(a, Negate(a)) == Zero
  {
    Canonical(Negate(Negate(a)), a);
    assert Valid(Zero) && Value(Zero) == 0.0;
    Canonical(Add(a, Negate(a)), Zero);
  }

  /** The integer 1 is the identity of multiplication. */
  lemma MulOne(f: Fraction)
    requires Valid(f)
    ensures Mul(f, Of(1)) == f
  {
    Canonical(Mul(f, Of(1)), f);
  }
}
