/** Integer facts the fraction type rests on: absolute value, divisibility,
    Euclid's greatest common divisor and the truncating division of
    arbitrary-precision integers. */
module Divisibility {

  function Abs(n: int): (r: nat)
    ensures r == n || r == -n
  {
    if n < 0 then -n else n
  }

  /** d is a positive divisor of n. */
  predicate Divides(d: int, n: int) {
    d > 0 && n % d == 0
  }

  /** Greatest common divisor of two magnitudes by Euclid's algorithm;
      Gcd(0, 0) == 0, as for arbitrary-precision integers. */
  function Gcd(a: nat, b: nat): nat
    decreases b
  {
    if b == 0 then a else Gcd(b, a % b)
  }

  /** Division that truncates toward zero, as arbitrary-precision integer
      division does (Dafny's own `/` is Euclidean). */
  function TruncDiv(a: int, b: int): int
    requires b != 0
  {
    var m := Abs(a) / Abs(b);
    if (a < 0) != (b < 0) then -m else m
  }

  /** Euclidean quotient and remainder are unique. */
  lemma DivModUnique(n: int, d: int, q: int, r: int)
    requires d > 0 && n == q * d + r && 0 <= r < d
    ensures n / d == q && n % d == r
  {
    var q', r' := n / d, n % d;
    assert (q - q') * d == r' - r;
    MulBound(q - q', d);
  }

  /** A non-zero multiple of d is at least d in magnitude. */
  lemma MulBound(t: int, d: int)
    requires d > 0
    ensures t >= 1 ==> t * d >= d
    ensures t <= -1 ==> t * d <= -d
  {
  }

  /** A multiple of d is divisible by d, with the expected quotient. */
  lemma DividesIntro(d: int, n: int, q: int)
    requires d > 0 && n == d * q
    ensures Divides(d, n) && n / d == q
  {
    DivModUnique(n, d, q, 0);
  }

  lemma DividesElim(d: int, n: int)
    requires Divides(d, n)
    ensures n == d * (n / d)
  {
  }

  lemma DividesNeg(d: int, n: int)
    requires Divides(d, n)
    ensures Divides(d, -n) && Divides(d, Abs(n))
  {
    DividesElim(d, n);
    DividesIntro(d, -n, -(n / d));
  }

  lemma DividesAbs(d: int, n: int)
    requires d > 0 && Divides(d, Abs(n))
    ensures Divides(d, n)
  {
    if n < 0 {
      DividesNeg(d, Abs(n));
    }
  }

  /** Divisibility is closed under linear combination. */
  lemma DividesLinear(d: int, a: int, b: int, s: int, t: int)
    requires Divides(d, a) && Divides(d, b)
    ensures Divides(d, s * a + t * b)
  {
    DividesElim(d, a);
    DividesElim(d, b);
    var qa, qb := a / d, b / d;
    calc {
      s * a + t * b;
      s * (d * qa) + t * (d * qb);
      d * (s * qa + t * qb);
    }
    DividesIntro(d, s * a + t * b, s * qa + t * qb);
  }

  /** A positive divisor of a positive number is no larger than it. */
  lemma DivisorBound(d: int, n: int)
    requires Divides(d, n) && n > 0
    ensures d <= n
  {
    DividesElim(d, n);
    var q := n / d;
    MulBound(q, d);
    MulBound(-q, d);
  }

  /** The gcd divides both arguments and is positive unless both are zero. */
  lemma {:induction false} GcdDivides(a: nat, b: nat)
    ensures a > 0 || b > 0 ==> Gcd(a, b) > 0
    ensures Gcd(a, b) > 0 ==> Divides(Gcd(a, b), a) && Divides(Gcd(a, b), b)
    decreases b
  {
    if b != 0 {
      GcdDivides(b, a % b);
      var g := Gcd(a, b);
      assert g == Gcd(b, a % b);
      if g > 0 {
        assert a == (a / b) * b + 1 * (a % b);
        DividesLinear(g, b, a % b, a / b, 1);
      }
    }
  }

  /** Every common divisor divides the gcd. */
  lemma {:induction false} GcdGreatest(a: nat, b: nat, d: int)
    requires Divides(d, a) && Divides(d, b)
    ensures Divides(d, Gcd(a, b))
    decreases b
  {
    if b != 0 {
      DividesLinear(d, a, b, 1, -(a / b));
      assert a % b == 1 * a + -(a / b) * b;
      GcdGreatest(b, a % b, d);
    }
  }

  /** Scaling both arguments scales the gcd. */
  lemma {:induction false} GcdScale(c: nat, a: nat, b: nat)
    requires c > 0
    ensures Gcd(c * a, c * b) == c * Gcd(a, b)
    decreases b
  {
    if b != 0 {
      var q, r := a / b, a % b;
      assert c * a == q * (c * b) + c * r;
      assert 0 <= c * r < c * b;
      DivModUnique(c * a, c * b, q, c * r);
      GcdScale(c, b, r);
    }
  }

  /** Dividing out the gcd leaves coprime parts. */
  lemma GcdOfQuotients(a: nat, b: nat)
    requires b > 0
    ensures var g := Gcd(a, b); g > 0 && Gcd(a / g, b / g) == 1
  {
    GcdDivides(a, b);
    var g := Gcd(a, b);
    var a', b' := a / g, b / g;
    DividesElim(g, a);
    DividesElim(g, b);
    assert b' > 0;
    GcdScale(g, a', b');
    assert Gcd(a, b) == g * Gcd(a', b');
    var h := Gcd(a', b');
    assert g * h == g;
    assert h == 1;
  }

  lemma AbsMul(a: int, c: int)
    ensures Abs(a * c) == Abs(a) * Abs(c)
  {
    if a < 0 && c < 0 {
      assert a * c == (-a) * (-c);
    } else if a < 0 {
      assert -(a * c) == (-a) * c;
    } else if c < 0 {
      assert -(a * c) == a * (-c);
    }
  }

  /** Euclid's lemma on magnitudes. */
  lemma EuclidNat(p: nat, b: nat, m: nat)
    requires b > 0 && Gcd(p, b) == 1 && Divides(b, m * p)
    ensures Divides(b, m)
  {
    if m == 0 {
      DividesIntro(b, m, 0);
    } else {
      GcdScale(m, p, b);
      var mb := m * b;
      DividesIntro(b, mb, m);
      GcdGreatest(m * p, mb, b);
    }
  }

  /** Euclid's lemma: a divisor coprime to one factor divides the other. */
  lemma Euclid(a: int, b: int, c: int)
    requires b > 0 && Gcd(Abs(a), b) == 1 && Divides(b, a * c)
    ensures Divides(b, c)
  {
    AbsMul(a, c);
    DividesNeg(b, a * c);
    assert Abs(c) * Abs(a) == Abs(a * c);
    EuclidNat(Abs(a), b, Abs(c));
    DividesAbs(b, c);
  }

  /** Truncating and Euclidean division agree when the division is exact and the divisor positive. */
  lemma TruncDivExact(a: int, b: int)
    requires Divides(b, a)
    ensures TruncDiv(a, b) == a / b && a == b * TruncDiv(a, b)
  {
    DividesElim(b, a);
    var q := a / b;
    if a < 0 {
      assert -a == b * (-q);
      DividesIntro(b, -a, -q);
    }
  }
}
