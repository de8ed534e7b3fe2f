/** Reconstruction of the secret f(0) from k shares by Lagrange interpolation
    at zero, in exact fraction arithmetic:
      f(0) = sum over i of y_i * product over j != i of (-x_j) / (x_i - x_j). */
module Interpolation {
  import opened Outcomes
  import opened Fractions
  import opened Shares

  // ---- specification: the Lagrange value as an exact real ----

  /** No two of the first k shares have the same abscissa. */
  ghost predicate DistinctAbscissae(s: seq<Share>, k: int)
    requires k <= |s|
  {
    forall a, b :: 0 <= a < b < k ==> s[a].x != s[b].x
  }

  /** Share i differs in x from every share j in [j0, k) other than itself. */
  ghost predicate DistinctFrom(s: seq<Share>, k: int, i: nat, j0: nat)
    requires i < k <= |s|
  {
    forall j :: j0 <= j < k && j != i ==> s[j].x != s[i].x
  }

  /** Every share i in [i0, k) differs in x from all other first-k shares. */
  ghost predicate IsolatedFrom(s: seq<Share>, k: int, i0: nat)
    requires k <= |s|
  {
    forall i :: i0 <= i < k ==> DistinctFrom(s, k, i, 0)
  }

  /** Real multiplication behind a name, so that contracts relating two
      unknown reals do not hand the solver a bare non-linear product. */
  ghost function Scale(v: real, factor: real): real {
    v * factor
  }

  /** The factor (0 - x_j) / (x_i - x_j) that share j contributes to basis i. */
  ghost function Factor(xi: int, xj: int): real
    requires xi != xj
  {
    (-xj) as real / (xi - xj) as real
  }

  /** Product over j in [j0, k), j != i, of (-x_j) / (x_i - x_j). */
  ghost function Basis(s: seq<Share>, k: int, i: nat, j0: nat): real
    requires i < k <= |s| && j0 <= k && DistinctFrom(s, k, i, j0)
    decreases k - j0
  {
    if j0 == k then 1.0
    else if j0 == i then Basis(s, k, i, j0 + 1)
    else Scale(Factor(s[i].x, s[j0].x), Basis(s, k, i, j0 + 1))
  }

  /** Sum over i in [i0, k) of y_i times the i-th basis value at zero. */
  ghost function LagrangeFrom(s: seq<Share>, k: int, i0: nat): real
    requires i0 <= k <= |s| && IsolatedFrom(s, k, i0)
    decreases k - i0
  {
    if i0 == k then 0.0
    else Scale(s[i0].y as real, Basis(s, k, i0, 0)) + LagrangeFrom(s, k, i0 + 1)
  }

  /** The value at zero of the polynomial through the first k shares. */
  ghost function LagrangeAtZero(s: seq<Share>, k: int): real
    requires k <= |s| && DistinctAbscissae(s, k)
  {
    if k <= 0 then 0.0 else LagrangeFrom(s, k, 0)
  }

  // ---- the engine ----

  /** The inner loop: multiply the running term by (-x_j) / (x_i - x_j) for
      j from j0 up to k, skipping i. A zero difference is reported before any
      fraction is built, so the constructor's zero check cannot fire here. */
  function InnerProduct(s: seq<Share>, k: int, i: nat, j0: nat, term: Fraction): (r: Result<Fraction>)
    requires i < k <= |s| && j0 <= k && Valid(term)
    ensures r.Err? ==> r.error == DuplicateAbscissa
    ensures r.Err? <==> !DistinctFrom(s, k, i, j0)
    ensures r.Ok? ==> Valid(r.value) && Value(r.value) == Scale(Value(term), Basis(s, k, i, j0))
    decreases k - j0
  {
    if j0 == k then Ok(term)
    else if i == j0 then InnerProduct(s, k, i, j0 + 1, term)
    else
      var den := s[i].x - s[j0].x;
      if den == 0 then Err(DuplicateAbscissa)
      else
        var next := MulFactor(term, s[i].x, s[j0].x);
        var r := InnerProduct(s, k, i, j0 + 1, next);
        if r.Ok? then InnerStep(s, k, i, j0, term, next, r.value); r else r
  }

  /** The loop body's update: the term times the fraction (-x_j) / (x_i - x_j). */
  function MulFactor(term: Fraction, xi: int, xj: int): (r: Fraction)
    requires Valid(term) && xi != xj
    ensures Valid(r) && Value(r) == Scale(Value(term), Factor(xi, xj))
  {
    FactorValue(xi, xj);
    MulBy(term, Normalize(-xj, xi - xj), Factor(xi, xj))
  }

  /** Multiplication by a fraction known to denote q. */
  function MulBy(term: Fraction, f: Fraction, ghost q: real): (r: Fraction)
    requires Valid(term) && Valid(f) && Value(f) == q
    ensures Valid(r) && Value(r) == Scale(Value(term), q)
  {
    Mul(term, f)
  }

  /** The fraction built for a factor denotes it. */
  lemma FactorValue(xi: int, xj: int)
    requires xi != xj
    ensures Value(Normalize(-xj, xi - xj)) == Factor(xi, xj)
  {
  }

  /** One step of the inner loop multiplies the term by the next basis factor. */
  lemma InnerStep(s: seq<Share>, k: int, i: nat, j0: nat, term: Fraction, next: Fraction, rest: Fraction)
    requires i < k <= |s| && j0 < k && j0 != i && s[i].x != s[j0].x
    requires Valid(term) && Valid(next) && Valid(rest) && DistinctFrom(s, k, i, j0 + 1)
    requires Value(next) == Scale(Value(term), Factor(s[i].x, s[j0].x))
    requires Value(rest) == Scale(Value(next), Basis(s, k, i, j0 + 1))
    ensures DistinctFrom(s, k, i, j0)
    ensures Value(rest) == Scale(Value(term), Basis(s, k, i, j0))
  {
    var b := Basis(s, k, i, j0 + 1);
    assert Basis(s, k, i, j0) == Scale(Factor(s[i].x, s[j0].x), b);
    Regroup(Value(rest), Value(next), Value(term), Factor(s[i].x, s[j0].x), b);
  }

  lemma Regroup(v: real, next: real, t: real, q: real, b: real)
    requires next == Scale(t, q) && v == Scale(next, b)
    ensures v == Scale(t, Scale(q, b))
  {
  }

  /** The outer loop: add y_i times its basis product to the accumulator for
      i from i0 up to k. */
  function OuterSum(s: seq<Share>, k: int, i0: nat, acc: Fraction): (r: Result<Fraction>)
    requires k <= |s| && i0 <= |s| && Valid(acc)
    ensures r.Err? ==> r.error == DuplicateAbscissa
    ensures r.Err? <==> !IsolatedFrom(s, k, i0)
    ensures r.Ok? && i0 <= k ==> Valid(r.value) && Value(r.value) == Value(acc) + LagrangeFrom(s, k, i0)
    ensures i0 >= k ==> r == Ok(acc)
    decreases k - i0
  {
    if i0 >= k then Ok(acc)
    else
      var term :- InnerProduct(s, k, i0, 0, Of(s[i0].y));
      var r := OuterSum(s, k, i0 + 1, Add(acc, term));
      if r.Ok? then OuterStep(s, k, i0, acc, term, r.value); r else r
  }

  /** One step of the outer loop adds the i-th Lagrange term to the sum. */
  lemma OuterStep(s: seq<Share>, k: int, i0: nat, acc: Fraction, term: Fraction, rest: Fraction)
    requires i0 < k <= |s| && Valid(acc) && Valid(term) && Valid(rest)
    requires DistinctFrom(s, k, i0, 0) && IsolatedFrom(s, k, i0 + 1)
    requires Value(term) == Scale(Value(Of(s[i0].y)), Basis(s, k, i0, 0))
    requires Value(rest) == Value(Add(acc, term)) + LagrangeFrom(s, k, i0 + 1)
    ensures IsolatedFrom(s, k, i0)
    ensures Value(rest) == Value(acc) + LagrangeFrom(s, k, i0)
  {
    assert Value(Of(s[i0].y)) == s[i0].y as real;
  }

  /** Reconstructs the secret from the first k shares. Fails with
      InsufficientShares when fewer than k are given, with DuplicateAbscissa
      when two of the first k share an x, and with NotAnInteger when the exact
      value at zero is not whole. */
  function SecretAtZero(shares: seq<Share>, k: int): (r: Result<int>)
    ensures |shares| < k <==> r == Err(InsufficientShares)
    ensures r != Err(DivisionByZero)
    ensures k <= |shares| ==> (r == Err(DuplicateAbscissa) <==> !DistinctAbscissae(shares, k))
    ensures k <= |shares| && DistinctAbscissae(shares, k) ==>
              && (r.Ok? <==> IsWhole(LagrangeAtZero(shares, k)))
              && (r.Ok? ==> r.value as real == LagrangeAtZero(shares, k))
              && (r.Err? ==> r.error == NotAnInteger)
  {
    if |shares| < k then Err(InsufficientShares)
    else
      DistinctIffIsolated(shares, k);
      var acc :- OuterSum(shares, k, 0, Zero);
      ToIntegerExact(acc)
  }

  lemma DistinctIffIsolated(s: seq<Share>, k: int)
    requires k <= |s|
    ensures DistinctAbscissae(s, k) <==> IsolatedFrom(s, k, 0)
  {
    if DistinctAbscissae(s, k) {
      forall i, j | 0 <= i < k && 0 <= j < k && j != i
        ensures s[j].x != s[i].x
      {
        if i < j {
          assert s[i].x != s[j].x;
        } else {
          assert s[j].x != s[i].x;
        }
      }
    }
    if IsolatedFrom(s, k, 0) {
      forall a, b | 0 <= a < b < k
        ensures s[a].x != s[b].x
      {
        assert DistinctFrom(s, k, a, 0);
      }
    }
  }

  // ---- properties ----

  /** The first k shares agree. */
  ghost predicate SamePrefix(s: seq<Share>, t: seq<Share>, k: int)
    requires k <= |s| && k <= |t|
  {
    forall a :: 0 <= a < k ==> s[a] == t[a]
  }

  /** A basis product depends on the first k shares only. */
  lemma {:induction false} BasisPrefix(s: seq<Share>, t: seq<Share>, k: int, i: nat, j0: nat)
    requires i < k <= |s| && k <= |t| && j0 <= k && SamePrefix(s, t, k)
    requires DistinctFrom(s, k, i, j0)
    ensures DistinctFrom(t, k, i, j0) && Basis(s, k, i, j0) == Basis(t, k, i, j0)
    decreases k - j0
  {
    assert s[i] == t[i];
    if j0 < k {
      assert s[j0] == t[j0];
      BasisPrefix(s, t, k, i, j0 + 1);
    }
  }

  /** So does the Lagrange sum. */
  lemma {:induction false} LagrangePrefix(s: seq<Share>, t: seq<Share>, k: int, i0: nat)
    requires i0 <= k <= |s| && k <= |t| && SamePrefix(s, t, k) && IsolatedFrom(s, k, i0)
    ensures IsolatedFrom(t, k, i0) && LagrangeFrom(s, k, i0) == LagrangeFrom(t, k, i0)
    decreases k - i0
  {
    forall i | i0 <= i < k
      ensures DistinctFrom(t, k, i, 0)
    {
      BasisPrefix(s, t, k, i, 0);
    }
    if i0 < k {
      assert s[i0] == t[i0];
      BasisPrefix(s, t, k, i0, 0);
      LagrangePrefix(s, t, k, i0 + 1);
    }
  }

  /** Only the first k shares matter: shares beyond them never change the outcome. */
  lemma FirstKOnly(s: seq<Share>, t: seq<Share>, k: int)
    requires k <= |s| && k <= |t| && SamePrefix(s, t, k)
    ensures SecretAtZero(s, k) == SecretAtZero(t, k)
  {
    assert DistinctAbscissae(s, k) <==> DistinctAbscissae(t, k) by {
      assert forall a :: 0 <= a < k ==> s[a] == t[a];
    }
    if DistinctAbscissae(s, k) && k > 0 {
      DistinctIffIsolated(s, k);
      LagrangePrefix(s, t, k, 0);
    }
  }

  /** With k <= 0 the sum is empty and the secret is the seed, 0. */
  lemma EmptyThresholdGivesZero(s: seq<Share>, k: int)
    requires k <= 0
    ensures SecretAtZero(s, k) == Ok(0)
  {
  }

  /** With k = 1 the basis product is empty and the secret is y_0, whatever x_0 is. */
  lemma SingleShare(s: seq<Share>)
    requires 1 <= |s|
    ensures SecretAtZero(s, 1) == Ok(s[0].y)
  {
    var y := Of(s[0].y);
    assert InnerProduct(s, 1, 0, 0, y) == Ok(y);
    AddZero(y);
    assert OuterSum(s, 1, 0, Zero) == Ok(y);
    assert y.num as real == s[0].y as real;
  }

  /** Two shares of a line c + a*x with distinct abscissae reconstruct c. */
  lemma LinearExact(c: int, a: int, x0: int, x1: int)
    requires x0 != x1
    ensures SecretAtZero([Share(x0, c + a * x0), Share(x1, c + a * x1)], 2) == Ok(c)
  {
    var s := [Share(x0, c + a * x0), Share(x1, c + a * x1)];
    assert DistinctAbscissae(s, 2);
    assert Basis(s, 2, 0, 0) == Scale(Factor(x0, x1), 1.0);
    assert Basis(s, 2, 1, 0) == Scale(Factor(x1, x0), 1.0);
    assert LagrangeAtZero(s, 2)
        == Scale((c + a * x0) as real, Scale(Factor(x0, x1), 1.0))
         + Scale((c + a * x1) as real, Scale(Factor(x1, x0), 1.0));
    LineThroughTwoPoints(c, a, x0, x1);
    assert IsWhole(c as real);
  }

  lemma LineThroughTwoPoints(c: int, a: int, x0: int, x1: int)
    requires x0 != x1
    ensures Scale((c + a * x0) as real, Scale(Factor(x0, x1), 1.0))
          + Scale((c + a * x1) as real, Scale(Factor(x1, x0), 1.0)) == c as real
  {
    var cr, ar, u, v := c as real, a as real, x0 as real, x1 as real;
    var d := u - v;
    assert (x0 - x1) as real == d && (x1 - x0) as real == -d;
    assert Factor(x0, x1) == -v / d;
    assert Factor(x1, x0) == -u / (-d);
    calc {
      (cr + ar * u) * (-v / d) + (cr + ar * v) * (-u / (-d));
      ((cr + ar * u) * (-v) + (cr + ar * v) * u) / d;
      (cr * (u - v)) / d;
      cr;
    }
  }

  /** The line 2 + 3x through (1, 5) and (2, 8) gives the secret 2. */
  lemma TwoSharesExample()
    ensures SecretAtZero([Share(1, 5), Share(2, 8)], 2) == Ok(2)
  {
    LinearExact(2, 3, 1, 2);
  }

  lemma SingleShareExample()
    ensures SecretAtZero([Share(7, 42)], 1) == Ok(42)
  {
    SingleShare([Share(7, 42)]);
  }

  lemma DuplicateExample()
    ensures SecretAtZero([Share(1, 5), Share(1, 9)], 2) == Err(DuplicateAbscissa)
  {
    var s := [Share(1, 5), Share(1, 9)];
    assert s[0].x == s[1].x;
  }
}
