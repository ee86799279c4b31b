/** Polynomials over the integers and their finite differences.  The n-th difference of a polynomial with at
    most n coefficients vanishes, which expresses its value at 0 through its values at 1, ..., n with
    integer weights. */
module Polynomials {

  /** The polynomial with the given coefficients, constant term first, at `x`. */
  function Eval(coefficients: seq<int>, x: int): int {
    if coefficients == [] then 0 else coefficients[0] + x * Eval(coefficients[1..], x)
  }

  // ---------------------------------------------------------------- finite differences

  /** The `n`-th forward difference at `a`. */
  function Difference(f: seq<int>, n: nat, a: int): int
    decreases n
  {
    if n == 0 then Eval(f, a) else Difference(f, n - 1, a + 1) - Difference(f, n - 1, a)
  }

  /** The product rule for `c + x * g(x)`. */
  lemma {:induction false} ProductRule(f: seq<int>, n: nat, a: int)
    requires f != []
    ensures Difference(f, n, a)
            == (if n == 0 then f[0] else n * Difference(f[1..], n - 1, a + 1)) + a * Difference(f[1..], n, a)
    decreases n
  {
    if n > 0 {
      ProductRule(f, n - 1, a);
      ProductRule(f, n - 1, a + 1);
      var g := f[1..];
      var x, y := Difference(g, n - 1, a), Difference(g, n - 1, a + 1);
      assert Difference(g, n, a) == y - x;
      Spread(a, x, y);
      if n > 1 {
        var u, v := Difference(g, n - 2, a + 1), Difference(g, n - 2, a + 2);
        assert y == v - u;
        Gather(n, u, v, y);
      }
    }
  }

  lemma Spread(a: int, x: int, y: int)
    ensures (a + 1) * y - a * x == a * (y - x) + y
  {
  }

  lemma Gather(n: int, u: int, v: int, y: int)
    requires y == v - u
    ensures (n - 1) * v - (n - 1) * u + y == n * y
  {
  }

  lemma {:induction false} DifferenceOfNothing(n: nat, a: int)
    ensures Difference([], n, a) == 0
    decreases n
  {
    if n > 0 {
      DifferenceOfNothing(n - 1, a);
      DifferenceOfNothing(n - 1, a + 1);
    }
  }

  /** Differences of an order beyond the degree vanish. */
  lemma {:induction false} DifferenceVanishes(f: seq<int>, n: nat, a: int)
    requires n >= |f|
    ensures Difference(f, n, a) == 0
    decreases |f|
  {
    if f == [] {
      DifferenceOfNothing(n, a);
    } else {
      ProductRule(f, n, a);
      DifferenceVanishes(f[1..], n, a);
      DifferenceVanishes(f[1..], n - 1, a + 1);
    }
  }

  // ---------------------------------------------------------------- differences as weighted sums

  /** The signed binomial coefficient of the `k`-th value in an `n`-th difference. */
  function Coefficient(n: nat, k: int): int
    decreases n
  {
    if k < 0 || k > n then 0
    else if n == 0 then 1
    else Coefficient(n - 1, k - 1) - Coefficient(n - 1, k)
  }

  /** The first `m` terms of the `n`-th difference written out. */
  function Terms(f: seq<int>, n: nat, a: int, m: nat): int
    decreases m
  {
    if m == 0 then 0 else Terms(f, n, a, m - 1) + Coefficient(n, m - 1) * Eval(f, a + (m - 1))
  }

  lemma {:induction false} TermsRecur(f: seq<int>, n: nat, a: int, m: nat)
    requires n > 0
    ensures Terms(f, n, a, m)
            == (if m == 0 then 0 else Terms(f, n - 1, a + 1, m - 1)) - Terms(f, n - 1, a, m)
    decreases m
  {
    if m > 0 {
      TermsRecur(f, n, a, m - 1);
      CoefficientRecur(n, m - 1, Eval(f, a + (m - 1)));
      if m > 1 {
        assert (a + 1) + (m - 2) == a + (m - 1);
        assert Terms(f, n - 1, a + 1, m - 1)
            == Terms(f, n - 1, a + 1, m - 2) + Coefficient(n - 1, m - 2) * Eval(f, a + (m - 1));
      }
    }
  }

  lemma CoefficientRecur(n: nat, k: nat, v: int)
    requires n > 0
    ensures Coefficient(n, k) * v == Coefficient(n - 1, k - 1) * v - Coefficient(n - 1, k) * v
    ensures Coefficient(n - 1, -1) == 0
  {
    var x, y := Coefficient(n - 1, k - 1), Coefficient(n - 1, k);
    assert Coefficient(n, k) == x - y;
    assert (x - y) * v == x * v - y * v;
  }

  lemma {:induction false} DifferenceIsTerms(f: seq<int>, n: nat, a: int)
    ensures Difference(f, n, a) == Terms(f, n, a, n + 1)
    decreases n
  {
    if n == 0 {
      assert Terms(f, 0, a, 0) == 0;
    } else {
      DifferenceIsTerms(f, n - 1, a);
      DifferenceIsTerms(f, n - 1, a + 1);
      TermsRecur(f, n, a, n + 1);
      assert Terms(f, n - 1, a, n + 1) == Terms(f, n - 1, a, n) + Coefficient(n - 1, n) * Eval(f, a + n);
    }
  }

  // ---------------------------------------------------------------- the value at zero

  function Alternating(n: nat): int {
    if n % 2 == 0 then 1 else -1
  }

  lemma {:induction false} FirstCoefficient(n: nat)
    ensures Coefficient(n, 0) == Alternating(n)
  {
    if n > 0 {
      FirstCoefficient(n - 1);
    }
  }

  /** The weight of the value at `i + 1` when `n` values determine the value at 0. */
  function Weight(n: nat, i: nat): int {
    -Alternating(n) * Coefficient(n, i + 1)
  }

  /** The weighted sum of the values at 1, ..., `m`. */
  function WeightedSum(f: seq<int>, n: nat, m: nat): int {
    if m == 0 then 0 else WeightedSum(f, n, m - 1) + Weight(n, m - 1) * Eval(f, m)
  }

  lemma {:induction false} TermsAreWeighted(f: seq<int>, n: nat, m: nat)
    ensures Terms(f, n, 0, m + 1) == Alternating(n) * (Eval(f, 0) - WeightedSum(f, n, m))
  {
    if m == 0 {
      FirstCoefficient(n);
      assert Terms(f, n, 0, 0) == 0;
    } else {
      TermsAreWeighted(f, n, m - 1);
      var s, c, v := Alternating(n), Coefficient(n, m), Eval(f, m);
      Signed(s, c, v, Eval(f, 0), WeightedSum(f, n, m - 1));
    }
  }

  lemma Signed(s: int, c: int, v: int, e: int, w: int)
    requires s == 1 || s == -1
    ensures s * (e - w) + c * v == s * (e - (w + (-s * c) * v))
  {
  }

  /** The value at 0 is the weighted sum of the values at 1, ..., `n`, if there are at most `n`
      coefficients. */
  lemma ValueAtZero(f: seq<int>, n: nat)
    requires n >= |f|
    ensures WeightedSum(f, n, n) == Eval(f, 0)
  {
    DifferenceVanishes(f, n, 0);
    DifferenceIsTerms(f, n, 0);
    TermsAreWeighted(f, n, n);
  }

  // ---------------------------------------------------------------- factorials

  function Factorial(n: nat): (r: nat)
    ensures r > 0
  {
    if n == 0 then 1 else n * Factorial(n - 1)
  }

  /** The coefficients are binomials: `n!` over `k!` and `(n - k)!`, up to sign. */
  lemma {:induction false} CoefficientFactorials(n: nat, k: nat)
    requires k <= n
    ensures Coefficient(n, k) * (Factorial(k) * Factorial(n - k)) == Alternating(n - k) * Factorial(n)
    decreases n
  {
    if n > 0 {
      var x, y := Coefficient(n - 1, k - 1), Coefficient(n - 1, k);
      var k', m', f := Factorial(k), Factorial(n - k), Factorial(n - 1);
      assert Coefficient(n, k) == x - y;
      if k == 0 {
        CoefficientFactorials(n - 1, 0);
        LowCorner(y, n, Factorial(n - 1), f);
      } else if k == n {
        CoefficientFactorials(n - 1, n - 1);
        assert y == 0;
        HighCorner(x, n, f);
      } else {
        CoefficientFactorials(n - 1, k - 1);
        CoefficientFactorials(n - 1, k);
        Pascal(x, y, k, n - k, Factorial(k - 1), Factorial(n - k - 1), f, Alternating(n - k));
      }
    }
  }

  lemma LowCorner(y: int, n: nat, m: int, f: int)
    requires n > 0 && y * (1 * m) == Alternating(n - 1) * f
    ensures (0 - y) * (1 * (n * m)) == Alternating(n) * (n * f)
  {
    assert (0 - y) * (n * m) == -(n * (y * m));
    assert Alternating(n) == -Alternating(n - 1);
    assert n * (Alternating(n - 1) * f) == Alternating(n - 1) * (n * f);
  }

  lemma HighCorner(x: int, n: nat, f: int)
    requires x * (f * 1) == f
    ensures x * ((n * f) * 1) == n * f
  {
    assert x * (n * f) == n * (x * f);
  }

  lemma Pascal(x: int, y: int, k: int, d: int, u: int, v: int, f: int, s: int)
    requires x * (u * (d * v)) == s * f
    requires y * ((k * u) * v) == -s * f
    ensures (x - y) * ((k * u) * (d * v)) == s * ((k + d) * f)
  {
    assert x * ((k * u) * (d * v)) == k * (x * (u * (d * v))) by { PullOut(x, k, u, d * v); }
    assert y * ((k * u) * (d * v)) == d * (y * ((k * u) * v)) by { PullOut(y, d, k * u, v); }
    Finish(k, d, s, f);
  }

  lemma PullOut(x: int, k: int, u: int, w: int)
    ensures x * ((k * u) * w) == k * (x * (u * w))
    ensures x * (u * (k * w)) == k * (x * (u * w))
  {
    assert (k * u) * w == k * (u * w) == u * (k * w);
  }

  lemma Finish(k: int, d: int, s: int, f: int)
    ensures k * (s * f) - d * (-s * f) == s * ((k + d) * f)
  {
  }
}
