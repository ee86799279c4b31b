/** Arithmetic modulo a prime: congruences and inverses. */
module PrimeField {

  predicate Prime(p: nat) {
    p >= 2 && forall d :: 2 <= d < p ==> p % d != 0
  }

  predicate Congruent(a: int, b: int, p: nat)
    requires p > 0
  {
    a % p == b % p
  }

  // ---------------------------------------------------------------- congruences

  lemma Remainder(x: int, p: nat, q: int, r: int)
    requires p > 0 && x == p * q + r && 0 <= r < p
    ensures x % p == r
  {
    var q' := x / p;
    assert x == p * q' + x % p;
    if q' < q {
      Scale(p, q' + 1, q);
    } else if q < q' {
      Scale(p, q + 1, q');
    }
  }

  lemma Scale(p: nat, x: int, y: int)
    requires x <= y
    ensures p * x <= p * y
  {
  }

  /** Congruent numbers differ by a multiple of the modulus. */
  lemma Multiple(a: int, b: int, p: nat) returns (k: int)
    requires p > 0 && Congruent(a, b, p)
    ensures a == b + p * k
  {
    k := a / p - b / p;
    assert a == p * (a / p) + a % p;
    assert b == p * (b / p) + b % p;
    assert p * (a / p - b / p) == p * (a / p) - p * (b / p);
  }

  lemma FromMultiple(a: int, b: int, p: nat, k: int)
    requires p > 0 && a == b + p * k
    ensures Congruent(a, b, p)
  {
    var q := b / p;
    assert b == p * q + b % p;
    assert p * (q + k) == p * q + p * k;
    Remainder(a, p, q + k, b % p);
  }

  lemma ReduceCongruent(a: int, p: nat)
    requires p > 0
    ensures Congruent(a % p, a, p)
  {
    Remainder(a % p, p, 0, a % p);
  }

  lemma AddCongruent(a: int, b: int, c: int, d: int, p: nat)
    requires p > 0 && Congruent(a, b, p) && Congruent(c, d, p)
    ensures Congruent(a + c, b + d, p)
  {
    var k := Multiple(a, b, p);
    var l := Multiple(c, d, p);
    assert p * (k + l) == p * k + p * l;
    FromMultiple(a + c, b + d, p, k + l);
  }

  lemma ScaleCongruent(a: int, b: int, c: int, p: nat)
    requires p > 0 && Congruent(a, b, p)
    ensures Congruent(a * c, b * c, p)
  {
    var k := Multiple(a, b, p);
    assert (b + p * k) * c == b * c + p * (k * c);
    FromMultiple(a * c, b * c, p, k * c);
  }

  lemma MulCongruent(a: int, b: int, c: int, d: int, p: nat)
    requires p > 0 && Congruent(a, b, p) && Congruent(c, d, p)
    ensures Congruent(a * c, b * d, p)
  {
    ScaleCongruent(a, b, c, p);
    ScaleCongruent(c, d, b, p);
    assert c * b == b * c && d * b == b * d;
  }

  // ---------------------------------------------------------------- inverses

  /** Bezout: a common divisor `g` of `a` and `b` with `a * u + b * v == g`, and the quotients by it. */
  datatype Bezout = Bezout(g: nat, u: int, v: int, s: int, t: int)

  function ExtendedEuclid(a: nat, b: nat): (r: Bezout)
    requires a > 0 || b > 0
    ensures r.g > 0 && a * r.u + b * r.v == r.g
    ensures a == r.g * r.s && b == r.g * r.t
    decreases b
  {
    if b == 0 then Bezout(a, 1, 0, 1, 0) else
      var q, m := a / b, a % b;
      var r := ExtendedEuclid(b, m);
      EuclidStep(a, b, q, m, r);
      Bezout(r.g, r.v, r.u - q * r.v, q * r.s + r.t, r.s)
  }

  lemma EuclidStep(a: nat, b: nat, q: nat, m: nat, r: Bezout)
    requires b > 0 && q == a / b && m == a % b
    requires b * r.u + m * r.v == r.g && b == r.g * r.s && m == r.g * r.t
    ensures a * r.v + b * (r.u - q * r.v) == r.g
    ensures a == r.g * (q * r.s + r.t)
  {
    assert a == b * q + m;
    assert a * r.v == b * (q * r.v) + m * r.v by { Expand(b, q, m, r.v); }
    assert b * (r.u - q * r.v) == b * r.u - b * (q * r.v);
    assert r.g * (q * r.s + r.t) == (r.g * r.s) * q + r.g * r.t by { Regroup(r.g, q, r.s, r.t); }
  }

  lemma Expand(b: int, q: int, m: int, v: int)
    ensures (b * q + m) * v == b * (q * v) + m * v
  {
  }

  lemma Regroup(g: int, q: int, s: int, t: int)
    ensures g * (q * s + t) == (g * s) * q + g * t
  {
  }

  /** The inverse of `a` modulo a prime; some number when there is none. */
  function Inverse(a: int, p: nat): (r: nat)
    requires p > 0
    ensures r < p
  {
    ExtendedEuclid(a % p, p).u % p
  }

  lemma InverseCorrect(a: int, p: nat)
    requires Prime(p) && a % p != 0
    ensures Congruent(a * Inverse(a, p), 1, p)
  {
    var x := a % p;
    var r := ExtendedEuclid(x, p);
    OnlyTrivialDivisor(x, p, r.g, r.s, r.t);
    BezoutCongruent(x, r.u, p, r.v);
    ReduceCongruent(a, p);
    ReduceCongruent(r.u, p);
    ReduceBoth(x, a, r.u % p, r.u, p);
  }

  lemma BezoutCongruent(x: int, u: int, p: nat, v: int)
    requires p > 0 && x * u + p * v == 1
    ensures Congruent(x * u, 1, p)
  {
    assert p * (-v) == -(p * v);
    FromMultiple(x * u, 1, p, -v);
  }

  lemma ReduceBoth(x: int, a: int, w: int, u: int, p: nat)
    requires p > 0 && Congruent(x, a, p) && Congruent(w, u, p) && Congruent(x * u, 1, p)
    ensures Congruent(a * w, 1, p)
  {
    MulCongruent(x, a, w, u, p);
    MulCongruent(x, a, u, u, p);
    MulCongruent(a, a, w, u, p);
  }

  lemma OnlyTrivialDivisor(x: nat, p: nat, g: nat, s: int, t: int)
    requires Prime(p) && 0 < x < p && g > 0 && x == g * s && p == g * t
    ensures g == 1
  {
    if s <= 0 {
      Scale(g, s, 0);
    } else {
      Scale(g, 1, s);
    }
    if g >= 2 {
      Remainder(p, g, t, 0);
    }
  }

  /** A product is divisible by a prime only if a factor is. */
  lemma PrimeDividesFactor(a: int, b: int, p: nat)
    requires Prime(p) && (a * b) % p == 0
    ensures a % p == 0 || b % p == 0
  {
    if a % p != 0 {
      var c := Inverse(a, p);
      InverseCorrect(a, p);
      Remainder(0, p, 0, 0);
      ScaleCongruent(a * b, 0, c, p);
      ScaleCongruent(a * c, 1, b, p);
      assert (a * b) * c == (a * c) * b;
    }
  }

  /** Dividing by the inverse: if `w * d` is `n`, then `n` times the inverse of `d` is `w`. */
  lemma QuotientByInverse(w: int, d: int, n: int, p: nat)
    requires Prime(p) && d % p != 0 && w * d == n
    ensures Congruent(n * Inverse(d, p), w, p)
  {
    InverseCorrect(d, p);
    ScaleCongruent(d * Inverse(d, p), 1, w, p);
    assert n * Inverse(d, p) == (d * Inverse(d, p)) * w;
  }

  /** A factor that is not divisible by the prime can be cancelled. */
  lemma CancelFactor(t: int, e: int, c: int, p: nat)
    requires Prime(p) && c % p != 0
    ensures Congruent(t * c, e * c, p) <==> Congruent(t, e, p)
  {
    if Congruent(t, e, p) {
      ScaleCongruent(t, e, c, p);
    }
    if Congruent(t * c, e * c, p) {
      var k := Multiple(t * c, e * c, p);
      assert (t - e) * c == 0 + p * k;
      FromMultiple((t - e) * c, 0, p, k);
      Remainder(0, p, 0, 0);
      PrimeDividesFactor(t - e, c, p);
      assert t - e == p * ((t - e) / p) + (t - e) % p;
      FromMultiple(t, e, p, (t - e) / p);
    }
  }
}
