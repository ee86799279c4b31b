/** Threshold keys: distributing shares, and combining signature shares by Lagrange interpolation at 0. */
module Threshold {
  import opened Wrappers
  import opened Ssz
  import opened PrimeField
  import opened Polynomials
  import opened Library

  // ---------------------------------------------------------------- interpolation at zero

  /** The product of the first `m` points except the `i`-th. */
  function OtherPoints(xs: seq<int>, i: nat, m: nat): int
    requires m <= |xs|
  {
    if m == 0 then 1
    else if m - 1 == i then OtherPoints(xs, i, m - 1)
    else OtherPoints(xs, i, m - 1) * xs[m - 1]
  }

  /** The product of the distances of the first `m` points from the `i`-th. */
  function Gaps(xs: seq<int>, i: nat, m: nat): int
    requires m <= |xs| && i < |xs|
  {
    if m == 0 then 1
    else if m - 1 == i then Gaps(xs, i, m - 1)
    else Gaps(xs, i, m - 1) * (xs[m - 1] - xs[i])
  }

  /** The value at 0 of the Lagrange polynomial that is 1 at point `i` and 0 at the others. */
  function LagrangeAtZero(p: nat, xs: seq<int>, i: nat): nat
    requires p > 0 && i < |xs|
  {
    (OtherPoints(xs, i, |xs|) * Inverse(Gaps(xs, i, |xs|), p)) % p
  }

  function InterpolateUpTo(p: nat, xs: seq<int>, samples: seq<int>, m: nat): int
    requires p > 0 && m <= |xs| == |samples|
  {
    if m == 0 then 0
    else InterpolateUpTo(p, xs, samples, m - 1) + LagrangeAtZero(p, xs, m - 1) * samples[m - 1]
  }

  function Interpolate(p: nat, xs: seq<int>, samples: seq<int>): nat
    requires p > 0 && |xs| == |samples|
  {
    InterpolateUpTo(p, xs, samples, |xs|) % p
  }

  // ---------------------------------------------------------------- the points 1, ..., n

  /** The points of the first `n` share positions. */
  function Points(n: nat): (xs: seq<int>)
    ensures |xs| == n
  {
    seq(n, i => i + 1)
  }

  lemma {:induction false} OthersAmongPoints(n: nat, i: nat, m: nat)
    requires i < n && m <= n
    ensures OtherPoints(Points(n), i, m) * (if m <= i then 1 else i + 1) == Factorial(m)
    decreases m
  {
    if m > 0 {
      OthersAmongPoints(n, i, m - 1);
      var x := OtherPoints(Points(n), i, m - 1);
      assert Factorial(m) == m * Factorial(m - 1);
      if m - 1 < i {
        assert OtherPoints(Points(n), i, m) == x * m;
      } else if m - 1 > i {
        assert OtherPoints(Points(n), i, m) == x * m;
        Swap(x, m, i + 1);
      }
    }
  }

  lemma Swap(x: int, m: int, d: int)
    ensures (x * m) * d == m * (x * d)
  {
  }

  lemma {:induction false} GapsAmongPoints(n: nat, i: nat, m: nat)
    requires i < n && m <= n
    ensures if m <= i then Gaps(Points(n), i, m) * Factorial(i - m) == Alternating(m) * Factorial(i)
            else Gaps(Points(n), i, m) == Alternating(i) * (Factorial(i) * Factorial(m - 1 - i))
    decreases m
  {
    if m > 0 {
      GapsAmongPoints(n, i, m - 1);
      NextGap(n, i, m);
      var x := Gaps(Points(n), i, m - 1);
      if m <= i {
        NextFactorial(i - m + 1);
        StepDown(x, i - m + 1, Factorial(i - m), Alternating(m - 1), Factorial(i));
      } else if m == i + 1 {
        StepAcross(x, Alternating(i), Factorial(i));
      } else {
        NextFactorial(m - 1 - i);
        StepUp(Alternating(i), Factorial(i), Factorial(m - 2 - i), m - 1 - i);
      }
    }
  }

  lemma NextGap(n: nat, i: nat, m: nat)
    requires i < n && 0 < m <= n
    ensures var x := Gaps(Points(n), i, m - 1);
            Gaps(Points(n), i, m) == if m - 1 == i then x else x * (m - 1 - i)
  {
    assert Points(n)[m - 1] - Points(n)[i] == m - 1 - i;
  }

  lemma NextFactorial(k: nat)
    requires k > 0
    ensures Factorial(k) == k * Factorial(k - 1)
  {
  }

  lemma StepDown(x: int, d: int, f: int, s: int, g: int)
    requires x * (d * f) == s * g
    ensures (x * -d) * f == -s * g
  {
    assert (x * -d) * f == -(x * (d * f));
    assert -s * g == -(s * g);
  }

  lemma StepAcross(x: int, s: int, f: int)
    requires x * Factorial(0) == s * f
    ensures x == s * (f * Factorial(0))
  {
    assert Factorial(0) == 1;
  }

  lemma StepUp(s: int, f: int, g: int, d: int)
    ensures (s * (f * g)) * d == s * (f * (d * g))
  {
  }

  lemma SignsCancel(n: nat, i: nat)
    requires i < n
    ensures Alternating(n) * Alternating(i) * Alternating(n - 1 - i) == -1
  {
  }

  /** The integer weight is the quotient of the two products. */
  lemma WeightIsQuotient(n: nat, i: nat)
    requires i < n
    ensures Weight(n, i) * Gaps(Points(n), i, n) == OtherPoints(Points(n), i, n)
  {
    var c, f, g := Coefficient(n, i + 1), Factorial(i), Factorial(n - 1 - i);
    OthersAmongPoints(n, i, n);
    GapsAmongPoints(n, i, n);
    CoefficientFactorials(n, i + 1);
    SignsCancel(n, i);
    QuotientArithmetic(Alternating(n), Alternating(i), Alternating(n - 1 - i), c, i + 1, f, g, Factorial(n));
    Cancel(i + 1, Weight(n, i) * Gaps(Points(n), i, n), OtherPoints(Points(n), i, n));
  }

  lemma QuotientArithmetic(s: int, u: int, v: int, c: int, d: int, f: int, g: int, total: int)
    requires s * u * v == -1 && c * ((d * f) * g) == v * total
    ensures ((-s * c) * (u * (f * g))) * d == total
  {
    assert ((-s * c) * (u * (f * g))) * d == -(s * u) * (c * ((d * f) * g));
    assert -(s * u) * (v * total) == -(s * u * v) * total;
  }

  lemma Cancel(d: int, x: int, y: int)
    requires d > 0 && x * d == y * d
    ensures x == y
  {
  }

  lemma {:induction false} FactorialNotDivisible(k: nat, p: nat)
    requires Prime(p) && k < p
    ensures Factorial(k) % p != 0
  {
    if k == 0 {
      Remainder(1, p, 0, 1);
    } else {
      FactorialNotDivisible(k - 1, p);
      Remainder(k, p, 0, k);
      if Factorial(k) % p == 0 {
        PrimeDividesFactor(k, Factorial(k - 1), p);
      }
    }
  }

  lemma GapsNotDivisible(n: nat, i: nat, p: nat)
    requires Prime(p) && i < n <= p
    ensures Gaps(Points(n), i, n) % p != 0
  {
    var f, g, s := Factorial(i), Factorial(n - 1 - i), Alternating(i);
    GapsAmongPoints(n, i, n);
    FactorialNotDivisible(i, p);
    FactorialNotDivisible(n - 1 - i, p);
    if (s * (f * g)) % p == 0 {
      PrimeDividesFactor(s, f * g, p);
      if s % p == 0 {
        UnitNotDivisible(s, p);
      } else {
        PrimeDividesFactor(f, g, p);
      }
    }
  }

  lemma UnitNotDivisible(s: int, p: nat)
    requires p >= 2 && (s == 1 || s == -1)
    ensures s % p != 0
  {
    if s == 1 { Remainder(1, p, 0, 1); } else { Remainder(-1, p, -1, p - 1); }
  }

  /** Modulo a prime the Lagrange value is the integer weight. */
  lemma LagrangeIsWeight(p: nat, n: nat, i: nat)
    requires Prime(p) && i < n <= p
    ensures Congruent(LagrangeAtZero(p, Points(n), i), Weight(n, i), p)
  {
    var o, g := OtherPoints(Points(n), i, n), Gaps(Points(n), i, n);
    WeightIsQuotient(n, i);
    GapsNotDivisible(n, i, p);
    QuotientByInverse(Weight(n, i), g, o, p);
    ReduceCongruent(o * Inverse(g, p), p);
  }

  // ---------------------------------------------------------------- the polynomial at zero

  /** Sample `i` is the polynomial at `i + 1`, scaled by `c`, modulo `p`. */
  ghost predicate Samples(p: nat, f: seq<int>, c: int, samples: seq<int>)
    requires p > 0
  {
    forall i :: 0 <= i < |samples| ==> Congruent(samples[i], Eval(f, i + 1) * c, p)
  }

  lemma {:induction false} PartialInterpolation(p: nat, f: seq<int>, c: int, samples: seq<int>, m: nat)
    requires Prime(p) && m <= |samples| <= p && Samples(p, f, c, samples)
    ensures Congruent(InterpolateUpTo(p, Points(|samples|), samples, m), WeightedSum(f, |samples|, m) * c, p)
    decreases m
  {
    var n := |samples|;
    if m > 0 {
      PartialInterpolation(p, f, c, samples, m - 1);
      var l, w, v := LagrangeAtZero(p, Points(n), m - 1), Weight(n, m - 1), Eval(f, m);
      LagrangeIsWeight(p, n, m - 1);
      MulCongruent(l, w, samples[m - 1], v * c, p);
      AddCongruent(InterpolateUpTo(p, Points(n), samples, m - 1), WeightedSum(f, n, m - 1) * c,
                   l * samples[m - 1], w * (v * c), p);
      CollectTerms(WeightedSum(f, n, m - 1), w, v, c);
    }
  }

  lemma CollectTerms(s: int, w: int, v: int, c: int)
    ensures s * c + w * (v * c) == (s + w * v) * c
  {
  }

  /** Enough samples at 1, ..., n determine the value at 0. */
  lemma InterpolationAtZero(p: nat, f: seq<int>, c: int, samples: seq<int>)
    requires Prime(p) && |f| <= |samples| <= p && Samples(p, f, c, samples)
    ensures Interpolate(p, Points(|samples|), samples) == (Eval(f, 0) * c) % p
  {
    PartialInterpolation(p, f, c, samples, |samples|);
    ValueAtZero(f, |samples|);
  }

  // ---------------------------------------------------------------- shares and their aggregation

  /** Shares 0, ..., n - 1 of a key, each with its public share. */
  function DistributeKeyShares(lib: Lib, poly: SecretKeySet, n: nat): (shares: seq<(nat, nat)>)
    requires lib.order > 0
    ensures |shares| == n
  {
    seq(n, id requires 0 <= id < n => (SecretKeyShare(lib, poly, id), PublicKeyShare(lib, PublicKeys(lib, poly), id)))
  }

  /** The library's combination: the first `threshold + 1` samples are interpolated. */
  function CombineSignatures(lib: Lib, keys: PublicKeySet, ids: seq<nat>, shares: seq<nat>): Result<nat>
    requires lib.order > 0 && |ids| == |shares|
  {
    if |shares| < |keys| then Err(NotEnoughShares)
    else Ok(Interpolate(lib.order, seq(|keys|, i requires 0 <= i < |keys| => ids[i] + 1), shares[..|keys|]))
  }

  /** Shares are numbered by their position in the list. */
  function AggregateSignatureShares(lib: Lib, keys: PublicKeySet, shares: seq<nat>): Result<nat>
    requires lib.order > 0
  {
    CombineSignatures(lib, keys, seq(|shares|, i => i), shares)
  }

  /** The signature shares of the first `k` share holders. */
  function SignatureShares(lib: Lib, poly: SecretKeySet, k: nat, message: Root): (shares: seq<nat>)
    requires lib.order > 0
    ensures |shares| == k
  {
    seq(k, i requires 0 <= i < k => Sign(lib, SecretKeyShare(lib, poly, i), message))
  }

  // ---------------------------------------------------------------- public keys and verification

  /** The public polynomial is the generator times the secret one. */
  lemma {:induction false} PublicEval(lib: Lib, poly: seq<nat>, x: int)
    requires lib.order > 0
    ensures Congruent(Eval(PublicKeys(lib, poly), x), Eval(poly, x) * lib.generator, lib.order)
  {
    if poly != [] {
      var p, g, rest := lib.order, lib.generator, poly[1..];
      var keys := PublicKeys(lib, poly);
      var u, v := Eval(keys[1..], x), Eval(rest, x);
      assert keys[1..] == PublicKeys(lib, rest);
      PublicEval(lib, rest, x);
      ReduceCongruent(poly[0] * g, p);
      MulCongruent(x, x, u, v * g, p);
      AddCongruent(keys[0], poly[0] * g, x * u, x * (v * g), p);
      CollectTerms(poly[0], x, v, g);
    }
  }

  lemma PointOfReduced(lib: Lib, a: int, b: nat)
    requires lib.order > 0 && Congruent(a, b * lib.generator, lib.order)
    ensures a % lib.order == PointOf(lib, b % lib.order)
  {
    ReduceCongruent(b, lib.order);
    ScaleCongruent(b % lib.order, b, lib.generator, lib.order);
  }

  /** Public shares, computed from the published key set alone, are the points of the secret shares; the group
      key is the point of the group secret. */
  lemma PublicShareIsPoint(lib: Lib, poly: SecretKeySet, i: nat)
    requires lib.order > 0
    ensures PublicKeyShare(lib, PublicKeys(lib, poly), i) == PointOf(lib, SecretKeyShare(lib, poly, i))
    ensures PublicKey(lib, PublicKeys(lib, poly)) == PointOf(lib, SecretKey(lib, poly))
  {
    PublicEval(lib, poly, i + 1);
    PublicEval(lib, poly, 0);
    EvalNat(poly, i + 1);
    EvalNat(poly, 0);
    PointOfReduced(lib, Eval(PublicKeys(lib, poly), i + 1), Eval(poly, i + 1));
    PointOfReduced(lib, Eval(PublicKeys(lib, poly), 0), Eval(poly, 0));
  }

  lemma {:induction false} EvalNat(poly: seq<nat>, x: nat)
    ensures Eval(poly, x) >= 0
  {
    if poly != [] {
      EvalNat(poly[1..], x);
    }
  }

  /** The only signature that verifies under the point of a secret is the one made with that secret. */
  lemma VerifiesIff(lib: Lib, secret: nat, signature: nat, message: Root)
    requires GroupLaws(lib) && signature < lib.order
    ensures Verify(lib, PointOf(lib, secret), signature, message) <==> signature == Sign(lib, secret, message)
  {
    var p, g, c := lib.order, lib.generator, lib.hashToCurve(message);
    ReduceCongruent(secret * g, p);
    ScaleCongruent((secret * g) % p, secret * g, c, p);
    assert (secret * g) * c == (secret * c) * g;
    Remainder(g, p, 0, g);
    CancelFactor(signature, secret * c, g, p);
    Remainder(signature, p, 0, signature);
  }

  /** Different secrets have different points. */
  lemma PointOfInjective(lib: Lib, a: nat, b: nat)
    requires GroupLaws(lib) && a < lib.order && b < lib.order && PointOf(lib, a) == PointOf(lib, b)
    ensures a == b
  {
    var p, g := lib.order, lib.generator;
    Remainder(g, p, 0, g);
    CancelFactor(a, b, g, p);
    Remainder(a, p, 0, a);
    Remainder(b, p, 0, b);
  }

  /** Two different roots are hashed to different points. */
  ghost predicate SeparatedPoints(lib: Lib, a: Root, b: Root) {
    lib.hashToCurve(a) == lib.hashToCurve(b) ==> a == b
  }

  /** Equal signatures by one secret are on one point of the curve. */
  lemma SameSignatureSamePoint(lib: Lib, secret: nat, a: Root, b: Root)
    requires GroupLaws(lib) && 0 < secret < lib.order && Sign(lib, secret, a) == Sign(lib, secret, b)
    ensures lib.hashToCurve(a) == lib.hashToCurve(b)
  {
    var p, x, y := lib.order, lib.hashToCurve(a), lib.hashToCurve(b);
    Remainder(secret, p, 0, secret);
    assert secret * x == x * secret && secret * y == y * secret;
    CancelFactor(x, y, secret, p);
    Remainder(x, p, 0, x);
    Remainder(y, p, 0, y);
  }

  /** A signature share verifies under the public share of its position, which is computed from the key set. */
  lemma ShareVerifies(lib: Lib, poly: SecretKeySet, i: nat, message: Root)
    requires GroupLaws(lib)
    ensures Verify(lib, PublicKeyShare(lib, PublicKeys(lib, poly), i),
                   Sign(lib, SecretKeyShare(lib, poly, i), message), message)
  {
    PublicShareIsPoint(lib, poly, i);
    VerifiesIff(lib, SecretKeyShare(lib, poly, i), Sign(lib, SecretKeyShare(lib, poly, i), message), message);
  }

  /** So does the group signature under the group key. */
  lemma GroupSignatureVerifies(lib: Lib, poly: SecretKeySet, message: Root)
    requires GroupLaws(lib)
    ensures Verify(lib, PublicKey(lib, PublicKeys(lib, poly)), Sign(lib, SecretKey(lib, poly), message), message)
  {
    PublicShareIsPoint(lib, poly, 0);
    VerifiesIff(lib, SecretKey(lib, poly), Sign(lib, SecretKey(lib, poly), message), message);
  }

  lemma SharesAreSamples(lib: Lib, poly: SecretKeySet, k: nat, message: Root)
    requires lib.order > 0
    ensures Samples(lib.order, poly, lib.hashToCurve(message), SignatureShares(lib, poly, k, message))
  {
    var p, c, shares := lib.order, lib.hashToCurve(message), SignatureShares(lib, poly, k, message);
    forall i | 0 <= i < |shares| ensures Congruent(shares[i], Eval(poly, i + 1) * c, p) {
      var v := Eval(poly, i + 1);
      ReduceCongruent(v, p);
      ScaleCongruent(v % p, v, c, p);
      ReduceCongruent((v % p) * c, p);
    }
  }

  /** The shares of any in-order prefix of the holders, as many as the key has coefficients or more,
      aggregate to exactly the group signature; fewer are refused. */
  lemma AggregateIsGroupSignature(lib: Lib, poly: SecretKeySet, k: nat, message: Root)
    requires Prime(lib.order) && |poly| <= lib.order
    ensures AggregateSignatureShares(lib, PublicKeys(lib, poly), SignatureShares(lib, poly, k, message))
            == if k < |poly| then Err(NotEnoughShares) else Ok(Sign(lib, SecretKey(lib, poly), message))
  {
    if k >= |poly| {
      var p, c, n := lib.order, lib.hashToCurve(message), |poly|;
      var shares := SignatureShares(lib, poly, k, message);
      var used := shares[..n];
      SharesAreSamples(lib, poly, k, message);
      assert Samples(p, poly, c, used);
      InterpolationAtZero(p, poly, c, used);
      var ids := seq(k, i => i);
      assert seq(n, i requires 0 <= i < n => ids[i] + 1) == Points(n);
      ReduceCongruent(Eval(poly, 0), p);
      ScaleCongruent(Eval(poly, 0) % p, Eval(poly, 0), c, p);
    }
  }

  // ---------------------------------------------------------------- shares out of position

  function Power(x: int, k: nat): int {
    if k == 0 then 1 else x * Power(x, k - 1)
  }

  /** The `k`-th power sum of the holders' points, each weighted with the Lagrange value of its place in the
      list. */
  function Moment(p: nat, holders: seq<nat>, k: nat, m: nat): int
    requires p > 0 && m <= |holders|
    decreases m
  {
    if m == 0 then 0
    else Moment(p, holders, k, m - 1)
         + LagrangeAtZero(p, Points(|holders|), m - 1) * Power(holders[m - 1] + 1, k)
  }

  /** The values of `f` at the holders' points, times the `k`-th power of the points. */
  function HolderValues(f: seq<int>, holders: seq<nat>, k: nat): (s: seq<int>)
    ensures |s| == |holders|
  {
    seq(|holders|, i requires 0 <= i < |holders| => Power(holders[i] + 1, k) * Eval(f, holders[i] + 1))
  }

  lemma {:induction false} SplitConstant(p: nat, f: seq<int>, holders: seq<nat>, k: nat, m: nat)
    requires p > 0 && f != [] && m <= |holders|
    ensures InterpolateUpTo(p, Points(|holders|), HolderValues(f, holders, k), m)
            == f[0] * Moment(p, holders, k, m)
               + InterpolateUpTo(p, Points(|holders|), HolderValues(f[1..], holders, k + 1), m)
    decreases m
  {
    if m > 0 {
      SplitConstant(p, f, holders, k, m - 1);
      var x := holders[m - 1] + 1;
      SplitTerm(LagrangeAtZero(p, Points(|holders|), m - 1), Power(x, k), f[0], x, Eval(f[1..], x),
                Moment(p, holders, k, m - 1));
    }
  }

  lemma SplitTerm(l: int, w: int, c: int, x: int, e: int, s: int)
    ensures l * (w * (c + x * e)) == c * (l * w) + l * ((x * w) * e)
    ensures c * (s + l * w) == c * s + c * (l * w)
  {
    assert w * (c + x * e) == c * w + (x * w) * e by {
      assert w * (c + x * e) == w * c + w * (x * e);
      assert w * (x * e) == (x * w) * e;
    }
    assert l * (c * w + (x * w) * e) == l * (c * w) + l * ((x * w) * e);
    assert l * (c * w) == c * (l * w);
  }

  lemma {:induction false} NoValues(p: nat, holders: seq<nat>, k: nat, m: nat)
    requires p > 0 && m <= |holders|
    ensures InterpolateUpTo(p, Points(|holders|), HolderValues([], holders, k), m) == 0
    decreases m
  {
    if m > 0 {
      NoValues(p, holders, k, m - 1);
    }
  }

  /** The power sums from the `k`-th on vanish, as far as `f` reaches. */
  ghost predicate MomentsVanish(p: nat, holders: seq<nat>, from: nat, to: nat)
    requires p > 0
  {
    forall k :: from <= k < to ==> Congruent(Moment(p, holders, k, |holders|), 0, p)
  }

  lemma {:induction false} VanishingTail(p: nat, f: seq<int>, holders: seq<nat>, k: nat)
    requires p > 0 && MomentsVanish(p, holders, k, k + |f|)
    ensures Congruent(InterpolateUpTo(p, Points(|holders|), HolderValues(f, holders, k), |holders|), 0, p)
    decreases |f|
  {
    if f == [] {
      NoValues(p, holders, k, |holders|);
    } else {
      var n := |holders|;
      var m := Moment(p, holders, k, n);
      SplitConstant(p, f, holders, k, n);
      VanishingTail(p, f[1..], holders, k + 1);
      ScaleCongruent(m, 0, f[0], p);
      assert m * f[0] == f[0] * m;
      AddCongruent(f[0] * m, 0, InterpolateUpTo(p, Points(n), HolderValues(f[1..], holders, k + 1), n), 0, p);
    }
  }

  lemma {:induction false} MomentZero(p: nat, holders: seq<nat>, n: nat, m: nat)
    requires p > 0 && n == |holders| && m <= n
    ensures Moment(p, holders, 0, m) == InterpolateUpTo(p, Points(n), seq(n, i => 1), m)
    decreases m
  {
    if m > 0 {
      MomentZero(p, holders, n, m - 1);
    }
  }

  /** The weights of the list add up to one. */
  lemma WeightsAddUp(p: nat, holders: seq<nat>)
    requires Prime(p) && 1 <= |holders| <= p
    ensures Congruent(Moment(p, holders, 0, |holders|), 1, p)
  {
    var n := |holders|;
    var ones := seq(n, i => 1);
    MomentZero(p, holders, n, n);
    forall i | 0 <= i < n ensures Congruent(ones[i], Eval([1], i + 1) * 1, p) {
      assert [1][1..] == [];
      assert Eval([1], i + 1) == 1 + (i + 1) * Eval([], i + 1);
    }
    InterpolationAtZero(p, [1], 1, ones);
    assert Eval([1], 0) == 1;
  }

  /** The holders in the list, numbered by their place in it, recover the secret of `f`. */
  ghost predicate Recovers(p: nat, f: seq<int>, holders: seq<nat>)
    requires p > 0
  {
    Congruent(InterpolateUpTo(p, Points(|holders|), HolderValues(f, holders, 0), |holders|), Eval(f, 0), p)
  }

  lemma RecoversIfVanishing(p: nat, f: seq<int>, holders: seq<nat>)
    requires Prime(p) && 1 <= |holders| <= p && |f| == |holders| && MomentsVanish(p, holders, 1, |holders|)
    ensures Recovers(p, f, holders)
  {
    var n := |holders|;
    SplitConstant(p, f, holders, 0, n);
    VanishingTail(p, f[1..], holders, 1);
    WeightsAddUp(p, holders);
    var m := Moment(p, holders, 0, n);
    ScaleCongruent(m, 1, f[0], p);
    assert m * f[0] == f[0] * m;
    AddCongruent(f[0] * m, f[0], InterpolateUpTo(p, Points(n), HolderValues(f[1..], holders, 1), n), 0, p);
  }

  /** The coefficients of the `k`-th power, as a list of length `n`. */
  function Monomial(k: nat, n: nat): (f: seq<int>)
    ensures |f| == n
  {
    seq(n, i => if i == k then 1 else 0)
  }

  lemma {:induction false} ZerosInterpolation(p: nat, n: nat, holders: seq<nat>, j: nat)
    requires p > 0
    ensures InterpolateUpTo(p, Points(|holders|), HolderValues(seq(n, i => 0), holders, j), |holders|) == 0
    decreases n
  {
    var f := seq(n, i => 0);
    if n == 0 {
      assert f == [];
      NoValues(p, holders, j, |holders|);
    } else {
      SplitConstant(p, f, holders, j, |holders|);
      ZerosInterpolation(p, n - 1, holders, j + 1);
      assert f[1..] == seq(n - 1, i => 0);
    }
  }

  lemma {:induction false} MonomialInterpolation(p: nat, k: nat, n: nat, holders: seq<nat>, j: nat)
    requires p > 0 && k < n
    ensures InterpolateUpTo(p, Points(|holders|), HolderValues(Monomial(k, n), holders, j), |holders|)
            == Moment(p, holders, j + k, |holders|)
    ensures k > 0 ==> Eval(Monomial(k, n), 0) == 0
    decreases k
  {
    var f := Monomial(k, n);
    SplitConstant(p, f, holders, j, |holders|);
    if k == 0 {
      assert f[1..] == seq(n - 1, i => 0);
      ZerosInterpolation(p, n - 1, holders, j + 1);
    } else {
      assert f[1..] == Monomial(k - 1, n - 1);
      MonomialInterpolation(p, k - 1, n - 1, holders, j + 1);
    }
  }

  /** The signature shares of the listed holders, in list order. */
  function SharesOf(lib: Lib, poly: SecretKeySet, holders: seq<nat>, message: Root): (shares: seq<nat>)
    requires lib.order > 0
    ensures |shares| == |holders|
  {
    seq(|holders|, i requires 0 <= i < |holders| => Sign(lib, SecretKeyShare(lib, poly, holders[i]), message))
  }

  lemma {:induction false} SharesInterpolate(lib: Lib, poly: SecretKeySet, holders: seq<nat>, message: Root, m: nat)
    requires lib.order > 0 && m <= |holders|
    ensures Congruent(
              InterpolateUpTo(lib.order, Points(|holders|), SharesOf(lib, poly, holders, message), m),
              InterpolateUpTo(lib.order, Points(|holders|), HolderValues(poly, holders, 0), m)
                * lib.hashToCurve(message), lib.order)
    decreases m
  {
    if m > 0 {
      SharesInterpolate(lib, poly, holders, message, m - 1);
      var p, c, n := lib.order, lib.hashToCurve(message), |holders|;
      var share, value := SharesOf(lib, poly, holders, message)[m - 1], HolderValues(poly, holders, 0)[m - 1];
      var v := Eval(poly, holders[m - 1] + 1);
      assert value == 1 * v;
      ReduceCongruent(v, p);
      ScaleCongruent(v % p, v, c, p);
      ReduceCongruent((v % p) * c, p);
      var l := LagrangeAtZero(p, Points(n), m - 1);
      MulCongruent(l, l, share, v * c, p);
      var s, t := InterpolateUpTo(p, Points(n), SharesOf(lib, poly, holders, message), m - 1),
                  InterpolateUpTo(p, Points(n), HolderValues(poly, holders, 0), m - 1);
      AddCongruent(s, t * c, l * share, l * (v * c), p);
      CollectTerms(t, l, v, c);
    }
  }

  lemma AggregateOfFirst(lib: Lib, poly: SecretKeySet, holders: seq<nat>, message: Root)
    requires lib.order > 0
    ensures var n, k := |poly|, |holders|;
            AggregateSignatureShares(lib, PublicKeys(lib, poly), SharesOf(lib, poly, holders, message))
            == if k < n then Err(NotEnoughShares)
               else Ok(Interpolate(lib.order, Points(n), SharesOf(lib, poly, holders[..n], message)))
  {
    var n, k := |poly|, |holders|;
    if k >= n {
      var ids := seq(k, i => i);
      assert seq(n, i requires 0 <= i < n => ids[i] + 1) == Points(n);
      assert SharesOf(lib, poly, holders, message)[..n] == SharesOf(lib, poly, holders[..n], message);
    }
  }

  /** For a message that is not hashed to the neutral element, the aggregate of the listed holders' shares is
      the group signature exactly when there are enough of them and numbering the first ones by place recovers
      the secret. */
  lemma AggregateOfListed(lib: Lib, poly: SecretKeySet, holders: seq<nat>, message: Root)
    requires Prime(lib.order) && lib.hashToCurve(message) % lib.order != 0
    ensures AggregateSignatureShares(lib, PublicKeys(lib, poly), SharesOf(lib, poly, holders, message))
              == Ok(Sign(lib, SecretKey(lib, poly), message))
            <==> |holders| >= |poly| && Recovers(lib.order, poly, holders[..|poly|])
  {
    AggregateOfFirst(lib, poly, holders, message);
    if |holders| >= |poly| {
      var p, c, n, used := lib.order, lib.hashToCurve(message), |poly|, holders[..|poly|];
      var t, e := InterpolateUpTo(p, Points(n), HolderValues(poly, used, 0), n), Eval(poly, 0);
      SharesInterpolate(lib, poly, used, message, n);
      ReduceCongruent(e, p);
      ScaleCongruent(e % p, e, c, p);
      CancelFactor(t, e, c, p);
    }
  }

  /** Shares that are not at their own places: the aggregate is right for every key with `n` coefficients if and
      only if there are `n` holders and the weighted power sums of the points of the first `n` vanish up to the
      degree. */
  lemma PlaceNumberingIsRightIff(lib: Lib, n: nat, holders: seq<nat>, message: Root)
    requires Prime(lib.order) && 1 <= n <= lib.order && lib.hashToCurve(message) % lib.order != 0
    ensures (forall poly: SecretKeySet :: IsKeySet(lib, poly) && |poly| == n ==>
               AggregateSignatureShares(lib, PublicKeys(lib, poly), SharesOf(lib, poly, holders, message))
               == Ok(Sign(lib, SecretKey(lib, poly), message)))
            <==> n <= |holders| && MomentsVanish(lib.order, holders[..n], 1, n)
  {
    var p := lib.order;
    if n <= |holders| && MomentsVanish(p, holders[..n], 1, n) {
      forall poly: SecretKeySet | IsKeySet(lib, poly) && |poly| == n
        ensures AggregateSignatureShares(lib, PublicKeys(lib, poly), SharesOf(lib, poly, holders, message))
                == Ok(Sign(lib, SecretKey(lib, poly), message))
      {
        RecoversIfVanishing(p, poly, holders[..n]);
        AggregateOfListed(lib, poly, holders, message);
      }
    } else {
      var k := if n <= |holders| then NonVanishing(p, holders[..n], n) else 0;
      var poly: SecretKeySet := Monomial(k, n);
      assert IsKeySet(lib, poly);
      if n <= |holders| {
        MonomialInterpolation(p, k, n, holders[..n], 0);
        assert !Recovers(p, poly, holders[..n]);
      }
      AggregateOfListed(lib, poly, holders, message);
    }
  }

  /** A power sum that does not vanish. */
  ghost function NonVanishing(p: nat, holders: seq<nat>, n: nat): (k: nat)
    requires p > 0 && !MomentsVanish(p, holders, 1, n)
    ensures 1 <= k < n && !Congruent(Moment(p, holders, k, |holders|), 0, p)
  {
    var k: nat :| 1 <= k < n && !Congruent(Moment(p, holders, k, |holders|), 0, p);
    k
  }

  /** With two holders the condition is that the second point is twice the first; so holders 0 and 1 are
      right, and so are 1 and 3, but 1 and 2 are not. */
  lemma TwoHolders(p: nat, first: nat, second: nat)
    requires Prime(p)
    ensures MomentsVanish(p, [first, second], 1, 2) <==> Congruent(2 * (first + 1), second + 1, p)
  {
    var holders := [first, second];
    var x, y := first + 1, second + 1;
    var l, m := LagrangeAtZero(p, Points(2), 0), LagrangeAtZero(p, Points(2), 1);
    TwoWeights();
    LagrangeIsWeight(p, 2, 0);
    LagrangeIsWeight(p, 2, 1);
    assert Power(x, 1) == x * Power(x, 0) == x && Power(y, 1) == y * Power(y, 0) == y;
    assert Moment(p, holders, 1, 2) == Moment(p, holders, 1, 1) + m * y;
    assert Moment(p, holders, 1, 1) == l * x;
    MulCongruent(l, 2, x, x, p);
    MulCongruent(m, -1, y, y, p);
    AddCongruent(l * x, 2 * x, m * y, -1 * y, p);
    DifferenceVanishesIff(2 * x, y, p);
  }

  lemma TwoWeights()
    ensures Weight(2, 0) == 2 && Weight(2, 1) == -1
  {
    assert Coefficient(0, -1) == 0 && Coefficient(0, 0) == 1 && Coefficient(0, 1) == 0;
    assert Coefficient(1, 0) == -1 && Coefficient(1, 1) == 1 && Coefficient(1, 2) == 0;
    assert Coefficient(2, 1) == -2 && Coefficient(2, 2) == 1;
  }

  lemma DifferenceVanishesIff(a: int, b: int, p: nat)
    requires p > 0
    ensures Congruent(a + -1 * b, 0, p) <==> Congruent(a, b, p)
  {
    if Congruent(a, b, p) {
      AddCongruent(a, b, -b, -b, p);
    }
    if Congruent(a + -1 * b, 0, p) {
      AddCongruent(a + -1 * b, 0, b, b, p);
    }
  }
}
