/** What the degree of a key is for: fewer shares than it has coefficients say nothing about the secret. */
module Secrecy {
  import opened PrimeField
  import opened Polynomials
  import opened Library

  // ---------------------------------------------------------------- polynomials as coefficient lists

  function Scaled(f: seq<int>, c: int): (g: seq<int>)
    ensures |g| == |f|
  {
    seq(|f|, i requires 0 <= i < |f| => f[i] * c)
  }

  function Sum(f: seq<int>, g: seq<int>): (s: seq<int>)
    requires |f| == |g|
    ensures |s| == |f|
  {
    seq(|f|, i requires 0 <= i < |f| => f[i] + g[i])
  }

  function Reduced(f: seq<int>, p: nat): (g: seq<nat>)
    requires p > 0
    ensures |g| == |f|
  {
    seq(|f|, i requires 0 <= i < |f| => f[i] % p)
  }

  lemma {:induction false} ScaledEval(f: seq<int>, c: int, x: int)
    ensures Eval(Scaled(f, c), x) == Eval(f, x) * c
  {
    if f != [] {
      assert Scaled(f, c)[1..] == Scaled(f[1..], c);
      ScaledEval(f[1..], c, x);
      ScaledStep(f[0], x, Eval(f[1..], x), c);
    }
  }

  lemma ScaledStep(a: int, x: int, e: int, c: int)
    ensures a * c + x * (e * c) == (a + x * e) * c
  {
  }

  lemma {:induction false} SumEval(f: seq<int>, g: seq<int>, x: int)
    requires |f| == |g|
    ensures Eval(Sum(f, g), x) == Eval(f, x) + Eval(g, x)
  {
    if f != [] {
      assert Sum(f, g)[1..] == Sum(f[1..], g[1..]);
      SumEval(f[1..], g[1..], x);
      SumStep(x, Eval(f[1..], x), Eval(g[1..], x));
    }
  }

  lemma SumStep(x: int, d: int, e: int)
    ensures x * (d + e) == x * d + x * e
  {
  }

  lemma {:induction false} ReducedEval(f: seq<int>, p: nat, x: int)
    requires p > 0
    ensures Congruent(Eval(Reduced(f, p), x), Eval(f, x), p)
  {
    if f != [] {
      assert Reduced(f, p)[1..] == Reduced(f[1..], p);
      ReducedEval(f[1..], p, x);
      ReduceCongruent(f[0], p);
      MulCongruent(x, x, Eval(Reduced(f[1..], p), x), Eval(f[1..], x), p);
      AddCongruent(f[0] % p, f[0], x * Eval(Reduced(f[1..], p), x), x * Eval(f[1..], x), p);
    }
  }

  lemma {:induction false} AppendZero(f: seq<int>, x: int)
    ensures Eval(f + [0], x) == Eval(f, x)
  {
    if f == [] {
      assert [0][1..] == [];
      assert f + [0] == [0];
    } else {
      assert (f + [0])[1..] == f[1..] + [0];
      AppendZero(f[1..], x);
    }
  }

  // ---------------------------------------------------------------- a polynomial that vanishes at the holders

  /** The product of `x - (h + 1)` over the holders, filled up with zeros to the given length. */
  function VanishingAt(holders: seq<nat>, length: nat): (f: seq<int>)
    requires |holders| < length
    ensures |f| == length
    decreases |holders|, length
  {
    if holders == [] then [1] + seq(length - 1, i => 0)
    else
      var g := VanishingAt(holders[1..], length - 1);
      var a: int := holders[0] + 1;
      Sum([0] + g, Scaled(g + [0], -a))
  }

  /** Its value. */
  function Distances(holders: seq<nat>, x: int): int {
    if holders == [] then 1 else (x - (holders[0] + 1)) * Distances(holders[1..], x)
  }

  lemma {:induction false} ZerosEval(n: nat, x: int)
    ensures Eval(seq(n, i => 0), x) == 0
  {
    if n > 0 {
      assert seq(n, i => 0)[1..] == seq(n - 1, i => 0);
      ZerosEval(n - 1, x);
    }
  }

  lemma {:induction false} VanishingEval(holders: seq<nat>, length: nat, x: int)
    requires |holders| < length
    ensures Eval(VanishingAt(holders, length), x) == Distances(holders, x)
    decreases |holders|
  {
    if holders == [] {
      var zeros := seq(length - 1, i => 0);
      assert ([1] + zeros)[1..] == zeros;
      ZerosEval(length - 1, x);
    } else {
      var g, a: int := VanishingAt(holders[1..], length - 1), holders[0] + 1;
      VanishingEval(holders[1..], length - 1, x);
      SumEval([0] + g, Scaled(g + [0], -a), x);
      ScaledEval(g + [0], -a, x);
      AppendZero(g, x);
      assert ([0] + g)[1..] == g;
      Factor(x, a, Eval(g, x));
    }
  }

  lemma Factor(x: int, a: int, e: int)
    ensures x * e + e * -a == (x - a) * e
  {
  }

  lemma {:induction false} VanishesAtHolder(holders: seq<nat>, h: nat)
    requires h in holders
    ensures Distances(holders, h + 1) == 0
  {
    if holders[0] != h {
      assert holders == [holders[0]] + holders[1..];
      VanishesAtHolder(holders[1..], h);
    }
  }

  /** No listed holder sits at the point of the secret itself. */
  ghost predicate AwayFromSecret(holders: seq<nat>, p: nat)
    requires p > 0
  {
    forall i :: 0 <= i < |holders| ==> (holders[i] + 1) % p != 0
  }

  lemma {:induction false} NotZeroAtSecret(holders: seq<nat>, p: nat)
    requires Prime(p) && AwayFromSecret(holders, p)
    ensures Distances(holders, 0) % p != 0
  {
    if holders == [] {
      Remainder(1, p, 0, 1);
    } else {
      var a: int := holders[0] + 1;
      var d, e := 0 - a, Distances(holders[1..], 0);
      NotZeroAtSecret(holders[1..], p);
      NegatedNotDivisible(a, p);
      if (d * e) % p == 0 {
        PrimeDividesFactor(d, e, p);
      }
    }
  }

  lemma NegatedNotDivisible(a: int, p: nat)
    requires p > 0 && a % p != 0
    ensures (-a) % p != 0
  {
    if (-a) % p == 0 {
      Remainder(0, p, 0, 0);
      ScaleCongruent(-a, 0, -1, p);
    }
  }

  // ---------------------------------------------------------------- any secret fits

  /** How much of the vanishing polynomial moves the value at zero to the claimed secret. */
  function Shift(p: nat, poly: seq<int>, holders: seq<nat>, secret: int): int
    requires p > 0
  {
    (secret - Eval(poly, 0)) * Inverse(Distances(holders, 0), p)
  }

  /** The key moved by that much: it has the same shares at these holders, but the claimed secret. */
  function Moved(p: nat, poly: seq<int>, holders: seq<nat>, c: int): (other: seq<nat>)
    requires p > 0 && |holders| < |poly|
    ensures |other| == |poly|
  {
    Reduced(Sum(poly, Scaled(VanishingAt(holders, |poly|), c)), p)
  }

  lemma MovedEval(p: nat, poly: seq<int>, holders: seq<nat>, c: int, x: int)
    requires p > 0 && |holders| < |poly|
    ensures Congruent(Eval(Moved(p, poly, holders, c), x), Eval(poly, x) + Distances(holders, x) * c, p)
  {
    hide Reduced, Sum, Scaled, VanishingAt, Distances, Eval;
    var v := VanishingAt(holders, |poly|);
    ReducedEval(Sum(poly, Scaled(v, c)), p, x);
    SumEval(poly, Scaled(v, c), x);
    ScaledEval(v, c, x);
    VanishingEval(holders, |poly|, x);
  }

  lemma MovedSecret(p: nat, poly: seq<int>, holders: seq<nat>, secret: int)
    requires Prime(p) && |holders| < |poly| && AwayFromSecret(holders, p)
    ensures Congruent(Eval(Moved(p, poly, holders, Shift(p, poly, holders, secret)), 0), secret, p)
  {
    hide Moved, Distances, Eval, Inverse;
    var d, f := Distances(holders, 0), Eval(poly, 0);
    var i := Inverse(d, p);
    MovedEval(p, poly, holders, (secret - f) * i, 0);
    NotZeroAtSecret(holders, p);
    InverseCorrect(d, p);
    ScaleCongruent(d * i, 1, secret - f, p);
    assert (d * i) * (secret - f) == d * ((secret - f) * i);
    AddCongruent(f, f, d * ((secret - f) * i), secret - f, p);
  }

  /** Fewer holders than the key has coefficients cannot tell its secret: for every value there is a key with as many
      coefficients that has this secret and gives each of these holders the same share. */
  lemma SharesHideSecret(lib: Lib, poly: SecretKeySet, holders: seq<nat>, secret: nat) returns (other: SecretKeySet)
    requires GroupLaws(lib) && IsKeySet(lib, poly) && |holders| < |poly|
    requires AwayFromSecret(holders, lib.order) && secret < lib.order
    ensures IsKeySet(lib, other) && |other| == |poly| && SecretKey(lib, other) == secret
    ensures forall h :: h in holders ==> SecretKeyShare(lib, other, h) == SecretKeyShare(lib, poly, h)
  {
    var p := lib.order;
    var c := Shift(p, poly, holders, secret);
    other := Moved(p, poly, holders, c);
    MovedSecret(p, poly, holders, secret);
    Remainder(secret, p, 0, secret);
    forall h | h in holders ensures SecretKeyShare(lib, other, h) == SecretKeyShare(lib, poly, h) {
      MovedEval(p, poly, holders, c, h + 1);
      VanishesAtHolder(holders, h);
    }
  }
}
