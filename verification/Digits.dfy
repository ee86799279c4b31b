/** Little-endian positional notation: bytes in base 256 and limbs in base 2^64. */
module Digits {

  const LIMB: nat := 0x1_0000_0000_0000_0000

  function Pow(b: nat, k: nat): (r: nat)
    ensures b > 0 ==> r > 0
    decreases k
  {
    if k == 0 then 1 else b * Pow(b, k - 1)
  }

  predicate DigitsBelow(ds: seq<nat>, base: nat) {
    forall i :: 0 <= i < |ds| ==> ds[i] < base
  }

  /** The number written by `ds`, least significant digit first. */
  function Value(ds: seq<nat>, base: nat): nat
    decreases |ds|
  {
    if ds == [] then 0 else ds[0] + base * Value(ds[1..], base)
  }

  /** A digit list is below the power its length allows. */
  lemma {:induction false} ValueBelow(ds: seq<nat>, base: nat)
    requires base >= 1 && DigitsBelow(ds, base)
    ensures Value(ds, base) < Pow(base, |ds|)
    decreases |ds|
  {
    if ds != [] {
      ValueBelow(ds[1..], base);
      AppendBelow(ds[0], base, Value(ds[1..], base), Pow(base, |ds| - 1));
    }
  }

  lemma AppendBelow(d: nat, base: nat, v: nat, w: nat)
    requires d < base && v < w
    ensures d + base * v < base * w
  {
    MulMonotone(base, v + 1, w);
  }

  lemma MulMonotone(a: nat, x: int, y: int)
    requires x <= y
    ensures a * x <= a * y
  {
  }

  /** Reading a longer list in two pieces. */
  lemma {:induction false} ValueConcat(a: seq<nat>, b: seq<nat>, base: nat)
    ensures Value(a + b, base) == Value(a, base) + Pow(base, |a|) * Value(b, base)
    decreases |a|
  {
    if a == [] {
      assert a + b == b;
    } else {
      ValueConcat(a[1..], b, base);
      assert (a + b)[1..] == a[1..] + b;
      Distribute(base, Value(a[1..], base), Pow(base, |a| - 1), Value(b, base));
    }
  }

  lemma Distribute(b: nat, x: nat, y: nat, z: nat)
    ensures b * (x + y * z) == b * x + (b * y) * z
  {
  }

  // ---------------------------------------------------------------- limbs

  /** No superfluous high zero: the last limb is the most significant one. */
  predicate CanonicalLimbs(ds: seq<nat>) {
    DigitsBelow(ds, LIMB) && (ds != [] ==> ds[|ds| - 1] != 0)
  }

  /** The limbs of `n`; none at all for zero. */
  function ToLimbs(n: nat): seq<nat> {
    if n == 0 then [] else [n % LIMB] + ToLimbs(n / LIMB)
  }

  /** `ToLimbs` writes `n`, canonically. */
  lemma {:induction false} ToLimbsValue(n: nat)
    ensures Value(ToLimbs(n), LIMB) == n
    ensures CanonicalLimbs(ToLimbs(n))
  {
    if n > 0 {
      var rest := ToLimbs(n / LIMB);
      ToLimbsValue(n / LIMB);
      assert ToLimbs(n)[1..] == rest;
      if n / LIMB == 0 {
        assert rest == [];
      }
    }
  }

  /** A canonical limb list is the only one for its value. */
  lemma {:induction false} CanonicalIsToLimbs(ds: seq<nat>)
    requires CanonicalLimbs(ds)
    ensures ToLimbs(Value(ds, LIMB)) == ds
    ensures ds != [] ==> Value(ds, LIMB) > 0
  {
    if ds != [] {
      CanonicalIsToLimbs(ds[1..]);
      assert [ds[0]] + ds[1..] == ds;
    }
  }

  /** How many limbs a number needs: `k` exactly when it lies between the powers `k - 1` and `k`. */
  lemma {:induction false} LimbCount(n: nat, k: nat)
    requires k >= 1
    ensures |ToLimbs(n)| == k <==> Pow(LIMB, k - 1) <= n < Pow(LIMB, k)
    decreases k
  {
    if n > 0 && k > 1 {
      LimbCount(n / LIMB, k - 1);
    }
  }

  // ---------------------------------------------------------------- bytes

  /** The low `k` bytes of `n`. */
  function LittleEndian(n: nat, k: nat): (ds: seq<nat>)
    ensures |ds| == k
    ensures DigitsBelow(ds, 256)
    decreases k
  {
    if k == 0 then [] else [n % 256] + LittleEndian(n / 256, k - 1)
  }

  /** Nothing is lost when `n` fits. */
  lemma {:induction false} LittleEndianValue(n: nat, k: nat)
    requires n < Pow(256, k)
    ensures Value(LittleEndian(n, k), 256) == n
    decreases k
  {
    if k > 0 {
      LittleEndianValue(n / 256, k - 1);
      assert LittleEndian(n, k)[1..] == LittleEndian(n / 256, k - 1);
    }
  }

  lemma EightBytes()
    ensures Pow(256, 8) == LIMB
  {
    assert Pow(256, 1) == 256 && Pow(256, 2) == 0x1_0000 && Pow(256, 3) == 0x100_0000;
    assert Pow(256, 4) == 0x1_0000_0000 && Pow(256, 5) == 0x100_0000_0000;
    assert Pow(256, 6) == 0x1_0000_0000_0000 && Pow(256, 7) == 0x100_0000_0000_0000;
  }
}
