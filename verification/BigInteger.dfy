/** The text form of 256-bit integers: a decimal string on the wire, four 64-bit limbs (least
    significant first) in memory. */
module BigInteger {
  import opened Wrappers
  import opened Bytes
  import opened Digits

  type U256 = s: seq<uint64> | |s| == 4 witness [0, 0, 0, 0]

  // ---------------------------------------------------------------- decimal text

  predicate IsDigit(c: char) {
    '0' <= c <= '9'
  }

  /** A plain decimal number: at least one digit and nothing else. */
  predicate IsDecimal(s: string) {
    s != "" && forall i :: 0 <= i < |s| ==> IsDigit(s[i])
  }

  function DecimalValue(s: string): nat
    requires forall i :: 0 <= i < |s| ==> IsDigit(s[i])
  {
    if s == "" then 0
    else assert IsDigit(s[|s| - 1]); 10 * DecimalValue(s[..|s| - 1]) + (s[|s| - 1] as int - '0' as int)
  }

  function ParseDecimal(s: string): Option<nat> {
    if IsDecimal(s) then Some(DecimalValue(s)) else None
  }

  /** The decimal numeral of `n`, without leading zeros. */
  function DecimalString(n: nat): (s: string)
    ensures IsDecimal(s)
  {
    var last := [('0' as int + n % 10) as char];
    if n < 10 then last else DecimalString(n / 10) + last
  }

  /** The numeral with its superfluous leading zeros dropped. */
  function DropLeadingZeros(s: string): string {
    if |s| > 1 && s[0] == '0' then DropLeadingZeros(s[1..]) else s
  }

  predicate NoLeadingZero(s: string) {
    |s| > 1 ==> s[0] != '0'
  }

  lemma {:induction false} DecimalStringValue(n: nat)
    ensures DecimalValue(DecimalString(n)) == n
    ensures NoLeadingZero(DecimalString(n))
    ensures n > 0 ==> DecimalString(n)[0] != '0'
  {
    var s := DecimalString(n);
    if n >= 10 {
      DecimalStringValue(n / 10);
      assert s[..|s| - 1] == DecimalString(n / 10);
    } else {
      assert s[..0] == "";
    }
  }

  lemma {:induction false} CanonicalNumeral(s: string)
    requires IsDecimal(s) && NoLeadingZero(s)
    ensures DecimalString(DecimalValue(s)) == s
    ensures |s| > 1 ==> DecimalValue(s) >= 10
  {
    var n := |s| - 1;
    var d := s[n] as int - '0' as int;
    assert s == s[..n] + [s[n]];
    if n > 0 {
      CanonicalNumeral(s[..n]);
      var q := DecimalValue(s[..n]);
      assert q > 0 by {
        if n == 1 { assert s[..1][..0] == ""; }
      }
      assert (10 * q + d) / 10 == q && (10 * q + d) % 10 == d;
    } else {
      assert s[..0] == "";
    }
  }

  lemma {:induction false} LeadingZeroValue(s: string)
    requires IsDecimal(s) && |s| > 1 && s[0] == '0'
    ensures IsDecimal(s[1..]) && DecimalValue(s[1..]) == DecimalValue(s)
  {
    var n := |s| - 1;
    if n == 1 {
      assert s[1..][..0] == "" && s[..1][..0] == "";
    } else {
      LeadingZeroValue(s[..n]);
      assert s[..n][1..] == s[1..][..n - 1];
    }
  }

  lemma {:induction false} DropLeadingZerosIsCanonical(s: string)
    requires IsDecimal(s)
    ensures DropLeadingZeros(s) == DecimalString(DecimalValue(s))
  {
    if |s| > 1 && s[0] == '0' {
      LeadingZeroValue(s);
      DropLeadingZerosIsCanonical(s[1..]);
    } else {
      CanonicalNumeral(s);
    }
  }

  // ---------------------------------------------------------------- the reader and the writer

  /** Reads a decimal string; the number must need exactly four limbs. */
  function ReadU256(s: string): (r: Result<U256>)
    ensures r.Ok? ==> ParseDecimal(s).Some?
  {
    match ParseDecimal(s)
    case None => Err(Undecodable)
    case Some(n) =>
      ToLimbsValue(n);
      var limbs := ToLimbs(n);
      if |limbs| != 4 then Err(BadLength) else Ok(limbs)
  }

  /** The serialized form of the limbs: eight little-endian bytes each. */
  function LimbBytes(limbs: seq<nat>): (b: seq<nat>)
    ensures |b| == 8 * |limbs|
    ensures DigitsBelow(b, 256)
  {
    if limbs == [] then [] else LittleEndian(limbs[0], 8) + LimbBytes(limbs[1..])
  }

  function WriteU256(num: U256): string {
    DecimalString(Value(LimbBytes(num), 256))
  }

  lemma PowersOfLimb()
    ensures Pow(LIMB, 3) == 0x1_0000_0000_0000_0000_0000_0000_0000_0000_0000_0000_0000_0000
    ensures Pow(LIMB, 4) == 0x1_0000_0000_0000_0000_0000_0000_0000_0000_0000_0000_0000_0000_0000_0000_0000_0000
  {
    assert Pow(LIMB, 1) == LIMB;
    assert Pow(LIMB, 2) == 0x1_0000_0000_0000_0000_0000_0000_0000_0000;
  }

  /** The bytes denote the same number as the limbs. */
  lemma {:induction false} LimbBytesValue(limbs: seq<nat>)
    requires DigitsBelow(limbs, LIMB)
    ensures Value(LimbBytes(limbs), 256) == Value(limbs, LIMB)
  {
    if limbs != [] {
      var head, rest := LittleEndian(limbs[0], 8), limbs[1..];
      assert DigitsBelow(rest, LIMB);
      LimbBytesValue(rest);
      EightBytes();
      LittleEndianValue(limbs[0], 8);
      ValueConcat(head, LimbBytes(rest), 256);
    }
  }

  /** The reader accepts exactly the numbers from 2^192 up to 2^256, and reads their value. */
  lemma ReaderAccepts(s: string)
    ensures ReadU256(s).Ok? <==>
            IsDecimal(s) &&
            0x1_0000_0000_0000_0000_0000_0000_0000_0000_0000_0000_0000_0000 <= DecimalValue(s) <
            0x1_0000_0000_0000_0000_0000_0000_0000_0000_0000_0000_0000_0000_0000_0000_0000_0000
    ensures ReadU256(s).Ok? ==> Value(ReadU256(s).value, LIMB) == DecimalValue(s)
  {
    if IsDecimal(s) {
      var n := DecimalValue(s);
      LimbCount(n, 4);
      PowersOfLimb();
      ToLimbsValue(n);
    }
  }

  /** Writing what was read gives the same numeral without leading zeros. */
  lemma WriteAfterRead(s: string)
    requires ReadU256(s).Ok?
    ensures WriteU256(ReadU256(s).value) == DropLeadingZeros(s)
    ensures WriteU256(ReadU256(s).value) == s <==> NoLeadingZero(s)
  {
    ReaderAccepts(s);
    LimbBytesValue(ReadU256(s).value);
    DropLeadingZerosIsCanonical(s);
    DecimalStringValue(DecimalValue(s));
  }

  lemma ThreeLimbs(num: U256)
    requires num[3] == 0
    ensures |ToLimbs(Value(num, LIMB))| != 4
  {
    var low: seq<nat>, high: seq<nat> := num[..3], [0];
    assert num == low + high;
    ValueConcat(low, high, LIMB);
    assert high[1..] == [];
    assert Value(high, LIMB) == 0;
    ValueBelow(low, LIMB);
    LimbCount(Value(low, LIMB), 4);
  }

  /** Reading what was written returns the same limbs exactly when the top limb is used; every
      smaller number is rejected. */
  lemma ReadAfterWrite(num: U256)
    ensures ReadU256(WriteU256(num)) == Ok(num) <==> num[3] != 0
    ensures num[3] == 0 ==> ReadU256(WriteU256(num)) == Err(BadLength)
  {
    LimbBytesValue(num);
    DecimalStringValue(Value(num, LIMB));
    if num[3] != 0 {
      CanonicalIsToLimbs(num);
    } else {
      ThreeLimbs(num);
    }
  }
}
