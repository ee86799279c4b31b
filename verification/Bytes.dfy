/** Fixed-width byte strings, hexadecimal text and the `0x` prefix. */
module Bytes {
  import opened Wrappers

  type byte = x: int | 0 <= x < 256

  type Bytes4 = s: seq<byte> | |s| == 4 witness [0, 0, 0, 0]
  type Bytes16 = s: seq<byte> | |s| == 16 witness seq(16, i => 0)
  type Bytes20 = s: seq<byte> | |s| == 20 witness seq(20, i => 0)
  type Bytes32 = s: seq<byte> | |s| == 32 witness seq(32, i => 0)
  type Bytes48 = s: seq<byte> | |s| == 48 witness seq(48, i => 0)
  type Bytes96 = s: seq<byte> | |s| == 96 witness seq(96, i => 0)

  type uint64 = x: int | 0 <= x < 0x1_0000_0000_0000_0000

  /** `n` zero bytes. */
  function Zeros(n: nat): (s: seq<byte>)
    ensures |s| == n
  {
    seq(n, i => 0)
  }

  // ---------------------------------------------------------------- hexadecimal text

  function HexDigit(d: int): char
    requires 0 <= d < 16
  {
    if d < 10 then ('0' as int + d) as char else ('a' as int + (d - 10)) as char
  }

  /** The value of a hexadecimal digit; both letter cases are understood. */
  function HexValue(c: char): (d: Option<int>)
    ensures d.Some? ==> 0 <= d.value < 16
  {
    if '0' <= c <= '9' then Some(c as int - '0' as int)
    else if 'a' <= c <= 'f' then Some(c as int - 'a' as int + 10)
    else if 'A' <= c <= 'F' then Some(c as int - 'A' as int + 10)
    else None
  }

  predicate IsLowerHexDigit(c: char) {
    '0' <= c <= '9' || 'a' <= c <= 'f'
  }

  predicate IsLowerHex(s: string) {
    forall i :: 0 <= i < |s| ==> IsLowerHexDigit(s[i])
  }

  function HexEncode(b: seq<byte>): (s: string)
    ensures |s| == 2 * |b|
    ensures IsLowerHex(s)
  {
    if b == [] then "" else HexPair(b[0]) + HexEncode(b[1..])
  }

  /** Byte by byte: two lower-case digits each, the high one first. */
  lemma {:induction false} HexEncodeAt(b: seq<byte>, i: nat)
    requires i < |b|
    ensures var digits, s := "0123456789abcdef", HexEncode(b);
            s[2 * i] == digits[b[i] / 16] && s[2 * i + 1] == digits[b[i] % 16]
    decreases i
  {
    HexDigitAt(b[0] / 16);
    HexDigitAt(b[0] % 16);
    if i > 0 {
      HexEncodeAt(b[1..], i - 1);
      assert HexEncode(b) == HexPair(b[0]) + HexEncode(b[1..]) && b[1..][i - 1] == b[i];
    }
  }

  lemma HexDigitAt(d: nat)
    requires d < 16
    ensures HexDigit(d) == "0123456789abcdef"[d]
  {
  }

  function HexPair(x: byte): (s: string)
    ensures |s| == 2 && IsLowerHex(s)
  {
    [HexDigit(x / 16), HexDigit(x % 16)]
  }

  function UnhexPair(hi: char, lo: char): Result<byte> {
    match (HexValue(hi), HexValue(lo))
    case (Some(h), Some(l)) => Ok(16 * h + l)
    case _ => Err(BadHex)
  }

  function HexDecode(s: string): (r: Result<seq<byte>>)
    ensures r.Ok? ==> |s| == 2 * |r.value|
  {
    if s == "" then Ok([])
    else if |s| == 1 then Err(BadHex)
    else
      var first :- UnhexPair(s[0], s[1]);
      var rest :- HexDecode(s[2..]);
      Ok([first] + rest)
  }

  lemma HexPairRoundTrip(x: byte)
    ensures UnhexPair(HexPair(x)[0], HexPair(x)[1]) == Ok(x)
  {
    assert HexValue(HexDigit(x / 16)) == Some(x / 16);
    assert HexValue(HexDigit(x % 16)) == Some(x % 16);
  }

  lemma HexPairCanonical(hi: char, lo: char)
    requires UnhexPair(hi, lo).Ok?
    ensures HexPair(UnhexPair(hi, lo).value) == [hi, lo] <==> IsLowerHexDigit(hi) && IsLowerHexDigit(lo)
  {
    var h, l := HexValue(hi).value, HexValue(lo).value;
    assert (16 * h + l) / 16 == h && (16 * h + l) % 16 == l;
    assert HexDigit(h) == hi <==> IsLowerHexDigit(hi);
    assert HexDigit(l) == lo <==> IsLowerHexDigit(lo);
  }

  /** Decoding undoes encoding. */
  lemma {:induction false} HexRoundTrip(b: seq<byte>)
    ensures HexDecode(HexEncode(b)) == Ok(b)
  {
    if b != [] {
      HexPairRoundTrip(b[0]);
      HexRoundTrip(b[1..]);
      assert HexEncode(b)[2..] == HexEncode(b[1..]);
      assert [b[0]] + b[1..] == b;
    }
  }

  lemma IsLowerHexSplit(s: string)
    requires |s| >= 2
    ensures IsLowerHex(s) <==> IsLowerHexDigit(s[0]) && IsLowerHexDigit(s[1]) && IsLowerHex(s[2..])
  {
    if IsLowerHex(s[2..]) {
      assert forall i :: 2 <= i < |s| ==> s[i] == s[2..][i - 2];
    }
  }

  /** The two characters are the digits of `x`, in either case. */
  predicate HexPairFor(hi: char, lo: char, x: byte) {
    var lower, upper := "0123456789abcdef", "0123456789ABCDEF";
    (hi == lower[x / 16] || hi == upper[x / 16]) && (lo == lower[x % 16] || lo == upper[x % 16])
  }

  /** Two digits for each byte. */
  predicate HexPairsFor(s: string, b: seq<byte>) {
    |s| == 2 * |b| && forall i :: 0 <= i < |b| ==> HexPairFor(s[2 * i], s[2 * i + 1], b[i])
  }

  lemma HexPairIsExact(hi: char, lo: char, x: byte)
    ensures UnhexPair(hi, lo) == Ok(x) <==> HexPairFor(hi, lo, x)
  {
    HexValueIsExact(hi, x / 16);
    HexValueIsExact(lo, x % 16);
    if UnhexPair(hi, lo).Ok? {
      var h, l := HexValue(hi).value, HexValue(lo).value;
      assert (16 * h + l) / 16 == h && (16 * h + l) % 16 == l;
    }
  }

  lemma HexValueIsExact(c: char, d: nat)
    requires d < 16
    ensures HexValue(c) == Some(d) <==> c == "0123456789abcdef"[d] || c == "0123456789ABCDEF"[d]
  {
  }

  lemma FirstPairApart(s: string, b: seq<byte>)
    requires |s| >= 2 && b != []
    ensures HexPairsFor(s, b) <==> HexPairFor(s[0], s[1], b[0]) && HexPairsFor(s[2..], b[1..])
  {
    hide HexPairFor;
    if HexPairsFor(s, b) {
      assert HexPairFor(s[2 * 0], s[2 * 0 + 1], b[0]);
      forall i | 0 <= i < |b| - 1 ensures HexPairFor(s[2..][2 * i], s[2..][2 * i + 1], b[1..][i]) {
        assert HexPairFor(s[2 * (i + 1)], s[2 * (i + 1) + 1], b[i + 1]);
      }
    }
    if HexPairFor(s[0], s[1], b[0]) && HexPairsFor(s[2..], b[1..]) {
      forall i | 0 <= i < |b| ensures HexPairFor(s[2 * i], s[2 * i + 1], b[i]) {
        if i > 0 {
          assert HexPairFor(s[2..][2 * (i - 1)], s[2..][2 * (i - 1) + 1], b[1..][i - 1]);
        }
      }
    }
  }

  /** A text decodes to some bytes exactly when it has two digits, of either case, for each of them. */
  lemma {:induction false} HexDecodeIsExact(s: string, b: seq<byte>)
    ensures HexDecode(s) == Ok(b) <==> HexPairsFor(s, b)
  {
    if |s| >= 2 && b != [] {
      HexDecodeIsExact(s[2..], b[1..]);
      HexPairIsExact(s[0], s[1], b[0]);
      FirstPairApart(s, b);
      hide HexPairFor, HexPairsFor, UnhexPair;
      assert b == [b[0]] + b[1..];
    }
  }

  /** Encoding undoes decoding exactly on lower-case text. */
  lemma {:induction false} HexCanonical(s: string)
    requires HexDecode(s).Ok?
    ensures HexEncode(HexDecode(s).value) == s <==> IsLowerHex(s)
  {
    if s != "" {
      var b := HexDecode(s).value;
      assert b[1..] == HexDecode(s[2..]).value;
      HexCanonical(s[2..]);
      HexPairCanonical(s[0], s[1]);
      IsLowerHexSplit(s);
      assert s == [s[0], s[1]] + s[2..];
      assert HexEncode(b)[..2] == HexPair(b[0]) && HexEncode(b)[2..] == HexEncode(b[1..]);
    }
  }

  lemma HexEncodeInjective(a: seq<byte>, b: seq<byte>)
    requires HexEncode(a) == HexEncode(b)
    ensures a == b
  {
    HexRoundTrip(a);
    HexRoundTrip(b);
  }

  // ---------------------------------------------------------------- the 0x prefix

  /** Removes one leading `0x`, if there is one. */
  function Strip0x(s: string): string {
    if |s| >= 2 && s[0] == '0' && s[1] == 'x' then s[2..] else s
  }

  /** Exactly one prefix goes, and nothing else. */
  lemma StripsOnePrefix(s: string)
    ensures Strip0x("0x" + s) == s
    ensures Strip0x(s) == s || s == "0x" + Strip0x(s)
    ensures Strip0x(s) == s <==> !("0x" <= s)
  {
    assert ("0x" + s)[2..] == s;
    if |s| >= 2 {
      assert s == [s[0], s[1]] + s[2..];
    }
  }

  /** Text made by `HexEncode` has no prefix to remove. */
  lemma StripHexEncode(b: seq<byte>)
    ensures Strip0x(HexEncode(b)) == HexEncode(b)
  {
    assert IsLowerHex(HexEncode(b));
    if |HexEncode(b)| >= 2 {
      assert IsLowerHexDigit(HexEncode(b)[1]);
    }
  }

  /** Cut to `n` bytes, or filled up with zeros: how a fixed vector is made from a byte list. */
  function Resize(b: seq<byte>, n: nat): (r: seq<byte>)
    ensures |r| == n
    ensures forall k :: 0 <= k < n ==> r[k] == if k < |b| then b[k] else 0
  {
    if |b| >= n then b[..n] else b + Zeros(n - |b|)
  }
}
