/** The bytes a validator commits to when it asks for remote attestation of a key generation: a digest of the
    public keys, the deposit and every encrypted share with its guardian. */
module RemoteAttestation {
  import opened Wrappers
  import opened Bytes
  import opened Digits
  import opened Ssz
  import opened Library

  /** The `k` bytes of `n`, most significant first. */
  function BigEndian(n: nat, k: nat): (b: seq<byte>)
    ensures |b| == k
  {
    var digits: seq<byte> := LittleEndian(n, k);
    seq(k, i requires 0 <= i < k => digits[k - 1 - i])
  }

  /** An encrypted share and the guardian it is for. */
  datatype Entry = Entry(encryptedShare: seq<byte>, guardian: EthPublicKey)

  datatype Commitment = Commitment(
    keys: PublicKeySet,
    signature: Bytes96,
    depositDataRoot: Root,
    entries: seq<Entry>)

  /** The part for the first `n` entries. */
  function EntryBytes(lib: Lib, keys: PublicKeySet, entries: seq<Entry>, n: nat): seq<byte>
    requires lib.order > 0 && n <= |entries|
  {
    if n == 0 then [] else
      EntryBytes(lib, keys, entries, n - 1) + entries[n - 1].encryptedShare
      + lib.pkToBytes(PublicKeyShare(lib, keys, n - 1)) + lib.ethPkToBytes(entries[n - 1].guardian)
  }

  function HeadBytes(lib: Lib, c: Commitment): seq<byte>
    requires lib.order > 0
  {
    lib.pkSetToBytes(c.keys) + lib.pkToBytes(PublicKey(lib, c.keys)) + c.signature + c.depositDataRoot
  }

  /** Everything that is hashed, in order; the last part is the degree of the key. */
  function CommittedBytes(lib: Lib, c: Commitment): seq<byte>
    requires lib.order > 0 && c.keys != []
  {
    HeadBytes(lib, c) + EntryBytes(lib, c.keys, c.entries, |c.entries|) + BigEndian(|c.keys| - 1, 8)
  }

  /** The share texts, decoded; the first that cannot be decoded decides the error. */
  function DecodeTexts(texts: seq<string>): (r: Result<seq<seq<byte>>>)
    ensures r.Ok? ==> |r.value| == |texts|
  {
    if texts == [] then Ok([]) else
      var first :- DecodeTexts(texts[..|texts| - 1]);
      var last :- HexDecode(texts[|texts| - 1]);
      Ok(first + [last])
  }

  function Zip(shares: seq<seq<byte>>, guardians: seq<EthPublicKey>): (entries: seq<Entry>)
    requires |shares| == |guardians|
    ensures |entries| == |shares|
  {
    seq(|shares|, i requires 0 <= i < |shares| => Entry(shares[i], guardians[i]))
  }

  function Shorter(a: nat, b: nat): (n: nat)
    ensures n <= a && n <= b
  {
    if a < b then a else b
  }

  /** The digest, filled up to 64 bytes.  Shares and guardians are paired up to the shorter list. */
  function PaddedDigest(lib: Lib, keys: PublicKeySet, signature: Bytes96, depositDataRoot: Root,
                        texts: seq<string>, guardians: seq<EthPublicKey>): (r: Result<seq<byte>>)
    requires lib.order > 0 && keys != []
    ensures r.Ok? ==> |r.value| == 64 && r.value[32..] == Zeros(32)
  {
    var n := Shorter(|texts|, |guardians|);
    var shares :- DecodeTexts(texts[..n]);
    var commitment := Commitment(keys, signature, depositDataRoot, Zip(shares, guardians[..n]));
    Ok(lib.keccak(CommittedBytes(lib, commitment)) + Zeros(32))
  }

  /** The digest for arbitrary texts: it exists exactly when every paired text is hexadecimal, and is then the padded
      digest of a commitment to the decoded shares, each with the guardian at its place. */
  lemma PaddedDigestIsExact(lib: Lib, keys: PublicKeySet, signature: Bytes96, depositDataRoot: Root,
                            texts: seq<string>, guardians: seq<EthPublicKey>)
    returns (entries: seq<Entry>)
    requires lib.order > 0 && keys != []
    ensures var r := PaddedDigest(lib, keys, signature, depositDataRoot, texts, guardians);
            var n := if |texts| <= |guardians| then |texts| else |guardians|;
            && (r.Ok? <==> forall i :: 0 <= i < n ==> HexDecode(texts[i]).Ok?)
            && (r.Ok? ==>
                  && r.value == lib.keccak(CommittedBytes(lib, Commitment(keys, signature, depositDataRoot, entries)))
                                + Zeros(32)
                  && |entries| == n
                  && forall i :: 0 <= i < n ==>
                       HexDecode(texts[i]) == Ok(entries[i].encryptedShare) && entries[i].guardian == guardians[i])
  {
    hide HexDecode, CommittedBytes;
    var n := Shorter(|texts|, |guardians|);
    DecodeTextsIsExact(texts[..n]);
    var shares := DecodeTexts(texts[..n]);
    entries := if shares.Ok? then Zip(shares.value, guardians[..n]) else [];
    assert forall i :: 0 <= i < n ==> texts[..n][i] == texts[i];
  }

  lemma {:induction false} DecodeTextsIsExact(texts: seq<string>)
    ensures DecodeTexts(texts).Ok? <==> forall i :: 0 <= i < |texts| ==> HexDecode(texts[i]).Ok?
    ensures DecodeTexts(texts).Ok? ==>
              forall i :: 0 <= i < |texts| ==> HexDecode(texts[i]) == Ok(DecodeTexts(texts).value[i])
    decreases |texts|
  {
    hide HexDecode;
    if texts != [] {
      var n := |texts| - 1;
      DecodeTextsIsExact(texts[..n]);
      assert forall i :: 0 <= i < n ==> texts[..n][i] == texts[i];
    }
  }

  lemma {:induction false} PrefixFails(texts: seq<string>, i: nat)
    requires i <= |texts| && DecodeTexts(texts[..i]).Err?
    ensures DecodeTexts(texts) == DecodeTexts(texts[..i])
    decreases |texts|
  {
    if i == |texts| {
      assert texts[..i] == texts;
    } else {
      assert texts[..|texts| - 1][..i] == texts[..i];
      PrefixFails(texts[..|texts| - 1], i);
    }
  }

  lemma PrefixExtends(texts: seq<string>, i: nat)
    requires i < |texts| && DecodeTexts(texts[..i]).Ok?
    ensures DecodeTexts(texts[..i + 1])
            == match HexDecode(texts[i])
               case Ok(share) => Ok(DecodeTexts(texts[..i]).value + [share])
               case Err(e) => Err(e)
  {
    assert texts[..i + 1][..i] == texts[..i] && texts[..i + 1][i] == texts[i];
  }

  lemma {:induction false} SamePrefixSameBytes(lib: Lib, keys: PublicKeySet, a: seq<Entry>, b: seq<Entry>, n: nat)
    requires lib.order > 0 && n <= |a| && n <= |b| && a[..n] == b[..n]
    ensures EntryBytes(lib, keys, a, n) == EntryBytes(lib, keys, b, n)
  {
    if n > 0 {
      assert a[..n - 1] == a[..n][..n - 1] && b[..n - 1] == b[..n][..n - 1];
      assert a[n - 1] == a[..n][n - 1] && b[n - 1] == b[..n][n - 1];
      SamePrefixSameBytes(lib, keys, a, b, n - 1);
    }
  }

  lemma NoTexts()
    ensures DecodeTexts([]) == Ok([])
  {
  }

  lemma NoEntries(lib: Lib, keys: PublicKeySet)
    requires lib.order > 0
    ensures EntryBytes(lib, keys, [], 0) == []
  {
  }

  lemma NextEntry(lib: Lib, keys: PublicKeySet, entries: seq<Entry>, e: Entry)
    requires lib.order > 0
    ensures var n := |entries|;
            EntryBytes(lib, keys, entries + [e], n + 1)
            == EntryBytes(lib, keys, entries, n) + e.encryptedShare + lib.pkToBytes(PublicKeyShare(lib, keys, n))
               + lib.ethPkToBytes(e.guardian)
  {
    hide PublicKeyShare;
    SamePrefixSameBytes(lib, keys, entries, entries + [e], |entries|);
  }

  /** Feeds the hasher part by part, then fills the buffer up. */
  method BuildValidatorRemoteAttestationPayload(
    lib: Lib, keys: PublicKeySet, signature: Bytes96, depositDataRoot: Root, texts: seq<string>,
    guardians: seq<EthPublicKey>) returns (r: Result<seq<byte>>)
    requires lib.order > 0 && keys != []
    ensures r == PaddedDigest(lib, keys, signature, depositDataRoot, texts, guardians)
  {
    hide HexDecode, PublicKey, PublicKeyShare, BigEndian, DecodeTexts, EntryBytes;
    var hashed := lib.pkSetToBytes(keys);
    hashed := hashed + lib.pkToBytes(PublicKey(lib, keys));
    hashed := hashed + signature;
    hashed := hashed + depositDataRoot;
    var n := Shorter(|texts|, |guardians|);
    ghost var head, used := hashed, texts[..n];
    ghost var entries: seq<Entry> := [];
    NoTexts();
    NoEntries(lib, keys);
    assert used[..0] == [];
    for i := 0 to n
      invariant DecodeTexts(used[..i]).Ok? && entries == Zip(DecodeTexts(used[..i]).value, guardians[..i])
      invariant hashed == head + EntryBytes(lib, keys, entries, i)
    {
      PrefixExtends(used, i);
      var decoded := HexDecode(texts[i]);
      if decoded.Err? {
        PrefixFails(used, i + 1);
        return Err(decoded.error);
      }
      hashed := hashed + decoded.value;
      hashed := hashed + lib.pkToBytes(PublicKeyShare(lib, keys, i));
      hashed := hashed + lib.ethPkToBytes(guardians[i]);
      NextEntry(lib, keys, entries, Entry(decoded.value, guardians[i]));
      entries := entries + [Entry(decoded.value, guardians[i])];
    }
    assert used[..n] == used && guardians[..n] == guardians[..n][..n];
    hashed := hashed + BigEndian(|keys| - 1, 8);
    var padded: seq<byte> := lib.keccak(hashed);
    padded := padded + Zeros(32);
    return Ok(padded);
  }

  // ---------------------------------------------------------------- where everything lies

  /** The number that some bytes write, most significant first. */
  function BigEndianValue(b: seq<byte>): nat {
    if b == [] then 0 else 256 * BigEndianValue(b[..|b| - 1]) + b[|b| - 1]
  }

  lemma {:induction false} BigEndianWrites(n: nat, k: nat)
    requires n < Pow(256, k)
    ensures BigEndianValue(BigEndian(n, k)) == n
    decreases k
  {
    if k > 0 {
      BigEndianWrites(n / 256, k - 1);
      var b := BigEndian(n, k);
      assert LittleEndian(n, k) == [n % 256] + LittleEndian(n / 256, k - 1);
      assert b[..k - 1] == BigEndian(n / 256, k - 1) && b[k - 1] == n % 256;
    }
  }

  /** Where entry `i` begins, counted from the first. */
  function EntryStart(entries: seq<Entry>, i: nat): nat
    requires i <= |entries|
  {
    if i == 0 then 0 else EntryStart(entries, i - 1) + |entries[i - 1].encryptedShare| + 48 + 65
  }

  /** Entry `i`, somewhere in the bytes: the share, the 48 bytes of the public share, the 65 of the guardian. */
  predicate EntryLiesAt(lib: Lib, c: Commitment, i: nat, b: seq<byte>, at: nat)
    requires lib.order > 0 && i < |c.entries|
  {
    var end := at + |c.entries[i].encryptedShare|;
    && end + 113 <= |b|
    && b[at..end] == c.entries[i].encryptedShare
    && b[end..end + 48] == lib.pkToBytes(PublicKeyShare(lib, c.keys, i))
    && b[end + 48..end + 113] == lib.ethPkToBytes(c.entries[i].guardian)
  }

  lemma KeySetNotEmpty(lib: Lib, keys: PublicKeySet)
    requires IsKeySet(lib, keys)
    ensures keys != []
  {
  }

  lemma Parts(a: seq<byte>, b: seq<byte>, c: seq<byte>, d: seq<byte>)
    ensures var s := a + b + c + d;
            && s[..|a|] == a && s[|a|..|a| + |b|] == b && s[|a| + |b|..|a| + |b| + |c|] == c
            && s[|a| + |b| + |c|..] == d
  {
  }

  lemma LiesFurther(lib: Lib, c: Commitment, i: nat, b: seq<byte>, at: nat, head: seq<byte>, tail: seq<byte>)
    requires lib.order > 0 && i < |c.entries| && EntryLiesAt(lib, c, i, b, at)
    ensures EntryLiesAt(lib, c, i, head + b + tail, |head| + at)
  {
    hide PublicKeyShare;
    var end := at + |c.entries[i].encryptedShare|;
    SliceFurther(head, b, tail, at, end);
    SliceFurther(head, b, tail, end, end + 48);
    SliceFurther(head, b, tail, end + 48, end + 113);
  }

  lemma SliceFurther(head: seq<byte>, b: seq<byte>, tail: seq<byte>, from: nat, to: nat)
    requires from <= to <= |b|
    ensures (head + b + tail)[|head| + from..|head| + to] == b[from..to]
  {
  }

  lemma {:induction false} EntriesLie(lib: Lib, c: Commitment, n: nat, i: nat)
    requires Lawful(lib) && i < n <= |c.entries|
    ensures EntryLiesAt(lib, c, i, EntryBytes(lib, c.keys, c.entries, n), EntryStart(c.entries, i))
    decreases n
  {
    hide *;
    OrderPositive(lib);
    var rest := EntryBytes(lib, c.keys, c.entries, n - 1);
    LastAppended(lib, c, n);
    EntriesEnd(lib, c, n - 1);
    if i < n - 1 {
      EntriesLie(lib, c, n - 1, i);
      LiesAsBefore(lib, c, i, n - 1, rest);
    } else {
      LiesAtEnd(lib, c, i, rest);
    }
  }

  /** One entry after the bytes so far. */
  function Appended(lib: Lib, c: Commitment, i: nat, rest: seq<byte>): seq<byte>
    requires lib.order > 0 && i < |c.entries|
  {
    rest + c.entries[i].encryptedShare + lib.pkToBytes(PublicKeyShare(lib, c.keys, i))
    + lib.ethPkToBytes(c.entries[i].guardian)
  }

  lemma LastAppended(lib: Lib, c: Commitment, n: nat)
    requires lib.order > 0 && 0 < n <= |c.entries|
    ensures EntryBytes(lib, c.keys, c.entries, n)
            == Appended(lib, c, n - 1, EntryBytes(lib, c.keys, c.entries, n - 1))
  {
    hide PublicKeyShare;
  }

  lemma LiesAsBefore(lib: Lib, c: Commitment, i: nat, k: nat, rest: seq<byte>)
    requires lib.order > 0 && i < k < |c.entries| && EntryLiesAt(lib, c, i, rest, EntryStart(c.entries, i))
    ensures EntryLiesAt(lib, c, i, Appended(lib, c, k, rest), EntryStart(c.entries, i))
  {
    hide PublicKeyShare, EntryStart, EntryLiesAt;
    var more := c.entries[k].encryptedShare + lib.pkToBytes(PublicKeyShare(lib, c.keys, k))
                + lib.ethPkToBytes(c.entries[k].guardian);
    LiesFurther(lib, c, i, rest, EntryStart(c.entries, i), [], more);
    assert [] + rest + more == Appended(lib, c, k, rest);
  }

  lemma LiesAtEnd(lib: Lib, c: Commitment, i: nat, rest: seq<byte>)
    requires Lawful(lib) && i < |c.entries| && |rest| == EntryStart(c.entries, i)
    ensures EntryLiesAt(lib, c, i, Appended(lib, c, i, rest), EntryStart(c.entries, i))
  {
    var e := c.entries[i];
    var point, guardian := lib.pkToBytes(PublicKeyShare(lib, c.keys, i)), lib.ethPkToBytes(e.guardian);
    assert |guardian| == 65 && lib.order > 0;
    hide Lawful, PublicKeyShare, EntryStart;
    Parts(rest, e.encryptedShare, point, guardian);
  }

  lemma {:induction false} EntriesEnd(lib: Lib, c: Commitment, n: nat)
    requires Lawful(lib) && n <= |c.entries|
    ensures |EntryBytes(lib, c.keys, c.entries, n)| == EntryStart(c.entries, n)
    decreases n
  {
    assert lib.order > 0;
    hide PublicKeyShare;
    if n > 0 {
      EntriesEnd(lib, c, n - 1);
      assert |lib.ethPkToBytes(c.entries[n - 1].guardian)| == 65;
    }
  }

  /** Key set, group key, signature and deposit root at the front. */
  predicate HeadLiesIn(lib: Lib, c: Commitment, b: seq<byte>)
    requires lib.order > 0
  {
    var n := 48 * |c.keys|;
    && n + 176 <= |b|
    && b[..n] == lib.pkSetToBytes(c.keys)
    && b[n..n + 48] == lib.pkToBytes(PublicKey(lib, c.keys))
    && b[n + 48..n + 144] == c.signature
    && b[n + 144..n + 176] == c.depositDataRoot
  }

  /** Then the entries one after the other, and the degree as a number of eight bytes. */
  predicate LiesIn(lib: Lib, c: Commitment, b: seq<byte>)
    requires lib.order > 0
  {
    var first := 48 * |c.keys| + 176;
    var end := first + EntryStart(c.entries, |c.entries|);
    && HeadLiesIn(lib, c, b)
    && (forall i :: 0 <= i < |c.entries| ==> EntryLiesAt(lib, c, i, b, first + EntryStart(c.entries, i)))
    && |b| == end + 8
    && BigEndianValue(b[end..]) == |c.keys| - 1
  }

  /** The committed bytes, place by place. */
  lemma CommittedLayout(lib: Lib, c: Commitment)
    requires Lawful(lib) && IsKeySet(lib, c.keys) && |c.keys| <= LIMB
    ensures LiesIn(lib, c, CommittedBytes(lib, c))
  {
    hide *;
    OrderPositive(lib);
    KeySetNotEmpty(lib, c.keys);
    var head, entries, last := HeadBytes(lib, c), EntryBytes(lib, c.keys, c.entries, |c.entries|),
                               BigEndian(|c.keys| - 1, 8);
    CommittedParts(lib, c);
    HeadLayout(lib, c);
    EightBytes();
    EntriesEnd(lib, c, |c.entries|);
    BigEndianWrites(|c.keys| - 1, 8);
    forall i | 0 <= i < |c.entries| ensures EntryLiesAt(lib, c, i, entries, EntryStart(c.entries, i)) {
      EntriesLie(lib, c, |c.entries|, i);
    }
    LieTogether(lib, c, head, entries, last);
  }

  lemma CommittedParts(lib: Lib, c: Commitment)
    requires lib.order > 0 && c.keys != []
    ensures CommittedBytes(lib, c)
            == HeadBytes(lib, c) + EntryBytes(lib, c.keys, c.entries, |c.entries|) + BigEndian(|c.keys| - 1, 8)
  {
  }

  lemma LieTogether(lib: Lib, c: Commitment, head: seq<byte>, entries: seq<byte>, last: seq<byte>)
    requires lib.order > 0 && |head| == 48 * |c.keys| + 176 && HeadLiesIn(lib, c, head)
    requires |entries| == EntryStart(c.entries, |c.entries|)
    requires forall i :: 0 <= i < |c.entries| ==> EntryLiesAt(lib, c, i, entries, EntryStart(c.entries, i))
    requires |last| == 8 && BigEndianValue(last) == |c.keys| - 1
    ensures LiesIn(lib, c, head + entries + last)
  {
    hide EntryStart, EntryLiesAt, HeadLiesIn, BigEndianValue;
    var b := head + entries + last;
    forall i | 0 <= i < |c.entries| ensures EntryLiesAt(lib, c, i, b, |head| + EntryStart(c.entries, i)) {
      LiesFurther(lib, c, i, entries, EntryStart(c.entries, i), head, last);
    }
    HeadStays(lib, c, head, entries + last);
    assert head + (entries + last) == b && b[|head| + |entries|..] == last;
  }

  lemma HeadStays(lib: Lib, c: Commitment, head: seq<byte>, rest: seq<byte>)
    requires lib.order > 0 && HeadLiesIn(lib, c, head)
    ensures HeadLiesIn(lib, c, head + rest)
  {
    hide PublicKey;
    var b, n := head + rest, 48 * |c.keys|;
    assert b[..n] == head[..n] && b[n..n + 48] == head[n..n + 48];
    assert b[n + 48..n + 144] == head[n + 48..n + 144] && b[n + 144..n + 176] == head[n + 144..n + 176];
  }

  lemma HeadLayout(lib: Lib, c: Commitment)
    requires Lawful(lib) && IsKeySet(lib, c.keys)
    ensures |HeadBytes(lib, c)| == 48 * |c.keys| + 176 && HeadLiesIn(lib, c, HeadBytes(lib, c))
  {
    HeadWidth(lib, c);
    KeySetBytes(lib, c.keys);
    hide Lawful, IsKeySet, PublicKey;
    Parts(lib.pkSetToBytes(c.keys), lib.pkToBytes(PublicKey(lib, c.keys)), c.signature, c.depositDataRoot);
  }

  // ---------------------------------------------------------------- what the digest binds

  lemma SplitEqual<T>(a: seq<T>, b: seq<T>, c: seq<T>, d: seq<T>)
    requires a + b == c + d && |a| == |c|
    ensures a == c && b == d
  {
    assert a == (a + b)[..|a|] && c == (c + d)[..|a|];
    assert b == (a + b)[|a|..] && d == (c + d)[|a|..];
  }

  predicate SameWidths(a: seq<Entry>, b: seq<Entry>) {
    |a| == |b| && forall i :: 0 <= i < |a| ==> |a[i].encryptedShare| == |b[i].encryptedShare|
  }

  lemma {:induction false} EntriesBound(lib: Lib, keys: PublicKeySet, a: seq<Entry>, b: seq<Entry>, n: nat)
    requires Lawful(lib) && SameWidths(a, b) && n <= |a|
    ensures |EntryBytes(lib, keys, a, n)| == |EntryBytes(lib, keys, b, n)|
    ensures EntryBytes(lib, keys, a, n) == EntryBytes(lib, keys, b, n) ==> a[..n] == b[..n]
  {
    assert lib.order > 0;
    hide PublicKeyShare, Lawful, EntryBytes;
    UnfoldEntry(lib, keys, a, n);
    UnfoldEntry(lib, keys, b, n);
    if n > 0 {
      EntriesBound(lib, keys, a, b, n - 1);
      LastEntryBound(lib, EntryBytes(lib, keys, a, n - 1), a[n - 1], EntryBytes(lib, keys, b, n - 1), b[n - 1],
                     lib.pkToBytes(PublicKeyShare(lib, keys, n - 1)));
      LastOfPrefix(a, n);
      LastOfPrefix(b, n);
    }
  }

  lemma UnfoldEntry(lib: Lib, keys: PublicKeySet, entries: seq<Entry>, n: nat)
    requires lib.order > 0 && n <= |entries|
    ensures EntryBytes(lib, keys, entries, n)
            == if n == 0 then [] else
                 EntryBytes(lib, keys, entries, n - 1) + entries[n - 1].encryptedShare
                 + lib.pkToBytes(PublicKeyShare(lib, keys, n - 1)) + lib.ethPkToBytes(entries[n - 1].guardian)
  {
  }

  lemma LastOfPrefix<T>(s: seq<T>, n: nat)
    requires 0 < n <= |s|
    ensures s[..n] == s[..n - 1] + [s[n - 1]]
  {
  }

  lemma LastEntryBound(lib: Lib, p: seq<byte>, x: Entry, q: seq<byte>, y: Entry, k: seq<byte>)
    requires Lawful(lib) && |p| == |q| && |x.encryptedShare| == |y.encryptedShare|
    ensures var v, w := p + x.encryptedShare + k + lib.ethPkToBytes(x.guardian),
                        q + y.encryptedShare + k + lib.ethPkToBytes(y.guardian);
            |v| == |w| && (v == w ==> p == q && x == y)
  {
    var g, h := lib.ethPkToBytes(x.guardian), lib.ethPkToBytes(y.guardian);
    assert |g| == 65 && lib.ethPkFromBytes(g) == Some(x.guardian);
    assert |h| == 65 && lib.ethPkFromBytes(h) == Some(y.guardian);
    hide Lawful;
    if p + x.encryptedShare + k + g == q + y.encryptedShare + k + h {
      SplitAtEnd(p + x.encryptedShare + k, g, q + y.encryptedShare + k, h);
      SplitAtEnd(p + x.encryptedShare, k, q + y.encryptedShare, k);
      SplitAtEnd(p, x.encryptedShare, q, y.encryptedShare);
    }
  }

  lemma BigEndianInjective(m: nat, n: nat)
    requires m < LIMB && n < LIMB && BigEndian(m, 8) == BigEndian(n, 8)
    ensures m == n
  {
    hide LittleEndian;
    var a, b := LittleEndian(m, 8), LittleEndian(n, 8);
    forall i | 0 <= i < 8 ensures a[i] == b[i] {
      assert BigEndian(m, 8)[7 - i] == a[i] && BigEndian(n, 8)[7 - i] == b[i];
    }
    assert a == b;
    EightBytes();
    LittleEndianValue(m, 8);
    LittleEndianValue(n, 8);
  }

  /** The committed bytes determine everything in them: two key generations whose shares have equal widths
      cannot be exchanged for one another.  (The degree at the end tells how long the key set at the front
      is.) */
  lemma CommitmentBinds(lib: Lib, a: Commitment, b: Commitment)
    requires Lawful(lib) && IsKeySet(lib, a.keys) && IsKeySet(lib, b.keys)
    requires |a.keys| <= LIMB && |b.keys| <= LIMB && SameWidths(a.entries, b.entries)
    requires CommittedBytes(lib, a) == CommittedBytes(lib, b)
    ensures a == b
  {
    var m, n := |a.keys| - 1, |b.keys| - 1;
    var ha, hb := HeadBytes(lib, a), HeadBytes(lib, b);
    var ea, eb := EntryBytes(lib, a.keys, a.entries, |a.entries|), EntryBytes(lib, b.keys, b.entries, |b.entries|);
    HeadWidth(lib, a);
    HeadWidth(lib, b);
    assert (ha + ea) + BigEndian(m, 8) == (hb + eb) + BigEndian(n, 8);
    hide *;
    SplitAtEnd(ha + ea, BigEndian(m, 8), hb + eb, BigEndian(n, 8));
    BigEndianInjective(m, n);
    SplitEqual(ha, ea, hb, eb);
    HeadBinds(lib, a, b);
    EntriesBound(lib, a.keys, a.entries, b.entries, |a.entries|);
    assert a.entries[..|a.entries|] == a.entries && b.entries[..|b.entries|] == b.entries;
  }

  lemma HeadWidth(lib: Lib, c: Commitment)
    requires Lawful(lib) && IsKeySet(lib, c.keys)
    ensures |HeadBytes(lib, c)| == 48 * |c.keys| + 176
  {
    KeySetBytes(lib, c.keys);
  }

  lemma SplitAtEnd<T>(a: seq<T>, b: seq<T>, c: seq<T>, d: seq<T>)
    requires a + b == c + d && |b| == |d|
    ensures a == c && b == d
  {
    assert |a + b| == |c + d|;
    SplitEqual(a, b, c, d);
  }

  lemma KeySetBytes(lib: Lib, keys: PublicKeySet)
    requires Lawful(lib) && IsKeySet(lib, keys)
    ensures |lib.pkSetToBytes(keys)| == 48 * |keys| && lib.pkSetFromBytes(lib.pkSetToBytes(keys)) == Some(keys)
  {
  }

  lemma HeadBinds(lib: Lib, a: Commitment, b: Commitment)
    requires Lawful(lib) && IsKeySet(lib, a.keys) && IsKeySet(lib, b.keys)
    requires |a.keys| == |b.keys| && HeadBytes(lib, a) == HeadBytes(lib, b)
    ensures a.keys == b.keys && a.signature == b.signature && a.depositDataRoot == b.depositDataRoot
  {
    var ka, kb := lib.pkSetToBytes(a.keys), lib.pkSetToBytes(b.keys);
    var ga, gb := lib.pkToBytes(PublicKey(lib, a.keys)), lib.pkToBytes(PublicKey(lib, b.keys));
    KeySetBytes(lib, a.keys);
    KeySetBytes(lib, b.keys);
    hide PublicKey, Lawful;
    SplitAtEnd(ka + ga + a.signature, a.depositDataRoot, kb + gb + b.signature, b.depositDataRoot);
    SplitAtEnd(ka + ga, a.signature, kb + gb, b.signature);
    SplitAtEnd(ka, ga, kb, gb);
  }
}
