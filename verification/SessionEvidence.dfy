/** The guardian's check of the attestation: it rebuilds, from the published text alone, the bytes the
    validator had attested, and asks the registry about their digest. */
module SessionEvidence {
  import opened Wrappers
  import opened Bytes
  import opened SigningMessages
  import opened Library
  import opened KeygenPayload
  import opened RemoteAttestation
  import Digits

  function EthPkFromHexUncompressed(lib: Lib, text: string): Result<EthPublicKey> {
    var bytes :- HexDecode(Strip0x(text));
    if |bytes| != 65 then Err(BadLength) else
      match lib.ethPkFromBytes(bytes)
      case Some(pk) => Ok(pk)
      case None => Err(Undecodable)
  }

  function ReadGuardians(lib: Lib, texts: seq<string>): Result<seq<EthPublicKey>> {
    if texts == [] then Ok([]) else
      var first :- EthPkFromHexUncompressed(lib, texts[0]);
      var rest :- ReadGuardians(lib, texts[1..]);
      Ok([first] + rest)
  }

  predicate HasEvidence(e: Evidence) {
    e.sessionId != "" && e.signature != "" && e.sessionPublicKey != ""
  }

  function EvidenceOf(payload: BlsKeygenPayload): Evidence {
    Evidence(payload.sessionId, payload.attestationSignature, payload.sessionPublicKey)
  }

  /** A key set whose degree is asked for has at least one point. */
  function ReadKeySet(lib: Lib, bytes: seq<byte>): (r: Result<PublicKeySet>)
    ensures r.Ok? ==> r.value != []
  {
    match lib.pkSetFromBytes(bytes)
    case Some(keys) => if keys == [] then Err(Undecodable) else Ok(keys)
    case None => Err(Undecodable)
  }

  /** What the guardian believes was attested.  A root of the wrong length aborts the program, a signature of
      the wrong length is cut or filled up, and no text but the guardians' keys may carry a `0x`. */
  function RebuiltPayload(lib: Lib, payload: BlsKeygenPayload): Result<seq<byte>>
    requires lib.order > 0
  {
    if !HasEvidence(EvidenceOf(payload)) then Err(SessionRejected) else
      var keyBytes :- HexDecode(payload.blsPubKeySet);
      var keys :- ReadKeySet(lib, keyBytes);
      var root :- HexDecode(payload.depositDataRoot);
      if |root| != 32 then Err(Panicked) else
        var signature :- HexDecode(payload.signature);
        var guardians :- ReadGuardians(lib, payload.guardianEthPubKeys);
        PaddedDigest(lib, keys, Resize(signature, 96), root, payload.blsEncPrivKeyShares, guardians)
  }

  /** The registry on the chain, asked about a digest and the evidence for it. */
  type Registry = (Bytes32, Evidence) -> Result<()>

  function VerifySessionEvidence(lib: Lib, registry: Registry, payload: BlsKeygenPayload): Result<()>
    requires lib.order > 0
  {
    var rebuilt :- RebuiltPayload(lib, payload);
    registry(lib.keccak(rebuilt), EvidenceOf(payload))
  }

  // ---------------------------------------------------------------- arbitrary payloads

  /** The text, with or without a prefix, of 65 bytes that are a guardian's key. */
  predicate IsGuardianText(lib: Lib, text: string) {
    var bytes := HexDecode(Strip0x(text));
    bytes.Ok? && |bytes.value| == 65 && lib.ethPkFromBytes(bytes.value).Some?
  }

  predicate NamesGuardian(lib: Lib, text: string, guardian: EthPublicKey) {
    IsGuardianText(lib, text) && lib.ethPkFromBytes(HexDecode(Strip0x(text)).value) == Some(guardian)
  }

  /** The payload publishes this commitment: every text decodes to its part, the shares and the guardians are paired
      up to the shorter list, and the signature is cut or filled up with zeros. */
  predicate Publishes(lib: Lib, payload: BlsKeygenPayload, c: Commitment) {
    var keyText, signature := HexDecode(payload.blsPubKeySet), HexDecode(payload.signature);
    var shares, guardians := payload.blsEncPrivKeyShares, payload.guardianEthPubKeys;
    && keyText.Ok? && lib.pkSetFromBytes(keyText.value) == Some(c.keys) && c.keys != []
    && HexDecode(payload.depositDataRoot) == Ok(c.depositDataRoot)
    && signature.Ok?
    && (forall k :: 0 <= k < 96 ==> c.signature[k] == if k < |signature.value| then signature.value[k] else 0)
    && (forall i :: 0 <= i < |guardians| ==> IsGuardianText(lib, guardians[i]))
    && |c.entries| == (if |shares| <= |guardians| then |shares| else |guardians|)
    && (forall i :: 0 <= i < |c.entries| ==>
          && HexDecode(shares[i]) == Ok(c.entries[i].encryptedShare)
          && NamesGuardian(lib, guardians[i], c.entries[i].guardian))
  }

  lemma {:induction false} ReadGuardiansIsExact(lib: Lib, texts: seq<string>)
    ensures ReadGuardians(lib, texts).Ok? <==> forall i :: 0 <= i < |texts| ==> IsGuardianText(lib, texts[i])
    ensures ReadGuardians(lib, texts).Ok? ==>
              |ReadGuardians(lib, texts).value| == |texts| &&
              forall i :: 0 <= i < |texts| ==> NamesGuardian(lib, texts[i], ReadGuardians(lib, texts).value[i])
    decreases |texts|
  {
    if texts != [] {
      ReadsOneGuardian(lib, texts[0]);
      hide IsGuardianText, NamesGuardian, EthPkFromHexUncompressed;
      ReadGuardiansIsExact(lib, texts[1..]);
      assert forall i :: 1 <= i < |texts| ==> texts[i] == texts[1..][i - 1];
      assert (forall i :: 0 <= i < |texts| - 1 ==> IsGuardianText(lib, texts[1..][i]))
             <==> (forall i :: 1 <= i < |texts| ==> IsGuardianText(lib, texts[i])) by {
        assert forall i :: 0 <= i < |texts| - 1 ==> texts[1..][i] == texts[i + 1];
      }
    }
  }

  lemma ReadsOneGuardian(lib: Lib, text: string)
    ensures EthPkFromHexUncompressed(lib, text).Ok? <==> IsGuardianText(lib, text)
    ensures EthPkFromHexUncompressed(lib, text).Ok? ==>
              NamesGuardian(lib, text, EthPkFromHexUncompressed(lib, text).value)
  {
    hide HexDecode, Strip0x;
  }

  lemma PublishesOne(lib: Lib, payload: BlsKeygenPayload, c: Commitment, d: Commitment)
    requires Publishes(lib, payload, c) && Publishes(lib, payload, d)
    ensures c == d
  {
    hide HexDecode, Strip0x;
    forall i | 0 <= i < |c.entries| ensures c.entries[i] == d.entries[i] {
      assert NamesGuardian(lib, payload.guardianEthPubKeys[i], c.entries[i].guardian);
      assert NamesGuardian(lib, payload.guardianEthPubKeys[i], d.entries[i].guardian);
    }
    assert c.signature == d.signature;
  }

  /** What the guardian rebuilds from an arbitrary payload. */
  lemma RebuildIsExact(lib: Lib, payload: BlsKeygenPayload) returns (c: Commitment)
    requires lib.order > 0
    ensures RebuiltPayload(lib, payload).Ok? ==>
              && HasEvidence(EvidenceOf(payload)) && Publishes(lib, payload, c)
              && RebuiltPayload(lib, payload).value == lib.keccak(CommittedBytes(lib, c)) + Zeros(32)
  {
    hide HexDecode, Strip0x, CommittedBytes, ReadGuardians, IsGuardianText, NamesGuardian, PaddedDigest;
    c := Commitment([], Zeros(96), Zeros(32), []);
    if RebuiltPayload(lib, payload).Ok? {
      var root, signature := HexDecode(payload.depositDataRoot).value, HexDecode(payload.signature).value;
      var keys := ReadKeySet(lib, HexDecode(payload.blsPubKeySet).value).value;
      var guardians := ReadGuardians(lib, payload.guardianEthPubKeys).value;
      ReadGuardiansIsExact(lib, payload.guardianEthPubKeys);
      var entries := PaddedDigestIsExact(lib, keys, Resize(signature, 96), root, payload.blsEncPrivKeyShares,
                                         guardians);
      c := Commitment(keys, Resize(signature, 96), root, entries);
    }
  }

  lemma PublishedIsRebuilt(lib: Lib, payload: BlsKeygenPayload, c: Commitment)
    requires lib.order > 0 && HasEvidence(EvidenceOf(payload)) && Publishes(lib, payload, c)
    ensures RebuiltPayload(lib, payload).Ok?
  {
    hide HexDecode, Strip0x, CommittedBytes, ReadGuardians, IsGuardianText, NamesGuardian, PaddedDigest;
    ReadGuardiansIsExact(lib, payload.guardianEthPubKeys);
    var guardians := ReadGuardians(lib, payload.guardianEthPubKeys).value;
    var entries := PaddedDigestIsExact(lib, c.keys, Resize(HexDecode(payload.signature).value, 96),
                                       c.depositDataRoot, payload.blsEncPrivKeyShares, guardians);
  }

  /** Evidence in all three fields, for a published commitment whose digest the registry accepts. */
  ghost predicate SoundSession(lib: Lib, registry: Registry, payload: BlsKeygenPayload)
    requires lib.order > 0
  {
    && payload.sessionId != "" && payload.attestationSignature != "" && payload.sessionPublicKey != ""
    && exists c :: Publishes(lib, payload, c) &&
         registry(lib.keccak(lib.keccak(CommittedBytes(lib, c)) + Zeros(32)),
                  Evidence(payload.sessionId, payload.attestationSignature, payload.sessionPublicKey)).Ok?
  }

  /** The session check of an arbitrary payload, even a hostile one, accepts exactly the sound sessions; without
      evidence it is rejected, and what can be rebuilt is judged by the registry. */
  lemma SessionCheckIsExact(lib: Lib, registry: Registry, payload: BlsKeygenPayload)
    requires lib.order > 0
    ensures VerifySessionEvidence(lib, registry, payload).Ok? <==> SoundSession(lib, registry, payload)
    ensures !HasEvidence(EvidenceOf(payload)) ==>
              VerifySessionEvidence(lib, registry, payload) == Err(SessionRejected)
    ensures forall c :: HasEvidence(EvidenceOf(payload)) && Publishes(lib, payload, c) ==>
              VerifySessionEvidence(lib, registry, payload)
              == registry(lib.keccak(lib.keccak(CommittedBytes(lib, c)) + Zeros(32)), EvidenceOf(payload))
  {
    assert !HasEvidence(EvidenceOf(payload)) ==> RebuiltPayload(lib, payload) == Err(SessionRejected);
    hide RebuiltPayload, Publishes, CommittedBytes;
    var c := RebuildIsExact(lib, payload);
    forall d | HasEvidence(EvidenceOf(payload)) && Publishes(lib, payload, d)
      ensures RebuiltPayload(lib, payload).Ok? && c == d
    {
      PublishedIsRebuilt(lib, payload, d);
      PublishesOne(lib, payload, c, d);
    }
  }

  // ---------------------------------------------------------------- agreement

  lemma GuardianTextReadsBack(lib: Lib, pk: EthPublicKey)
    requires Lawful(lib)
    ensures EthPkFromHexUncompressed(lib, EthPkToHexUncompressed(lib, pk)) == Ok(pk)
  {
    var bytes := lib.ethPkToBytes(pk);
    assert |bytes| == 65 && lib.ethPkFromBytes(bytes) == Some(pk);
    StripHexEncode(bytes);
    HexRoundTrip(bytes);
  }

  lemma {:induction false} GuardiansReadBack(lib: Lib, guardians: seq<EthPublicKey>)
    requires Lawful(lib)
    ensures ReadGuardians(lib, GuardianTexts(lib, guardians)) == Ok(guardians)
    decreases |guardians|
  {
    hide EthPkFromHexUncompressed, EthPkToHexUncompressed, Lawful;
    if guardians != [] {
      GuardianTextReadsBack(lib, guardians[0]);
      GuardiansReadBack(lib, guardians[1..]);
      assert GuardianTexts(lib, guardians)[1..] == GuardianTexts(lib, guardians[1..]);
      assert guardians == [guardians[0]] + guardians[1..];
    }
  }

  lemma {:induction false} AllDecodable(texts: seq<string>)
    requires forall i :: 0 <= i < |texts| ==> HexDecode(texts[i]).Ok?
    ensures DecodeTexts(texts).Ok?
    decreases |texts|
  {
    hide HexDecode;
    if texts != [] {
      AllDecodable(texts[..|texts| - 1]);
    }
  }

  lemma ShareTextsDecodable(lib: Lib, poly: SecretKeySet, guardians: seq<EthPublicKey>, nonces: seq<nat>)
    requires lib.order > 0 && |nonces| == |guardians|
    ensures DecodeTexts(EncryptedShares(RecipientKeys(lib, poly, guardians, nonces))).Ok?
  {
    hide HexEncode, HexDecode;
    var texts := EncryptedShares(RecipientKeys(lib, poly, guardians, nonces));
    forall i | 0 <= i < |texts| ensures HexDecode(texts[i]).Ok? {
      HexRoundTrip(lib.encrypt(guardians[i], lib.skToBytes(SecretKeyShare(lib, poly, i)), nonces[i]));
    }
    AllDecodable(texts);
  }

  /** The validator can always commit to what it generated. */
  lemma AttestedPayloadExists(lib: Lib, poly: SecretKeySet, guardians: seq<EthPublicKey>, nonces: seq<nat>,
                              credentials: Bytes32, fork: Version)
    requires lib.order > 0 && poly != [] && |nonces| == |guardians|
    ensures AttestedPayload(lib, poly, guardians, nonces, credentials, fork).Ok?
  {
    hide EncryptedShares, SignFullDeposit, RecipientKeys, CommittedBytes;
    var texts := EncryptedShares(RecipientKeys(lib, poly, guardians, nonces));
    ShareTextsDecodable(lib, poly, guardians, nonces);
    assert texts[..|texts|] == texts;
  }

  /** For every key generation, the guardian rebuilds from the published text exactly the bytes the validator
      had attested, if the evidence is there; without it the payload is rejected. */
  lemma RebuiltIsAttested(lib: Lib, poly: SecretKeySet, guardians: seq<EthPublicKey>, nonces: seq<nat>,
                          credentials: Bytes32, fork: Version, reported: Version, evidence: Evidence)
    requires Lawful(lib) && IsKeySet(lib, poly) && |nonces| == |guardians|
    ensures RebuiltPayload(lib, PayloadFor(lib, poly, guardians, nonces, credentials, fork, reported, evidence))
            == if HasEvidence(evidence) then AttestedPayload(lib, poly, guardians, nonces, credentials, fork)
               else Err(SessionRejected)
  {
    var deposit := SignFullDeposit(lib, poly, credentials, fork);
    HexRoundTrip(lib.pkSetToBytes(PublicKeys(lib, poly)));
    HexRoundTrip(deposit.dataRoot);
    HexRoundTrip(deposit.signature);
    GuardiansReadBack(lib, guardians);
    assert ReadKeySet(lib, lib.pkSetToBytes(PublicKeys(lib, poly))) == Ok(PublicKeys(lib, poly));
    assert Resize(deposit.signature, 96) == deposit.signature;
    hide HexEncode, HexDecode, Resize, ReadGuardians, GuardianTexts, SignFullDeposit, ReadKeySet, PaddedDigest;
    hide EncryptedShares, RecipientKeys, Lawful, IsKeySet, PublicKeyHex;
  }

  /** If the registry accepts what the agent says about the attested bytes, the guardian accepts the session. */
  lemma AttestedSessionIsVerified(lib: Lib, registry: Registry, poly: SecretKeySet, guardians: seq<EthPublicKey>,
                                  nonces: seq<nat>, credentials: Bytes32, fork: Version, evidence: Evidence)
    requires Lawful(lib) && IsKeySet(lib, poly) && |nonces| == |guardians|
    ensures var p := PayloadFor(lib, poly, guardians, nonces, credentials, fork, fork, evidence);
            var attested := AttestedPayload(lib, poly, guardians, nonces, credentials, fork);
            && attested.Ok?
            && (VerifySessionEvidence(lib, registry, p).Ok?
                <==> HasEvidence(evidence) && registry(lib.keccak(attested.value), evidence).Ok?)
  {
    AttestedPayloadExists(lib, poly, guardians, nonces, credentials, fork);
    RebuiltIsAttested(lib, poly, guardians, nonces, credentials, fork, fork, evidence);
    hide RebuiltPayload, AttestedPayload, Lawful, IsKeySet;
    assert EvidenceOf(PayloadFor(lib, poly, guardians, nonces, credentials, fork, fork, evidence)) == evidence;
  }

  // ---------------------------------------------------------------- what the attested bytes bind

  /** What a key generation commits to. */
  function KeygenCommitment(lib: Lib, poly: SecretKeySet, guardians: seq<EthPublicKey>, nonces: seq<nat>,
                            credentials: Bytes32, fork: Version): (c: Commitment)
    requires lib.order > 0 && |nonces| == |guardians|
    ensures |c.entries| == |guardians|
  {
    var deposit := SignFullDeposit(lib, poly, credentials, fork);
    Commitment(PublicKeys(lib, poly), deposit.signature, deposit.dataRoot,
               seq(|guardians|, i requires 0 <= i < |guardians| =>
                 Entry(lib.encrypt(guardians[i], lib.skToBytes(SecretKeyShare(lib, poly, i)), nonces[i]),
                       guardians[i])))
  }

  lemma {:induction false} DecodedTexts(texts: seq<string>, shares: seq<seq<byte>>)
    requires |texts| == |shares| && forall i :: 0 <= i < |texts| ==> texts[i] == HexEncode(shares[i])
    ensures DecodeTexts(texts) == Ok(shares)
    decreases |texts|
  {
    hide HexEncode, HexDecode;
    if texts != [] {
      var n := |texts| - 1;
      DecodedTexts(texts[..n], shares[..n]);
      HexRoundTrip(shares[n]);
      assert shares == shares[..n] + [shares[n]];
    }
  }

  /** The attested bytes are the padded digest of the commitment. */
  lemma AttestedIsCommitment(lib: Lib, poly: SecretKeySet, guardians: seq<EthPublicKey>, nonces: seq<nat>,
                             credentials: Bytes32, fork: Version)
    requires lib.order > 0 && poly != [] && |nonces| == |guardians|
    ensures AttestedPayload(lib, poly, guardians, nonces, credentials, fork)
            == Ok(lib.keccak(CommittedBytes(lib, KeygenCommitment(lib, poly, guardians, nonces, credentials, fork)))
                  + Zeros(32))
  {
    hide HexEncode, HexDecode, SignFullDeposit, CommittedBytes, SecretKeyShare, PublicKeys;
    var n := |guardians|;
    var texts := EncryptedShares(RecipientKeys(lib, poly, guardians, nonces));
    var shares := seq(n, i requires 0 <= i < n =>
                           lib.encrypt(guardians[i], lib.skToBytes(SecretKeyShare(lib, poly, i)), nonces[i]));
    DecodedTexts(texts, shares);
    assert texts[..n] == texts && guardians[..n] == guardians;
    assert Zip(shares, guardians) == KeygenCommitment(lib, poly, guardians, nonces, credentials, fork).entries;
  }

  lemma {:induction false} EntriesWidth(lib: Lib, keys: PublicKeySet, entries: seq<Entry>, width: nat, n: nat)
    requires Lawful(lib) && n <= |entries| && forall i :: 0 <= i < |entries| ==> |entries[i].encryptedShare| == width
    ensures |EntryBytes(lib, keys, entries, n)| == n * (width + 113)
  {
    assert lib.order > 0;
    hide PublicKeyShare, EntryBytes;
    UnfoldEntry(lib, keys, entries, n);
    if n > 0 {
      EntriesWidth(lib, keys, entries, width, n - 1);
      assert |lib.ethPkToBytes(entries[n - 1].guardian)| == 65;
      hide Lawful;
      OneMore(n, width + 113);
    }
  }

  lemma OneMore(n: nat, k: nat)
    requires n > 0
    ensures (n - 1) * k + k == n * k
  {
  }

  lemma SameCount(m: nat, n: nat, k: nat)
    requires k > 0 && m * k == n * k
    ensures m == n
  {
  }

  lemma CommittedWidth(lib: Lib, c: Commitment, width: nat)
    requires Lawful(lib) && IsKeySet(lib, c.keys)
    requires forall i :: 0 <= i < |c.entries| ==> |c.entries[i].encryptedShare| == width
    ensures |CommittedBytes(lib, c)| == 48 * |c.keys| + 184 + |c.entries| * (width + 113)
  {
    HeadWidth(lib, c);
    EntriesWidth(lib, c.keys, c.entries, width, |c.entries|);
    hide HeadBytes, EntryBytes;
  }

  /** Commitments whose shares all have one width are bound by their bytes, whatever their numbers of entries. */
  lemma CommitmentOfOneWidthBinds(lib: Lib, a: Commitment, b: Commitment, width: nat)
    requires Lawful(lib) && IsKeySet(lib, a.keys) && IsKeySet(lib, b.keys)
    requires |a.keys| <= Digits.LIMB && |b.keys| <= Digits.LIMB
    requires forall i :: 0 <= i < |a.entries| ==> |a.entries[i].encryptedShare| == width
    requires forall i :: 0 <= i < |b.entries| ==> |b.entries[i].encryptedShare| == width
    requires CommittedBytes(lib, a) == CommittedBytes(lib, b)
    ensures a == b
  {
    CommittedWidth(lib, a, width);
    CommittedWidth(lib, b, width);
    LastBytes(lib, a, b);
    hide CommittedBytes, Lawful, IsKeySet;
    SameCount(|a.entries|, |b.entries|, width + 113);
    CommitmentBinds(lib, a, b);
  }

  lemma LastBytes(lib: Lib, a: Commitment, b: Commitment)
    requires lib.order > 0 && a.keys != [] && b.keys != []
    requires |a.keys| <= Digits.LIMB && |b.keys| <= Digits.LIMB
    requires CommittedBytes(lib, a) == CommittedBytes(lib, b)
    ensures |a.keys| == |b.keys|
  {
    hide HeadBytes, EntryBytes, BigEndian;
    SplitAtEnd(HeadBytes(lib, a) + EntryBytes(lib, a.keys, a.entries, |a.entries|), BigEndian(|a.keys| - 1, 8),
               HeadBytes(lib, b) + EntryBytes(lib, b.keys, b.entries, |b.entries|), BigEndian(|b.keys| - 1, 8));
    BigEndianInjective(|a.keys| - 1, |b.keys| - 1);
  }

  /** The share ciphertexts of key generations all have one width. */
  lemma SharesOfOneWidth(lib: Lib, poly: SecretKeySet, guardians: seq<EthPublicKey>, nonces: seq<nat>,
                         credentials: Bytes32, fork: Version, width: nat)
    requires lib.order > 0 && |nonces| == |guardians| && EnvelopeWidths(lib)
    requires width == |lib.encrypt(Zeros(64), Zeros(32), 0)|
    ensures var c := KeygenCommitment(lib, poly, guardians, nonces, credentials, fork);
            forall i :: 0 <= i < |c.entries| ==> |c.entries[i].encryptedShare| == width
  {
    hide SignFullDeposit, SecretKeyShare, PublicKeys;
    var c := KeygenCommitment(lib, poly, guardians, nonces, credentials, fork);
    var pk: EthPublicKey, m: Bytes32 := Zeros(64), Zeros(32);
    forall i | 0 <= i < |c.entries| ensures |c.entries[i].encryptedShare| == width {
      var share: Bytes32 := lib.skToBytes(SecretKeyShare(lib, poly, i));
      assert |share| == |m| && c.entries[i].encryptedShare == lib.encrypt(guardians[i], share, nonces[i]);
      assert width == |lib.encrypt(pk, m, 0)|;
    }
  }

  /** Unless the digest collides, two key generations with one attested payload have the same key set, deposit and
      guardians, and the same ciphertext for each guardian. */
  lemma AttestedPayloadBinds(lib: Lib, poly: SecretKeySet, guardians: seq<EthPublicKey>, nonces: seq<nat>,
                             credentials: Bytes32, fork: Version, poly': SecretKeySet, guardians': seq<EthPublicKey>,
                             nonces': seq<nat>, credentials': Bytes32, fork': Version)
    requires Lawful(lib) && EnvelopeWidths(lib) && IsKeySet(lib, poly) && IsKeySet(lib, poly')
    requires |nonces| == |guardians| && |nonces'| == |guardians'| && |poly| <= Digits.LIMB && |poly'| <= Digits.LIMB
    requires var x := CommittedBytes(lib, KeygenCommitment(lib, poly, guardians, nonces, credentials, fork));
             var y := CommittedBytes(lib, KeygenCommitment(lib, poly', guardians', nonces', credentials', fork'));
             lib.keccak(x) == lib.keccak(y) ==> x == y
    requires AttestedPayload(lib, poly, guardians, nonces, credentials, fork)
             == AttestedPayload(lib, poly', guardians', nonces', credentials', fork')
    ensures KeygenCommitment(lib, poly, guardians, nonces, credentials, fork)
            == KeygenCommitment(lib, poly', guardians', nonces', credentials', fork')
  {
    var a := KeygenCommitment(lib, poly, guardians, nonces, credentials, fork);
    var b := KeygenCommitment(lib, poly', guardians', nonces', credentials', fork');
    var width := |lib.encrypt(Zeros(64), Zeros(32), 0)|;
    AttestedIsCommitment(lib, poly, guardians, nonces, credentials, fork);
    AttestedIsCommitment(lib, poly', guardians', nonces', credentials', fork');
    SharesOfOneWidth(lib, poly, guardians, nonces, credentials, fork, width);
    SharesOfOneWidth(lib, poly', guardians', nonces', credentials', fork', width);
    assert IsKeySet(lib, a.keys) && IsKeySet(lib, b.keys) && |a.keys| == |poly| && |b.keys| == |poly'|;
    hide *;
    SplitAtEnd(lib.keccak(CommittedBytes(lib, a)), Zeros(32), lib.keccak(CommittedBytes(lib, b)), Zeros(32));
    CommitmentOfOneWidthBinds(lib, a, b, width);
  }
}
