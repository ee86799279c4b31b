/** The guardian's side: checking the deposit, searching the payload for a share it can open, and keeping
    that share. */
module Custody {
  import opened Wrappers
  import opened Bytes
  import opened Ssz
  import opened SigningMessages
  import opened SigningRoots
  import RootLayouts
  import opened Library
  import opened Threshold
  import opened KeygenPayload
  import opened SessionEvidence

  // ---------------------------------------------------------------- reading the payload

  function ParsePublicKeySet(lib: Lib, text: string): Result<PublicKeySet> {
    var bytes :- HexDecode(Strip0x(text));
    match lib.pkSetFromBytes(bytes)
    case Some(keys) => Ok(keys)
    case None => Err(Undecodable)
  }

  function ParseWithdrawalCredentials(text: string): Result<Bytes32> {
    var bytes :- HexDecode(Strip0x(text));
    if |bytes| != 32 then Err(BadLength) else Ok(bytes)
  }

  /** A signature text of the wrong length aborts the program. */
  function ParseSignature(lib: Lib, text: string): Result<nat> {
    var bytes :- HexDecode(Strip0x(text));
    if |bytes| != 96 then Err(Panicked) else
      match lib.sigFromBytes(bytes)
      case Some(signature) => Ok(signature)
      case None => Err(Undecodable)
  }

  function DepositMessageRoot(lib: Lib, payload: BlsKeygenPayload): Result<Root>
    requires lib.order > 0
  {
    var keys :- ParsePublicKeySet(lib, payload.blsPubKeySet);
    var credentials :- ParseWithdrawalCredentials(payload.withdrawalCredentials);
    Ok(DepositSigningRoot(lib, keys, credentials, payload.forkVersion))
  }

  function DepositDataRoot(lib: Lib, payload: BlsKeygenPayload): Result<Root>
    requires lib.order > 0
  {
    var keys :- ParsePublicKeySet(lib, payload.blsPubKeySet);
    var credentials :- ParseWithdrawalCredentials(payload.withdrawalCredentials);
    var signature :- ParseSignature(lib, payload.signature);
    Ok(DepositDataRootFor(lib, keys, credentials, lib.sigToBytes(signature)))
  }

  function VerifyPublicKeysMatch(lib: Lib, payload: BlsKeygenPayload): Result<bool>
    requires lib.order > 0
  {
    var keys :- ParsePublicKeySet(lib, payload.blsPubKeySet);
    Ok(PublicKeyHex(lib, PublicKey(lib, keys)) == Strip0x(payload.blsPubKey))
  }

  function DecryptSkShare(lib: Lib, payload: BlsKeygenPayload, i: nat, guardian: EthSecretKey): Result<nat> {
    if i >= |payload.blsEncPrivKeyShares| then Err(BadLength) else
      var encrypted :- HexDecode(Strip0x(payload.blsEncPrivKeyShares[i]));
      match lib.decrypt(guardian, encrypted)
      case None => Err(Undecodable)
      case Some(bytes) =>
        if |bytes| != 32 then Err(BadLength) else
          match lib.skFromBytes(bytes)
          case Some(share) => Ok(share)
          case None => Err(Undecodable)
  }

  // ---------------------------------------------------------------- the deposit check

  function VerifyDepositMessage(lib: Lib, payload: BlsKeygenPayload): Result<()>
    requires lib.order > 0
  {
    var keys :- ParsePublicKeySet(lib, payload.blsPubKeySet);
    var signature :- ParseSignature(lib, payload.signature);
    var root :- DepositMessageRoot(lib, payload);
    if !Verify(lib, PublicKey(lib, keys), signature, root) then Err(DepositSignatureInvalid) else
      var dataRoot :- DepositDataRoot(lib, payload);
      if Strip0x(payload.depositDataRoot) != HexEncode(dataRoot) then Err(DepositDataRootInvalid) else Ok(())
  }

  /** Key set, credentials and signature can be read. */
  predicate ReadableDeposit(lib: Lib, payload: BlsKeygenPayload) {
    var keyText, credentials, signatureText := HexDecode(Strip0x(payload.blsPubKeySet)),
                                               HexDecode(Strip0x(payload.withdrawalCredentials)),
                                               HexDecode(Strip0x(payload.signature));
    && keyText.Ok? && lib.pkSetFromBytes(keyText.value).Some?
    && credentials.Ok? && |credentials.value| == 32
    && signatureText.Ok? && |signatureText.value| == 96 && lib.sigFromBytes(signatureText.value).Some?
  }

  /** The group key a readable payload publishes, and the deposit signature. */
  function ReadGroupKey(lib: Lib, payload: BlsKeygenPayload): nat
    requires lib.order > 0 && ReadableDeposit(lib, payload)
  {
    PublicKey(lib, lib.pkSetFromBytes(HexDecode(Strip0x(payload.blsPubKeySet)).value).value)
  }

  function ReadSignature(lib: Lib, payload: BlsKeygenPayload): nat
    requires ReadableDeposit(lib, payload)
  {
    lib.sigFromBytes(HexDecode(Strip0x(payload.signature)).value).value
  }

  /** The signature verifies under the group key on the deposit of 32 ETH by that key with the published
      credentials, for the reported version. */
  predicate SignedDepositText(lib: Lib, payload: BlsKeygenPayload)
    requires lib.order > 0 && ReadableDeposit(lib, payload)
  {
    var point, credentials := ReadGroupKey(lib, payload), HexDecode(Strip0x(payload.withdrawalCredentials)).value;
    Verify(lib, point, ReadSignature(lib, payload),
           RootLayouts.DepositToSign(lib.hash, lib.pkToBytes(point), credentials, 32_000_000_000, payload.forkVersion))
  }

  /** The data root is the text of the root of that deposit with this signature. */
  predicate RootedDepositText(lib: Lib, payload: BlsKeygenPayload)
    requires lib.order > 0 && ReadableDeposit(lib, payload)
  {
    var key, credentials := lib.pkToBytes(ReadGroupKey(lib, payload)),
                            HexDecode(Strip0x(payload.withdrawalCredentials)).value;
    Strip0x(payload.depositDataRoot)
    == HexEncode(RootLayouts.DepositToSend(lib.hash, key, credentials, 32_000_000_000,
                                           lib.sigToBytes(ReadSignature(lib, payload))))
  }

  /** A deposit a guardian may rely on. */
  predicate SoundDeposit(lib: Lib, payload: BlsKeygenPayload)
    requires lib.order > 0
  {
    ReadableDeposit(lib, payload) && SignedDepositText(lib, payload) && RootedDepositText(lib, payload)
  }

  /** The deposit check of an arbitrary payload, even a hostile one, accepts exactly the sound deposits, and says what
      is wrong with the others. */
  lemma DepositCheckIsExact(lib: Lib, payload: BlsKeygenPayload)
    requires lib.order > 0
    ensures var r := VerifyDepositMessage(lib, payload);
            && (r.Ok? <==> SoundDeposit(lib, payload))
            && (ReadableDeposit(lib, payload) && r.Err? ==>
                  r.error == if SignedDepositText(lib, payload) then DepositDataRootInvalid
                             else DepositSignatureInvalid)
  {
    hide HexDecode, HexEncode, Strip0x, DepositSigningRoot, DepositDataRootFor, Verify, PublicKey;
    hide RootLayouts.DepositToSign, RootLayouts.DepositToSend;
    var keys := ParsePublicKeySet(lib, payload.blsPubKeySet);
    var credentials := ParseWithdrawalCredentials(payload.withdrawalCredentials);
    var signature := ParseSignature(lib, payload.signature);
    if keys.Ok? && credentials.Ok? && signature.Ok? {
      DepositRoots(lib, keys.value, credentials.value, payload.forkVersion, lib.sigToBytes(signature.value));
    }
  }

  /** The texts of a produced payload read back as what was written. */
  lemma PayloadReadsBack(lib: Lib, poly: SecretKeySet, guardians: seq<EthPublicKey>, nonces: seq<nat>,
                         credentials: Bytes32, signedFor: Version, reported: Version, evidence: Evidence)
    requires Lawful(lib) && IsKeySet(lib, poly) && |nonces| == |guardians|
    ensures var p := PayloadFor(lib, poly, guardians, nonces, credentials, signedFor, reported, evidence);
            && ParsePublicKeySet(lib, p.blsPubKeySet) == Ok(PublicKeys(lib, poly))
            && ParseWithdrawalCredentials(p.withdrawalCredentials) == Ok(credentials)
            && ParseSignature(lib, p.signature)
               == Ok(Sign(lib, SecretKey(lib, poly),
                          DepositSigningRoot(lib, PublicKeys(lib, poly), credentials, signedFor)))
  {
    hide DepositSigningRoot, SecretKey, DepositDataRootFor, PublicKeyHex, EncryptedShares, GuardianTexts, HexEncode;
    hide HexDecode;
    var deposit := SignFullDeposit(lib, poly, credentials, signedFor);
    ReadsBack(lib.pkSetToBytes(PublicKeys(lib, poly)));
    ReadsBack(credentials);
    ReadsBack(deposit.signature);
  }

  lemma ReadsBack(bytes: seq<byte>)
    ensures HexDecode(Strip0x(HexEncode(bytes))) == Ok(bytes)
  {
    StripHexEncode(bytes);
    HexRoundTrip(bytes);
  }

  /** What the deposit check of a produced payload comes down to: the two deposit roots, signed and
      reported, must lead to the same signature. */
  lemma DepositCheckOfPayload(lib: Lib, poly: SecretKeySet, guardians: seq<EthPublicKey>, nonces: seq<nat>,
                              credentials: Bytes32, signedFor: Version, reported: Version, evidence: Evidence)
    requires Lawful(lib) && IsKeySet(lib, poly) && |nonces| == |guardians|
    ensures var p := PayloadFor(lib, poly, guardians, nonces, credentials, signedFor, reported, evidence);
            var secret := SecretKey(lib, poly);
            var signed := DepositSigningRoot(lib, PublicKeys(lib, poly), credentials, signedFor);
            var checked := DepositSigningRoot(lib, PublicKeys(lib, poly), credentials, reported);
            VerifyDepositMessage(lib, p).Ok? <==> Sign(lib, secret, signed) == Sign(lib, secret, checked)
  {
    var keys := PublicKeys(lib, poly);
    var p := PayloadFor(lib, poly, guardians, nonces, credentials, signedFor, reported, evidence);
    var signature := Sign(lib, SecretKey(lib, poly), DepositSigningRoot(lib, keys, credentials, signedFor));
    PayloadReadsBack(lib, poly, guardians, nonces, credentials, signedFor, reported, evidence);
    PublicShareIsPoint(lib, poly, 0);
    VerifiesIff(lib, SecretKey(lib, poly), signature, DepositSigningRoot(lib, keys, credentials, reported));
    StripHexEncode(SignFullDeposit(lib, poly, credentials, signedFor).dataRoot);
    hide DepositSigningRoot, DepositDataRootFor, PublicKeyHex, EncryptedShares, GuardianTexts, HexEncode, HexDecode;
    hide ParsePublicKeySet, ParseWithdrawalCredentials, ParseSignature, Lawful, Sign, Verify, SecretKey, PublicKey;
    hide PublicKeys, PointOf, RecipientKeys, IsKeySet;
    assert DepositDataRoot(lib, p) == Ok(SignFullDeposit(lib, poly, credentials, signedFor).dataRoot);
  }

  /** The payload of the validator enclave always passes the deposit check. */
  lemma EnclaveDepositPasses(lib: Lib, poly: SecretKeySet, guardians: seq<EthPublicKey>, nonces: seq<nat>,
                             credentials: Bytes32, fork: Version, evidence: Evidence)
    requires Lawful(lib) && IsKeySet(lib, poly) && |nonces| == |guardians|
    ensures VerifyDepositMessage(lib, PayloadFor(lib, poly, guardians, nonces, credentials, fork, fork, evidence)).Ok?
  {
    hide VerifyDepositMessage;
    DepositCheckOfPayload(lib, poly, guardians, nonces, credentials, fork, fork, evidence);
  }

  /** The first 28 bytes of the fork data root tell the two versions apart. */
  ghost predicate SeparatedForks(h: Hash, a: Version, b: Version) {
    ComputeForkDataRoot(h, a, Zeros(32))[..28] == ComputeForkDataRoot(h, b, Zeros(32))[..28] ==> a == b
  }

  /** Under such assumptions the deposit root determines the fork version. */
  lemma DepositRootNamesFork(lib: Lib, keys: PublicKeySet, credentials: Bytes32, fork: Version, other: Version)
    requires lib.order > 0
    requires SeparatedForks(lib.hash, fork, other)
    requires CollisionFree(lib.hash, DepositInputs(lib, keys, credentials, {fork, other}))
    requires DepositSigningRoot(lib, keys, credentials, fork) == DepositSigningRoot(lib, keys, credentials, other)
    ensures fork == other
  {
    hide DepositMessageFor, ComputeSigningRoot, ComputeForkDataRoot, HashTreeRoot;
    var content := DepositMessageFor(lib, keys, credentials).ToTree();
    var da, db := DepositDomain(lib.hash, fork), DepositDomain(lib.hash, other);
    SigningRootIsTreeRoot(lib.hash, content, da);
    SigningRootIsTreeRoot(lib.hash, content, db);
    var x := HashTreeRoot(lib.hash, content);
    assert (x, da) in DepositInputs(lib, keys, credentials, {fork, other});
    assert (x, db) in DepositInputs(lib, keys, credentials, {fork, other});
    assert da[4..] == db[4..];
  }

  function DepositDomain(h: Hash, fork: Version): Domain {
    DomainFor(h, DOMAIN_DEPOSIT, Some(fork), None)
  }

  /** The pairs hashed last when the deposit is signed for one of the versions. */
  function DepositInputs(lib: Lib, keys: PublicKeySet, credentials: Bytes32, forks: set<Version>)
    : set<(Bytes32, Bytes32)>
    requires lib.order > 0
  {
    set fork | fork in forks :: (HashTreeRoot(lib.hash, DepositMessageFor(lib, keys, credentials).ToTree()),
                                 DepositDomain(lib.hash, fork))
  }

  /** The payload of the client-side producer passes the deposit check exactly when it was asked for the
      genesis version. */
  lemma KeystoreDepositPassesIff(lib: Lib, poly: SecretKeySet, guardians: seq<EthPublicKey>, nonces: seq<nat>,
                                 credentials: Bytes32, fork: Version)
    requires Lawful(lib) && IsKeySet(lib, poly) && |nonces| == |guardians|
    requires SecretKey(lib, poly) != 0
    requires SeparatedPoints(lib, DepositSigningRoot(lib, PublicKeys(lib, poly), credentials, fork),
                             DepositSigningRoot(lib, PublicKeys(lib, poly), credentials, GENESIS_FORK_VERSION))
    requires CollisionFree(lib.hash,
                           DepositInputs(lib, PublicKeys(lib, poly), credentials, {fork, GENESIS_FORK_VERSION}))
    requires SeparatedForks(lib.hash, fork, GENESIS_FORK_VERSION)
    ensures VerifyDepositMessage(lib, PayloadFor(lib, poly, guardians, nonces, credentials, fork,
                                                 GENESIS_FORK_VERSION, Evidence("", "", ""))).Ok?
            <==> fork == GENESIS_FORK_VERSION
  {
    hide VerifyDepositMessage, DepositSigningRoot, PayloadFor, SecretKey, Sign, DepositInputs, SeparatedForks;
    hide CollisionFree;
    var secret := SecretKey(lib, poly);
    var a := DepositSigningRoot(lib, PublicKeys(lib, poly), credentials, fork);
    var b := DepositSigningRoot(lib, PublicKeys(lib, poly), credentials, GENESIS_FORK_VERSION);
    DepositCheckOfPayload(lib, poly, guardians, nonces, credentials, fork, GENESIS_FORK_VERSION, Evidence("", "", ""));
    if Sign(lib, secret, a) == Sign(lib, secret, b) {
      SecretInRange(lib, poly);
      SameSignatureSamePoint(lib, secret, a, b);
      DepositRootNamesFork(lib, PublicKeys(lib, poly), credentials, fork, GENESIS_FORK_VERSION);
    }
  }

  lemma SecretInRange(lib: Lib, poly: SecretKeySet)
    requires lib.order > 0
    ensures SecretKey(lib, poly) < lib.order
  {
  }

  // ---------------------------------------------------------------- the search

  /** Entry `i` opens under the guardian's key and holds the secret of public share `i`. */
  predicate Opens(lib: Lib, payload: BlsKeygenPayload, keys: PublicKeySet, guardian: EthSecretKey, i: nat)
    requires lib.order > 0
  {
    && i < |payload.blsEncPrivKeyShares|
    && (var text := HexDecode(Strip0x(payload.blsEncPrivKeyShares[i]));
        && text.Ok? && lib.decrypt(guardian, text.value).Some?
        && (var bytes := lib.decrypt(guardian, text.value).value;
            && |bytes| == 32 && lib.skFromBytes(bytes).Some?
            && lib.pkToBytes(PointOf(lib, lib.skFromBytes(bytes).value))
               == lib.pkToBytes(PublicKeyShare(lib, keys, i))))
  }

  /** An entry opens exactly when it decrypts to a share whose public key has the text of public share `i`. */
  lemma OpensIffMatches(lib: Lib, payload: BlsKeygenPayload, keys: PublicKeySet, guardian: EthSecretKey, i: nat)
    requires lib.order > 0
    ensures var share := DecryptSkShare(lib, payload, i, guardian);
            Opens(lib, payload, keys, guardian, i)
            <==> (share.Ok? && HexEncode(lib.pkToBytes(PublicKeyShare(lib, keys, i)))
                               == HexEncode(lib.pkToBytes(PointOf(lib, share.value))))
  {
    hide HexDecode, HexEncode, Strip0x, PublicKeyShare, PointOf;
    var share := DecryptSkShare(lib, payload, i, guardian);
    if share.Ok? {
      var a, b := lib.pkToBytes(PublicKeyShare(lib, keys, i)), lib.pkToBytes(PointOf(lib, share.value));
      if HexEncode(a) == HexEncode(b) {
        HexEncodeInjective(a, b);
      }
    }
  }

  /** The share for a guardian: the claimed key must be that of the key set, and the entry the first that
      opens. */
  function CustodyShare(lib: Lib, payload: BlsKeygenPayload, guardian: EthSecretKey): Result<nat>
    requires lib.order > 0
  {
    var keys :- ParsePublicKeySet(lib, payload.blsPubKeySet);
    if PublicKeyHex(lib, PublicKey(lib, keys)) != Strip0x(payload.blsPubKey) then Err(PublicKeyMismatch)
    else FindShare(lib, payload, keys, guardian, 0)
  }

  /** Looks at one entry after the other, skipping those that do not open. */
  method VerifyCustody(lib: Lib, payload: BlsKeygenPayload, guardian: EthSecretKey) returns (r: Result<nat>)
    requires lib.order > 0
    ensures r == CustodyShare(lib, payload, guardian)
  {
    hide HexEncode, HexDecode, DecryptSkShare, PublicKeyHex, PublicKey, PublicKeyShare, ParsePublicKeySet, Opens;
    var matching :- VerifyPublicKeysMatch(lib, payload);
    if !matching {
      return Err(PublicKeyMismatch);
    }
    var i := 0;
    while i < |payload.blsEncPrivKeyShares|
      invariant i <= |payload.blsEncPrivKeyShares|
      invariant var keys := ParsePublicKeySet(lib, payload.blsPubKeySet).value;
                FindShare(lib, payload, keys, guardian, 0) == FindShare(lib, payload, keys, guardian, i)
    {
      var share := DecryptSkShare(lib, payload, i, guardian);
      OpensIffMatches(lib, payload, ParsePublicKeySet(lib, payload.blsPubKeySet).value, guardian, i);
      if share.Ok? {
        var keys := ParsePublicKeySet(lib, payload.blsPubKeySet).value;
        if HexEncode(lib.pkToBytes(PublicKeyShare(lib, keys, i)))
           == HexEncode(lib.pkToBytes(PointOf(lib, share.value)))
        {
          return Ok(share.value);
        }
      }
      i := i + 1;
    }
    return Err(NoShareForGuardian);
  }

  /** The share of the first entry from `i` on that opens. */
  function FindShare(lib: Lib, payload: BlsKeygenPayload, keys: PublicKeySet, guardian: EthSecretKey, i: nat)
    : Result<nat>
    requires lib.order > 0
    decreases |payload.blsEncPrivKeyShares| - i
  {
    if i >= |payload.blsEncPrivKeyShares| then Err(NoShareForGuardian)
    else if Opens(lib, payload, keys, guardian, i) then DecryptSkShare(lib, payload, i, guardian)
    else FindShare(lib, payload, keys, guardian, i + 1)
  }

  /** Entry `k` opens, and no entry between `i` and it. */
  ghost predicate FirstToOpen(lib: Lib, payload: BlsKeygenPayload, keys: PublicKeySet, guardian: EthSecretKey,
                              i: nat, k: nat)
    requires lib.order > 0
  {
    && i <= k < |payload.blsEncPrivKeyShares| && Opens(lib, payload, keys, guardian, k)
    && forall j: nat :: i <= j < k ==> !Opens(lib, payload, keys, guardian, j)
  }

  lemma {:induction false} SearchIsExact(lib: Lib, payload: BlsKeygenPayload, keys: PublicKeySet,
                                         guardian: EthSecretKey, i: nat) returns (k: nat)
    requires Lawful(lib)
    ensures var r := FindShare(lib, payload, keys, guardian, i);
            && (r.Ok? ==> FirstToOpen(lib, payload, keys, guardian, i, k)
                          && r.value < lib.order && PointOf(lib, r.value) == PublicKeyShare(lib, keys, k))
            && (r.Err? ==> r.error == NoShareForGuardian
                           && forall j: nat :: i <= j < |payload.blsEncPrivKeyShares| ==>
                                !Opens(lib, payload, keys, guardian, j))
    decreases |payload.blsEncPrivKeyShares| - i
  {
    hide DecryptSkShare, PublicKeyShare, PointOf, Opens, Lawful;
    OrderPositive(lib);
    k := i;
    if i < |payload.blsEncPrivKeyShares| {
      if Opens(lib, payload, keys, guardian, i) {
        OpenedShare(lib, payload, keys, guardian, i);
      } else {
        k := SearchIsExact(lib, payload, keys, guardian, i + 1);
      }
    }
  }

  /** Custody of an arbitrary payload, even a hostile one: a share is found exactly when the key set can be
      read, its group key is the claimed one, and some entry opens; it is the share of the first entry that
      opens, and it is the secret behind that entry's public share. */
  lemma CustodyIsExact(lib: Lib, payload: BlsKeygenPayload, guardian: EthSecretKey)
    requires Lawful(lib)
    ensures var r, keys, n := CustodyShare(lib, payload, guardian), ParsePublicKeySet(lib, payload.blsPubKeySet),
                              |payload.blsEncPrivKeyShares|;
            var claimed := keys.Ok? && PublicKeyHex(lib, PublicKey(lib, keys.value)) == Strip0x(payload.blsPubKey);
            && (r.Ok? <==> claimed && exists k: nat :: k < n && Opens(lib, payload, keys.value, guardian, k))
            && (r.Ok? ==> exists k: nat :: FirstToOpen(lib, payload, keys.value, guardian, 0, k)
                            && r.value < lib.order && PointOf(lib, r.value) == PublicKeyShare(lib, keys.value, k))
            && (r.Err? && keys.Ok? ==> r.error == if claimed then NoShareForGuardian else PublicKeyMismatch)
  {
    hide Opens, PublicKeyHex, PublicKey, PublicKeyShare, ParsePublicKeySet, FindShare, PointOf, Lawful;
    OrderPositive(lib);
    var keys := ParsePublicKeySet(lib, payload.blsPubKeySet);
    if keys.Ok? {
      var k := SearchIsExact(lib, payload, keys.value, guardian, 0);
    }
  }

  lemma OpenedShare(lib: Lib, payload: BlsKeygenPayload, keys: PublicKeySet, guardian: EthSecretKey, i: nat)
    requires Lawful(lib) && Opens(lib, payload, keys, guardian, i)
    ensures var share := DecryptSkShare(lib, payload, i, guardian);
            share.Ok? && share.value < lib.order && PointOf(lib, share.value) == PublicKeyShare(lib, keys, i)
  {
    OpensIffMatches(lib, payload, keys, guardian, i);
    DecryptedIsScalar(lib, payload, i, guardian);
    var share := DecryptSkShare(lib, payload, i, guardian).value;
    var x, y := PublicKeyShare(lib, keys, i), PointOf(lib, share);
    assert x < lib.order && y < lib.order;
    hide PublicKeyShare, PointOf, HexEncode, DecryptSkShare, Opens;
    HexEncodeInjective(lib.pkToBytes(x), lib.pkToBytes(y));
  }

  lemma DecryptedIsScalar(lib: Lib, payload: BlsKeygenPayload, i: nat, guardian: EthSecretKey)
    requires Lawful(lib) && DecryptSkShare(lib, payload, i, guardian).Ok?
    ensures DecryptSkShare(lib, payload, i, guardian).value < lib.order
  {
    hide HexDecode, Strip0x;
  }

  // ---------------------------------------------------------------- completeness

  /** What decrypting entry `i` of a produced payload gives. */
  lemma DecryptsOwnEntries(lib: Lib, poly: SecretKeySet, guardians: seq<EthPublicKey>, nonces: seq<nat>,
                           credentials: Bytes32, signedFor: Version, reported: Version, evidence: Evidence,
                           guardian: EthSecretKey, i: nat)
    requires Lawful(lib) && IsKeySet(lib, poly) && |nonces| == |guardians| && i < |guardians|
    ensures var p := PayloadFor(lib, poly, guardians, nonces, credentials, signedFor, reported, evidence);
            DecryptSkShare(lib, p, i, guardian)
            == if lib.ethPublicKey(guardian) == guardians[i] then Ok(SecretKeyShare(lib, poly, i)) else Err(Undecodable)
  {
    hide SignFullDeposit, PublicKeyHex, GuardianTexts, HexEncode, HexDecode;
    var share := SecretKeyShare(lib, poly, i);
    ReadsBack(lib.encrypt(guardians[i], lib.skToBytes(share), nonces[i]));
    assert lib.skFromBytes(lib.skToBytes(share)) == Some(share);
  }

  /** Which entries of a produced payload a guardian can open: exactly those made for its own key. */
  lemma OpensOwnEntries(lib: Lib, poly: SecretKeySet, guardians: seq<EthPublicKey>, nonces: seq<nat>,
                        credentials: Bytes32, signedFor: Version, reported: Version, evidence: Evidence,
                        guardian: EthSecretKey, i: nat)
    requires Lawful(lib) && IsKeySet(lib, poly) && |nonces| == |guardians| && i < |guardians|
    ensures var p := PayloadFor(lib, poly, guardians, nonces, credentials, signedFor, reported, evidence);
            && (Opens(lib, p, PublicKeys(lib, poly), guardian, i) <==> lib.ethPublicKey(guardian) == guardians[i])
            && (Opens(lib, p, PublicKeys(lib, poly), guardian, i) ==>
                  DecryptSkShare(lib, p, i, guardian) == Ok(SecretKeyShare(lib, poly, i)))
  {
    DecryptsOwnEntries(lib, poly, guardians, nonces, credentials, signedFor, reported, evidence, guardian, i);
    PublicShareIsPoint(lib, poly, i);
    OpensIffMatches(lib, PayloadFor(lib, poly, guardians, nonces, credentials, signedFor, reported, evidence),
                    PublicKeys(lib, poly), guardian, i);
    hide Opens, PayloadFor, DecryptSkShare, PublicKeyShare, SecretKeyShare, PublicKeys, PointOf, HexEncode, Lawful;
    hide IsKeySet;
  }

  /** Every listed guardian finds a share in a produced payload: the one at its first place in the list. */
  lemma CustodyIsComplete(lib: Lib, poly: SecretKeySet, guardians: seq<EthPublicKey>, nonces: seq<nat>,
                          credentials: Bytes32, signedFor: Version, reported: Version, evidence: Evidence,
                          guardian: EthSecretKey, first: nat)
    requires Lawful(lib) && IsKeySet(lib, poly) && |nonces| == |guardians|
    requires first < |guardians| && guardians[first] == lib.ethPublicKey(guardian)
    requires forall j :: 0 <= j < first ==> guardians[j] != lib.ethPublicKey(guardian)
    ensures var p := PayloadFor(lib, poly, guardians, nonces, credentials, signedFor, reported, evidence);
            CustodyShare(lib, p, guardian) == Ok(SecretKeyShare(lib, poly, first))
  {
    hide SignFullDeposit, GuardianTexts, HexEncode, HexDecode, DecryptSkShare, Opens, ParsePublicKeySet;
    var p := PayloadFor(lib, poly, guardians, nonces, credentials, signedFor, reported, evidence);
    PayloadReadsBack(lib, poly, guardians, nonces, credentials, signedFor, reported, evidence);
    forall j | 0 <= j <= first
      ensures Opens(lib, p, PublicKeys(lib, poly), guardian, j) <==> j == first
      ensures j == first ==> DecryptSkShare(lib, p, j, guardian) == Ok(SecretKeyShare(lib, poly, first))
    {
      OpensOwnEntries(lib, poly, guardians, nonces, credentials, signedFor, reported, evidence, guardian, j);
    }
    SkipTo(lib, p, PublicKeys(lib, poly), guardian, 0, first);
  }

  lemma {:induction false} SkipTo(lib: Lib, payload: BlsKeygenPayload, keys: PublicKeySet, guardian: EthSecretKey,
                                  i: nat, k: nat)
    requires lib.order > 0 && i <= k < |payload.blsEncPrivKeyShares|
    requires forall j :: i <= j < k ==> !Opens(lib, payload, keys, guardian, j)
    requires Opens(lib, payload, keys, guardian, k)
    ensures FindShare(lib, payload, keys, guardian, i) == DecryptSkShare(lib, payload, k, guardian)
    decreases k - i
  {
    hide Opens, DecryptSkShare;
    if i < k {
      SkipTo(lib, payload, keys, guardian, i + 1, k);
    }
  }

  /** A stranger to the list finds nothing. */
  lemma StrangerFindsNothing(lib: Lib, poly: SecretKeySet, guardians: seq<EthPublicKey>, nonces: seq<nat>,
                             credentials: Bytes32, signedFor: Version, reported: Version, evidence: Evidence,
                             guardian: EthSecretKey)
    requires Lawful(lib) && IsKeySet(lib, poly) && |nonces| == |guardians|
    requires lib.ethPublicKey(guardian) !in guardians
    ensures var p := PayloadFor(lib, poly, guardians, nonces, credentials, signedFor, reported, evidence);
            CustodyShare(lib, p, guardian) == Err(NoShareForGuardian)
  {
    hide SignFullDeposit, PublicKeyHex, GuardianTexts, HexEncode, HexDecode, DecryptSkShare, Opens, FindShare;
    hide ParsePublicKeySet;
    PayloadReadsBack(lib, poly, guardians, nonces, credentials, signedFor, reported, evidence);
    var p := PayloadFor(lib, poly, guardians, nonces, credentials, signedFor, reported, evidence);
    forall k | 0 <= k < |guardians| ensures !Opens(lib, p, PublicKeys(lib, poly), guardian, k) {
      OpensOwnEntries(lib, poly, guardians, nonces, credentials, signedFor, reported, evidence, guardian, k);
    }
    var none := SearchIsExact(lib, p, PublicKeys(lib, poly), guardian, 0);
  }

  // ---------------------------------------------------------------- the guardian enclave

  datatype CustodyRequest = CustodyRequest(payload: BlsKeygenPayload, guardianKeyName: string, verifySession: bool)

  class GuardianEnclave {
    const lib: Lib
    var ethKeys: map<string, EthSecretKey>
    var blsKeys: KeyFiles

    constructor (lib: Lib, ethKeys: map<string, EthSecretKey>)
      ensures this.lib == lib && this.ethKeys == ethKeys && blsKeys == map[]
    {
      this.lib, this.ethKeys, this.blsKeys := lib, ethKeys, map[];
    }

    /** What has to hold for a custody request to be accepted. */
    ghost predicate Acceptable(request: CustodyRequest, registry: Registry)
      requires lib.order > 0
      reads this`ethKeys
    {
      && request.guardianKeyName in ethKeys
      && (request.verifySession ==> SoundSession(lib, registry, request.payload))
      && SoundDeposit(lib, request.payload)
      && CustodyShare(lib, request.payload, ethKeys[request.guardianKeyName]).Ok?
    }

    /** Why a request is not accepted: the first check that fails, in the order key, session, deposit, custody. */
    ghost function FirstProblem(request: CustodyRequest, registry: Registry): Error
      requires lib.order > 0 && !Acceptable(request, registry)
      reads this`ethKeys
    {
      SessionCheckIsExact(lib, registry, request.payload);
      DepositCheckIsExact(lib, request.payload);
      if request.guardianKeyName !in ethKeys then NoSuchFile
      else if request.verifySession && !SoundSession(lib, registry, request.payload)
      then VerifySessionEvidence(lib, registry, request.payload).error
      else if !SoundDeposit(lib, request.payload) then VerifyDepositMessage(lib, request.payload).error
      else CustodyShare(lib, request.payload, ethKeys[request.guardianKeyName]).error
    }

    /** Verifies session, deposit and custody in this order, stores the share, then approves.  The outcome of
        the approving signature comes from outside; if it fails, the share is stored all the same. */
    method VerifyAndSignCustodyReceived(request: CustodyRequest, registry: Registry, approval: Result<string>)
      returns (r: Result<string>)
      requires lib.order > 0
      modifies this`blsKeys
      ensures Acceptable(request, registry) ==>
                r == approval && blsKeys == StoreShareIn(lib, old(blsKeys),
                CustodyShare(lib, request.payload, ethKeys[request.guardianKeyName]).value)
      ensures !Acceptable(request, registry) ==>
                r == Err(FirstProblem(request, registry)) && blsKeys == old(blsKeys)
    {
      hide VerifySessionEvidence, VerifyDepositMessage, CustodyShare, HexEncode, PublicKeyHex, SoundSession;
      hide SoundDeposit;
      SessionCheckIsExact(lib, registry, request.payload);
      DepositCheckIsExact(lib, request.payload);
      if request.guardianKeyName !in ethKeys {
        return Err(NoSuchFile);
      }
      var guardian := ethKeys[request.guardianKeyName];
      if request.verifySession {
        var session := VerifySessionEvidence(lib, registry, request.payload);
        if session.Err? {
          return Err(session.error);
        }
      }
      var deposit := VerifyDepositMessage(lib, request.payload);
      if deposit.Err? {
        return Err(deposit.error);
      }
      var share := VerifyCustody(lib, request.payload, guardian);
      if share.Err? {
        return Err(share.error);
      }
      blsKeys := WriteKey(blsKeys, PublicKeyHex(lib, PointOf(lib, share.value)), HexEncode(lib.skToBytes(share.value)));
      r := approval;
    }
  }

  /** A guardian on the list accepts what the validator enclave produced: with its session checked, if the
      registry accepts the agent's evidence for the attested bytes. */
  lemma ListedGuardianAccepts(guardian: GuardianEnclave, registry: Registry, name: string, poly: SecretKeySet,
                              guardians: seq<EthPublicKey>, nonces: seq<nat>, credentials: Bytes32, fork: Version,
                              evidence: Evidence)
    requires var lib := guardian.lib;
             && Lawful(lib) && IsKeySet(lib, poly) && |nonces| == |guardians|
             && name in guardian.ethKeys && lib.ethPublicKey(guardian.ethKeys[name]) in guardians
    ensures var lib := guardian.lib;
            var p := PayloadFor(lib, poly, guardians, nonces, credentials, fork, fork, evidence);
            var attested := AttestedPayload(lib, poly, guardians, nonces, credentials, fork);
            && guardian.Acceptable(CustodyRequest(p, name, false), registry)
            && attested.Ok?
            && (guardian.Acceptable(CustodyRequest(p, name, true), registry)
                <==> HasEvidence(evidence) && registry(lib.keccak(attested.value), evidence).Ok?)
  {
    var lib := guardian.lib;
    var first := FirstPlace(guardians, lib.ethPublicKey(guardian.ethKeys[name]));
    EnclaveDepositPasses(lib, poly, guardians, nonces, credentials, fork, evidence);
    CustodyIsComplete(lib, poly, guardians, nonces, credentials, fork, fork, evidence, guardian.ethKeys[name], first);
    AttestedSessionIsVerified(lib, registry, poly, guardians, nonces, credentials, fork, evidence);
    var p := PayloadFor(lib, poly, guardians, nonces, credentials, fork, fork, evidence);
    SessionCheckIsExact(lib, registry, p);
    DepositCheckIsExact(lib, p);
    hide VerifySessionEvidence, VerifyDepositMessage, CustodyShare, PayloadFor, AttestedPayload, Lawful, IsKeySet;
    hide SoundSession, SoundDeposit;
  }

  lemma {:induction false} FirstPlace(guardians: seq<EthPublicKey>, key: EthPublicKey) returns (first: nat)
    requires key in guardians
    ensures first < |guardians| && guardians[first] == key && key !in guardians[..first]
    decreases |guardians|
  {
    if guardians[0] == key {
      first := 0;
    } else {
      assert guardians == [guardians[0]] + guardians[1..];
      var rest := FirstPlace(guardians[1..], key);
      first := rest + 1;
      assert guardians[..first] == [guardians[0]] + guardians[1..][..rest];
    }
  }
}
