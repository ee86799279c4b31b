/** Key generation for a validator: the key is shared among the guardians, each share is encrypted to its
    guardian, and everything is published in one payload of hexadecimal text. */
module KeygenPayload {
  import opened Wrappers
  import opened Bytes
  import opened Ssz
  import opened SigningMessages
  import opened SigningRoots
  import RootLayouts
  import opened SlashingProtection
  import opened Library
  import opened Threshold
  import opened RemoteAttestation

  datatype BlsKeygenPayload = BlsKeygenPayload(
    blsPubKeySet: string,
    blsPubKey: string,
    signature: string,
    depositDataRoot: string,
    blsEncPrivKeyShares: seq<string>,
    sessionId: string,
    attestationSignature: string,
    sessionPublicKey: string,
    guardianEthPubKeys: seq<string>,
    withdrawalCredentials: string,
    forkVersion: Version)

  /** What the attestation agent returns. */
  datatype Evidence = Evidence(sessionId: string, signature: string, sessionPublicKey: string)

  // ---------------------------------------------------------------- the deposit

  function DepositMessageFor(lib: Lib, keys: PublicKeySet, withdrawalCredentials: Bytes32): DepositMessage
    requires lib.order > 0
  {
    DepositMessage(lib.pkToBytes(PublicKey(lib, keys)), withdrawalCredentials, FULL_DEPOSIT_AMOUNT)
  }

  function DepositSigningRoot(lib: Lib, keys: PublicKeySet, withdrawalCredentials: Bytes32, fork: Version): Root
    requires lib.order > 0
  {
    ComputeSigningRoot(lib.hash, DepositMessageFor(lib, keys, withdrawalCredentials).ToTree(),
                       DomainFor(lib.hash, DOMAIN_DEPOSIT, Some(fork), None))
  }

  function DepositDataRootFor(lib: Lib, keys: PublicKeySet, withdrawalCredentials: Bytes32, signature: Bytes96): Root
    requires lib.order > 0
  {
    var m := DepositMessageFor(lib, keys, withdrawalCredentials);
    HashTreeRoot(lib.hash, DepositData(m.pubkey, m.withdrawalCredentials, m.amount, signature).ToTree())
  }

  datatype SignedDeposit = SignedDeposit(signature: Bytes96, dataRoot: Root)

  function SignFullDeposit(lib: Lib, poly: SecretKeySet, withdrawalCredentials: Bytes32, fork: Version): SignedDeposit
    requires lib.order > 0
  {
    var root := DepositSigningRoot(lib, PublicKeys(lib, poly), withdrawalCredentials, fork);
    var signature := lib.sigToBytes(Sign(lib, SecretKey(lib, poly), root));
    SignedDeposit(signature, DepositDataRootFor(lib, PublicKeys(lib, poly), withdrawalCredentials, signature))
  }

  // ---------------------------------------------------------------- encrypting the shares

  datatype EncryptedRecipientKeys =
    EncryptedRecipientKeys(guardianPublicKey: EthPublicKey, publicKeyShare: nat, encryptedSecretKeyShareHex: string)

  /** One share for one guardian; `nonce` is the randomness of the encryption. */
  function EncryptToRecipient(lib: Lib, guardian: EthPublicKey, share: nat, publicShare: nat, nonce: nat)
    : EncryptedRecipientKeys
  {
    EncryptedRecipientKeys(guardian, publicShare, HexEncode(lib.encrypt(guardian, lib.skToBytes(share), nonce)))
  }

  /** Entry `i` goes to guardian `i` and holds share `i`. */
  function RecipientKeys(lib: Lib, poly: SecretKeySet, guardians: seq<EthPublicKey>, nonces: seq<nat>)
    : (keys: seq<EncryptedRecipientKeys>)
    requires lib.order > 0 && |nonces| == |guardians|
    ensures |keys| == |guardians|
  {
    seq(|guardians|, i requires 0 <= i < |guardians| =>
      EncryptToRecipient(lib, guardians[i], SecretKeyShare(lib, poly, i), PublicKeyShare(lib, PublicKeys(lib, poly), i),
                         nonces[i]))
  }

  function EncryptedShares(keys: seq<EncryptedRecipientKeys>): (texts: seq<string>)
    ensures |texts| == |keys|
  {
    seq(|keys|, i requires 0 <= i < |keys| => keys[i].encryptedSecretKeyShareHex)
  }

  function EthPkToHexUncompressed(lib: Lib, pk: EthPublicKey): string {
    Strip0x(HexEncode(lib.ethPkToBytes(pk)))
  }

  function GuardianTexts(lib: Lib, guardians: seq<EthPublicKey>): (texts: seq<string>)
    ensures |texts| == |guardians|
  {
    seq(|guardians|, i requires 0 <= i < |guardians| => EthPkToHexUncompressed(lib, guardians[i]))
  }

  // ---------------------------------------------------------------- the two producers

  function PayloadFor(lib: Lib, poly: SecretKeySet, guardians: seq<EthPublicKey>, nonces: seq<nat>,
                      withdrawalCredentials: Bytes32, signedFor: Version, reported: Version, evidence: Evidence)
    : BlsKeygenPayload
    requires lib.order > 0 && |nonces| == |guardians|
  {
    var deposit := SignFullDeposit(lib, poly, withdrawalCredentials, signedFor);
    BlsKeygenPayload(
      HexEncode(lib.pkSetToBytes(PublicKeys(lib, poly))),
      PublicKeyHex(lib, PublicKey(lib, PublicKeys(lib, poly))),
      HexEncode(deposit.signature),
      HexEncode(deposit.dataRoot),
      EncryptedShares(RecipientKeys(lib, poly, guardians, nonces)),
      evidence.sessionId, evidence.signature, evidence.sessionPublicKey,
      GuardianTexts(lib, guardians),
      HexEncode(withdrawalCredentials),
      reported)
  }

  /** What a payload says about the deposit: its signature is one number, which verifies under the group key on the
      deposit of 32 ETH by that key with the given credentials, for the version it was signed for; and its data root
      is that of the same deposit with this signature. */
  lemma PayloadDeposit(lib: Lib, poly: SecretKeySet, guardians: seq<EthPublicKey>, nonces: seq<nat>,
                       credentials: Bytes32, signedFor: Version, reported: Version, evidence: Evidence)
    returns (signature: nat)
    requires GroupLaws(lib) && IsKeySet(lib, poly) && |nonces| == |guardians|
    ensures var p := PayloadFor(lib, poly, guardians, nonces, credentials, signedFor, reported, evidence);
            var point := PublicKey(lib, PublicKeys(lib, poly));
            var key, bytes := lib.pkToBytes(point), lib.sigToBytes(signature);
            && HexDecode(p.blsPubKey) == Ok(key) && HexDecode(p.withdrawalCredentials) == Ok(credentials)
            && signature < lib.order && HexDecode(p.signature) == Ok(bytes)
            && Verify(lib, point, signature,
                      RootLayouts.DepositToSign(lib.hash, key, credentials, 32_000_000_000, signedFor))
            && HexDecode(p.depositDataRoot)
               == Ok(RootLayouts.DepositToSend(lib.hash, key, credentials, 32_000_000_000, bytes))
            && p.forkVersion == reported
  {
    var point := PublicKey(lib, PublicKeys(lib, poly));
    var deposit, root := SignFullDeposit(lib, poly, credentials, signedFor),
                         DepositSigningRoot(lib, PublicKeys(lib, poly), credentials, signedFor);
    signature := Sign(lib, SecretKey(lib, poly), root);
    GroupSignatureVerifies(lib, poly, root);
    DepositRoots(lib, PublicKeys(lib, poly), credentials, signedFor, deposit.signature);
    HexRoundTrip(lib.pkToBytes(point));
    HexRoundTrip(credentials);
    HexRoundTrip(deposit.signature);
    HexRoundTrip(deposit.dataRoot);
    hide HexEncode, HexDecode, DepositSigningRoot, DepositDataRootFor, PublicKey, PublicKeys, Verify, SecretKey;
    hide EncryptedShares, RecipientKeys, GuardianTexts, IsKeySet, GroupLaws, RootLayouts.DepositToSign;
    hide RootLayouts.DepositToSend;
  }

  /** The deposit roots of a key set, hash by hash. */
  lemma DepositRoots(lib: Lib, keys: PublicKeySet, credentials: Bytes32, fork: Version, signature: Bytes96)
    requires lib.order > 0
    ensures var key := lib.pkToBytes(PublicKey(lib, keys));
            && DepositSigningRoot(lib, keys, credentials, fork)
               == RootLayouts.DepositToSign(lib.hash, key, credentials, 32_000_000_000, fork)
            && DepositDataRootFor(lib, keys, credentials, signature)
               == RootLayouts.DepositToSend(lib.hash, key, credentials, 32_000_000_000, signature)
  {
    var m := DepositMessageFor(lib, keys, credentials);
    RootLayouts.DepositContentRoot(lib.hash, m, fork);
    RootLayouts.DepositDataRoot(lib.hash, DepositData(m.pubkey, m.withdrawalCredentials, m.amount, signature));
    hide ComputeSigningRoot, DomainFor, DepositMessage.ToTree, DepositData.ToTree, HashTreeRoot, PublicKey;
    hide RootLayouts.DepositToSign, RootLayouts.DepositToSend;
  }

  /** Shards the key and encrypts one share after the other to the guardians. */
  method EncryptShares(lib: Lib, poly: SecretKeySet, guardians: seq<EthPublicKey>, nonces: seq<nat>)
    returns (recipientKeys: seq<EncryptedRecipientKeys>)
    requires lib.order > 0 && |nonces| == |guardians|
    ensures recipientKeys == RecipientKeys(lib, poly, guardians, nonces)
  {
    var keyShares := DistributeKeyShares(lib, poly, |guardians|);
    recipientKeys := [];
    for i := 0 to |guardians|
      invariant recipientKeys == RecipientKeys(lib, poly, guardians, nonces)[..i]
    {
      var (share, publicShare) := keyShares[i];
      recipientKeys := recipientKeys + [EncryptToRecipient(lib, guardians[i], share, publicShare, nonces[i])];
    }
  }

  /** Entry `i` names guardian `i` and the public key of its share, and holds the share for whoever has the guardian's
      secret key. */
  lemma RecipientEntry(lib: Lib, poly: SecretKeySet, guardians: seq<EthPublicKey>, nonces: seq<nat>, i: nat,
                       guardian: EthSecretKey)
    requires Lawful(lib) && |nonces| == |guardians| && i < |guardians|
    ensures var e, share := RecipientKeys(lib, poly, guardians, nonces)[i], SecretKeyShare(lib, poly, i);
            && e.guardianPublicKey == guardians[i] && e.publicKeyShare == PointOf(lib, share)
            && HexDecode(e.encryptedSecretKeyShareHex).Ok?
            && lib.decrypt(guardian, HexDecode(e.encryptedSecretKeyShareHex).value)
               == if lib.ethPublicKey(guardian) == guardians[i] then Some(lib.skToBytes(share)) else None
  {
    PublicShareIsPoint(lib, poly, i);
    HexRoundTrip(lib.encrypt(guardians[i], lib.skToBytes(SecretKeyShare(lib, poly, i)), nonces[i]));
    hide HexEncode, HexDecode, PublicKeyShare, PointOf, PublicKeys, SecretKeyShare;
  }

  /** The texts of the guardians' keys, in the order of the encrypted shares. */
  lemma TextsOfRecipients(lib: Lib, poly: SecretKeySet, guardians: seq<EthPublicKey>, nonces: seq<nat>)
    requires lib.order > 0 && |nonces| == |guardians|
    ensures GuardiansOf(RecipientKeys(lib, poly, guardians, nonces)) == guardians
  {
  }

  function GuardiansOf(keys: seq<EncryptedRecipientKeys>): (guardians: seq<EthPublicKey>)
    ensures |guardians| == |keys|
  {
    seq(|keys|, i requires 0 <= i < |keys| => keys[i].guardianPublicKey)
  }

  /** What the validator asks the agent to attest: the digest of the generated key. */
  function AttestedPayload(lib: Lib, poly: SecretKeySet, guardians: seq<EthPublicKey>, nonces: seq<nat>,
                           withdrawalCredentials: Bytes32, fork: Version): Result<seq<byte>>
    requires lib.order > 0 && poly != [] && |nonces| == |guardians|
  {
    var deposit := SignFullDeposit(lib, poly, withdrawalCredentials, fork);
    PaddedDigest(lib, PublicKeys(lib, poly), deposit.signature, deposit.dataRoot,
                 EncryptedShares(RecipientKeys(lib, poly, guardians, nonces)), guardians)
  }

  /** The files of the validator enclave. */
  class ValidatorEnclave {
    const lib: Lib
    var keys: KeyFiles
    var slashing: Files

    constructor (lib: Lib)
      ensures this.lib == lib && keys == map[] && slashing == map[]
    {
      this.lib, keys, slashing := lib, map[], map[];
    }

    /** Generates, shares, stores and publishes a key.  The fresh polynomial and the encryption randomness come
        from outside; the polynomial has `threshold` coefficients, so that `threshold` shares are needed.
        `attest` is the agent, or the default evidence when no attestation is wanted.  The key and its
        database are on file even if the agent fails. */
    method AttestFreshBlsKey(withdrawalCredentials: Bytes32, guardians: seq<EthPublicKey>, threshold: nat,
                             forkVersion: Version, poly: SecretKeySet, nonces: seq<nat>,
                             attest: seq<byte> -> Result<Evidence>)
      returns (r: Result<BlsKeygenPayload>)
      requires lib.order > 0 && threshold >= 1 && |poly| == threshold && |nonces| == |guardians|
      modifies this`keys, this`slashing
      ensures r == match AttestedPayload(lib, poly, guardians, nonces, withdrawalCredentials, forkVersion)
                   case Err(e) => Err(e)
                   case Ok(attested) =>
                     match attest(attested)
                     case Err(e) => Err(e)
                     case Ok(evidence) =>
                       Ok(PayloadFor(lib, poly, guardians, nonces, withdrawalCredentials, forkVersion, forkVersion,
                                     evidence))
      ensures var name := PublicKeyHex(lib, PublicKey(lib, PublicKeys(lib, poly)));
              && keys == old(keys)[name := HexEncode(lib.skSetToBytes(poly))]
              && slashing == old(slashing)[name := Data(lib.pkToBytes(PublicKey(lib, PublicKeys(lib, poly))), [], [])]
    {
      hide SignFullDeposit, PublicKeyHex, EncryptedShares, GuardianTexts, RecipientKeys, HexEncode, PublicKey;
      hide PaddedDigest;
      var recipientKeys := EncryptShares(lib, poly, guardians, nonces);
      TextsOfRecipients(lib, poly, guardians, nonces);
      var publicKey := PublicKey(lib, PublicKeys(lib, poly));
      var name := PublicKeyHex(lib, publicKey);
      keys := WriteKey(keys, name, HexEncode(lib.skSetToBytes(poly)));
      StripHexEncode(lib.skSetToBytes(poly));
      FreshDatabase(lib, publicKey);
      slashing := WriteData(slashing, FromPkHex(name).value);
      var deposit := SignFullDeposit(lib, poly, withdrawalCredentials, forkVersion);
      var attested :- BuildValidatorRemoteAttestationPayload(
        lib, PublicKeys(lib, poly), deposit.signature, deposit.dataRoot, EncryptedShares(recipientKeys),
        GuardiansOf(recipientKeys));
      var evidence :- attest(attested);
      return Ok(BlsKeygenPayload(
        HexEncode(lib.pkSetToBytes(PublicKeys(lib, poly))), name, HexEncode(deposit.signature),
        HexEncode(deposit.dataRoot), EncryptedShares(recipientKeys),
        evidence.sessionId, evidence.signature, evidence.sessionPublicKey,
        GuardianTexts(lib, GuardiansOf(recipientKeys)), HexEncode(withdrawalCredentials), forkVersion));
    }
  }

  /** The database made from a key's text is for that key and lies under that text. */
  lemma FreshDatabase(lib: Lib, publicKey: nat)
    ensures var d := FromPkHex(PublicKeyHex(lib, publicKey));
            && d == Ok(Data(lib.pkToBytes(publicKey), [], []))
            && FileName(d.value) == PublicKeyHex(lib, publicKey)
  {
    HexRoundTrip(lib.pkToBytes(publicKey));
    assert Resize(lib.pkToBytes(publicKey), 48) == lib.pkToBytes(publicKey);
  }

  /** The client-side producer: it signs the deposit for the requested version, but always reports the genesis
      version, and it carries no session evidence.  The encrypted keystore it also writes is not modelled. */
  method GenerateBlsKeystore(lib: Lib, withdrawalCredentials: Bytes32, guardians: seq<EthPublicKey>, threshold: nat,
                             forkVersion: Version, poly: SecretKeySet, nonces: seq<nat>)
    returns (payload: BlsKeygenPayload)
    requires lib.order > 0 && threshold >= 1 && |poly| == threshold && |nonces| == |guardians|
    ensures payload == PayloadFor(lib, poly, guardians, nonces, withdrawalCredentials, forkVersion,
                                  GENESIS_FORK_VERSION, Evidence("", "", ""))
  {
    hide SignFullDeposit, PublicKeyHex, EncryptedShares, GuardianTexts, RecipientKeys, HexEncode;
    var recipientKeys := EncryptShares(lib, poly, guardians, nonces);
    TextsOfRecipients(lib, poly, guardians, nonces);
    var deposit := SignFullDeposit(lib, poly, withdrawalCredentials, forkVersion);
    payload := BlsKeygenPayload(
      HexEncode(lib.pkSetToBytes(PublicKeys(lib, poly))), PublicKeyHex(lib, PublicKey(lib, PublicKeys(lib, poly))),
      HexEncode(deposit.signature), HexEncode(deposit.dataRoot), EncryptedShares(recipientKeys), "", "", "",
      GuardianTexts(lib, GuardiansOf(recipientKeys)), HexEncode(withdrawalCredentials), GENESIS_FORK_VERSION);
  }
}
