/** Voluntary exits: a guardian signs the epoch-0 exit with the share it keeps, and the shares of enough
    guardians add up to the validator's own signature. */
module ExitProtocol {
  import opened Wrappers
  import opened Bytes
  import opened Ssz
  import opened SigningMessages
  import opened SigningRoots
  import RootLayouts
  import opened SlashingProtection
  import opened Library
  import opened Threshold
  import opened KeygenPayload
  import opened Custody
  import opened Signer
  import opened SignerRuns

  datatype SignExitRequest =
    SignExitRequest(blsPubKeySet: string, guardianIndex: uint64, validatorIndex: uint64, forkInfo: ForkInfo)

  datatype SignExitResponse = SignExitResponse(signature: string, message: string)

  function SignVem(lib: Lib, secret: nat, epoch: Epoch, validatorIndex: uint64, forkInfo: ForkInfo): (Bytes96, Root)
    requires lib.order > 0
  {
    var request := VoluntaryExitRequest(forkInfo, VoluntaryExit(epoch, validatorIndex));
    var root := ToSigningRoot(lib.hash, VoluntaryExitMsg(request), None);
    (lib.sigToBytes(Sign(lib, secret, root)), root)
  }

  /** Looks the share up under the text of its public key and signs an exit for epoch 0 with it. */
  function SignVoluntaryExitMessage(lib: Lib, files: KeyFiles, request: SignExitRequest): Result<SignExitResponse>
    requires lib.order > 0
  {
    var keys :- ParsePublicKeySet(lib, request.blsPubKeySet);
    var name := PublicKeyHex(lib, PublicKeyShare(lib, keys, request.guardianIndex));
    var poly :- FetchBlsSk(lib, files, name);
    var (signature, root) := SignVem(lib, SecretKey(lib, poly), 0, request.validatorIndex, request.forkInfo);
    Ok(SignExitResponse(HexEncode(signature), HexEncode(root)))
  }

  /** What an exit share has to sign: the exit of this validator at epoch 0 under the exit domain of the fork
      in force at epoch 0. */
  function ExitRoot(h: Hash, validatorIndex: uint64, forkInfo: ForkInfo): Root {
    var fork := forkInfo.fork;
    var version := if fork.epoch > 0 then fork.previousVersion else fork.currentVersion;
    h(h(UintChunk(0), UintChunk(validatorIndex)),
      RootLayouts.DomainOf(h, [4, 0, 0, 0], version, forkInfo.genesisValidatorsRoot))
  }

  lemma ExitRequestRoot(h: Hash, validatorIndex: uint64, forkInfo: ForkInfo, genesis: Option<Version>)
    ensures var request := VoluntaryExitRequest(forkInfo, VoluntaryExit(0, validatorIndex));
            ToSigningRoot(h, VoluntaryExitMsg(request), genesis) == ExitRoot(h, validatorIndex, forkInfo)
  {
    hide ToSigningRoot, UintChunk;
    RootLayouts.ExitSigningRoot(h, VoluntaryExitRequest(forkInfo, VoluntaryExit(0, validatorIndex)), genesis);
  }

  lemma SignVemSignsExitRoot(lib: Lib, secret: nat, validatorIndex: uint64, forkInfo: ForkInfo)
    requires lib.order > 0
    ensures var root := ExitRoot(lib.hash, validatorIndex, forkInfo);
            SignVem(lib, secret, 0, validatorIndex, forkInfo) == (lib.sigToBytes(Sign(lib, secret, root)), root)
  {
    hide ToSigningRoot, ExitRoot, Sign;
    ExitRequestRoot(lib.hash, validatorIndex, forkInfo, None);
  }

  /** The text of a signature, read back. */
  function DecodeSignature(lib: Lib, text: string): Result<nat> {
    var bytes :- HexDecode(text);
    if |bytes| != 96 then Err(BadLength) else
      match lib.sigFromBytes(bytes)
      case Some(signature) => Ok(signature)
      case None => Err(Undecodable)
  }

  // ---------------------------------------------------------------- every stored key is its file's own

  /** The file of this name holds a secret whose public key's text is the name. */
  predicate NamesItsKey(lib: Lib, files: KeyFiles, name: string)
    requires lib.order > 0
  {
    var poly := FetchBlsSk(lib, files, name);
    poly.Ok? && PublicKeyHex(lib, PublicKey(lib, PublicKeys(lib, poly.value))) == name
  }

  ghost predicate KeysFramed(lib: Lib, files: KeyFiles)
    requires lib.order > 0
  {
    forall name :: name in files ==> NamesItsKey(lib, files, name)
  }

  /** Another name's file is not touched by a write. */
  lemma WriteFramed(lib: Lib, files: KeyFiles, poly: SecretKeySet, bytes: seq<byte>)
    requires lib.order > 0 && KeysFramed(lib, files)
    requires lib.skSetFromBytes(bytes) == Some(poly)
    ensures var name := PublicKeyHex(lib, PublicKey(lib, PublicKeys(lib, poly)));
            KeysFramed(lib, WriteKey(files, name, HexEncode(bytes)))
  {
    hide PublicKeyHex, HexEncode, HexDecode, PublicKey;
    var written := PublicKeyHex(lib, PublicKey(lib, PublicKeys(lib, poly)));
    var files' := WriteKey(files, written, HexEncode(bytes));
    StripHexEncode(bytes);
    HexRoundTrip(bytes);
    forall name | name in files' ensures NamesItsKey(lib, files', name) {
      if name != written {
        assert NamesItsKey(lib, files, name);
        assert Strip0x(name) == name;
      }
    }
  }

  lemma ShareIsItsOwnKeySet(lib: Lib, share: nat)
    requires Lawful(lib) && share < lib.order
    ensures lib.skSetFromBytes(lib.skToBytes(share)) == Some([share])
    ensures PublicKey(lib, PublicKeys(lib, [share])) == PointOf(lib, share)
  {
    PublicShareIsPoint(lib, [share], 0);
    assert Polynomials.Eval([share], 0) == share;
    PrimeField.Remainder(share, lib.order, 0, share);
  }

  /** Every step of the service leaves each stored key under its own name, and removes none. */
  lemma StepKeepsKeys(cfg: Config, s: State, e: Event)
    requires Lawful(cfg.lib) && KeysFramed(cfg.lib, s.keys)
    ensures KeysFramed(cfg.lib, Apply(cfg, s, e).keys)
    ensures s.keys.Keys <= Apply(cfg, s, e).keys.Keys
  {
    hide KeysFramed, CheckDb, UpdateDb, SanitizeBlsPkHex, ToSigningRoot, SignWithSavedSk, PublicKeyHex, StoredEntry;
    hide CanBeSlashed, HexEncode, PublicKey;
    match e
    case GenerateKey(poly) =>
      if FreshKey(cfg, s, poly) {
        WriteFramed(cfg.lib, s.keys, poly, cfg.lib.skSetToBytes(poly));
      }
    case StoreShare(share) =>
      if IsScalar(cfg.lib, share) {
        ShareIsItsOwnKeySet(cfg.lib, share);
        WriteFramed(cfg.lib, s.keys, [share], cfg.lib.skToBytes(share));
      }
    case _ =>
  }

  lemma {:induction false} RunKeepsKeys(cfg: Config, s: State, events: seq<Event>)
    requires Lawful(cfg.lib) && KeysFramed(cfg.lib, s.keys)
    ensures KeysFramed(cfg.lib, Run(cfg, s, events).keys)
    ensures s.keys.Keys <= Run(cfg, s, events).keys.Keys
  {
    assert cfg.lib.order > 0;
    hide Apply, KeysFramed, Lawful;
    if events != [] {
      var n := |events| - 1;
      RunKeepsKeys(cfg, s, events[..n]);
      StepKeepsKeys(cfg, Run(cfg, s, events[..n]), events[n]);
    }
  }

  // ---------------------------------------------------------------- exits

  /** In such a store an exit request is served exactly when the key set can be read and the asked share is
      stored; the answer is a signature on the exit root that verifies under the public share. */
  lemma ExitIsExact(lib: Lib, files: KeyFiles, request: SignExitRequest)
    requires Lawful(lib) && KeysFramed(lib, files)
    ensures var r, keys := SignVoluntaryExitMessage(lib, files, request), ParsePublicKeySet(lib, request.blsPubKeySet);
            var root := ExitRoot(lib.hash, request.validatorIndex, request.forkInfo);
            && (r.Ok? <==>
                  keys.Ok? && PublicKeyHex(lib, PublicKeyShare(lib, keys.value, request.guardianIndex)) in files)
            && (r.Err? && keys.Ok? ==> r.error == NoSuchFile)
            && (r.Ok? ==>
                  var signature := DecodeSignature(lib, r.value.signature);
                  && signature.Ok? && signature.value < lib.order
                  && Verify(lib, PublicKeyShare(lib, keys.value, request.guardianIndex), signature.value, root)
                  && HexDecode(r.value.message) == Ok(root))
  {
    var keys := ParsePublicKeySet(lib, request.blsPubKeySet);
    if keys.Ok? {
      var point := PublicKeyShare(lib, keys.value, request.guardianIndex);
      var root := ExitRoot(lib.hash, request.validatorIndex, request.forkInfo);
      assert point < lib.order;
      hide ExitRoot, SignVem, HexEncode, HexDecode, ParsePublicKeySet, PublicKeyHex, FetchBlsSk, DecodeSignature;
      hide Sign, Verify, KeysFramed, SecretKey, PointOf, PublicKeyShare, Lawful;
      if PublicKeyHex(lib, point) in files {
        var secret := StoredSecret(lib, files, point);
        SignVemSignsExitRoot(lib, secret, request.validatorIndex, request.forkInfo);
        SecretAnswer(lib, secret, root);
      } else {
        MissingKey(lib, files, PublicKeyHex(lib, point));
      }
    }
  }

  lemma SecretAnswer(lib: Lib, secret: nat, root: Root)
    requires Lawful(lib)
    ensures Sign(lib, secret, root) < lib.order
    ensures DecodeSignature(lib, HexEncode(lib.sigToBytes(Sign(lib, secret, root)))) == Ok(Sign(lib, secret, root))
    ensures Verify(lib, PointOf(lib, secret), Sign(lib, secret, root), root)
    ensures HexDecode(HexEncode(root)) == Ok(root)
  {
    var signature := Sign(lib, secret, root);
    VerifiesIff(lib, secret, signature, root);
    HexRoundTrip(root);
    assert signature < lib.order;
    SignatureReadsBack(lib, signature);
  }

  lemma SignatureReadsBack(lib: Lib, signature: nat)
    requires Lawful(lib) && signature < lib.order
    ensures DecodeSignature(lib, HexEncode(lib.sigToBytes(signature))) == Ok(signature)
  {
    hide HexEncode, HexDecode;
    HexRoundTrip(lib.sigToBytes(signature));
  }

  lemma MissingKey(lib: Lib, files: KeyFiles, name: string)
    requires name !in files && Strip0x(name) == name
    ensures FetchBlsSk(lib, files, name).Err?
  {
  }

  /** The secret stored under the text of a point is the secret of that point. */
  lemma StoredSecret(lib: Lib, files: KeyFiles, point: nat) returns (secret: nat)
    requires Lawful(lib) && KeysFramed(lib, files) && point < lib.order
    requires PublicKeyHex(lib, point) in files
    ensures FetchBlsSk(lib, files, PublicKeyHex(lib, point)).Ok?
    ensures secret == SecretKey(lib, FetchBlsSk(lib, files, PublicKeyHex(lib, point)).value)
    ensures PointOf(lib, secret) == point
  {
    var name := PublicKeyHex(lib, point);
    assert NamesItsKey(lib, files, name);
    var poly := FetchBlsSk(lib, files, name).value;
    secret := SecretKey(lib, poly);
    PublicShareIsPoint(lib, poly, 0);
    SameTextSamePoint(lib, PointOf(lib, secret), point);
  }

  lemma SameTextSamePoint(lib: Lib, a: nat, b: nat)
    requires Lawful(lib) && a < lib.order && b < lib.order && PublicKeyHex(lib, a) == PublicKeyHex(lib, b)
    ensures a == b
  {
    HexEncodeInjective(lib.pkToBytes(a), lib.pkToBytes(b));
  }

  /** A guardian's enclave: what it starts with, and what happens to it before and after it receives custody. */
  datatype Guardian =
    Guardian(secret: EthSecretKey, files: Files, keys: KeyFiles, before: seq<Event>, after: seq<Event>)

  /** The keys it holds in the end, if custody of the payload was accepted in between. */
  function KeysInTheEnd(cfg: Config, g: Guardian, payload: BlsKeygenPayload): KeyFiles
    requires cfg.lib.order > 0
    requires CustodyShare(cfg.lib, payload, g.secret).Ok?
  {
    var received := Apply(cfg, Run(cfg, Start(g.files, g.keys), g.before),
                          StoreShare(CustodyShare(cfg.lib, payload, g.secret).value));
    Run(cfg, received, g.after).keys
  }

  lemma SharesStayStored(cfg: Config, g: Guardian, payload: BlsKeygenPayload)
    requires Lawful(cfg.lib) && KeysFramed(cfg.lib, g.keys)
    requires CustodyShare(cfg.lib, payload, g.secret).Ok?
    requires CustodyShare(cfg.lib, payload, g.secret).value < cfg.lib.order
    ensures var files := KeysInTheEnd(cfg, g, payload);
            && KeysFramed(cfg.lib, files)
            && PublicKeyHex(cfg.lib, PointOf(cfg.lib, CustodyShare(cfg.lib, payload, g.secret).value)) in files
  {
    assert cfg.lib.order > 0;
    hide Run, Apply, KeysFramed, PublicKeyHex, CustodyShare, Lawful, PointOf;
    var share := CustodyShare(cfg.lib, payload, g.secret).value;
    var s := Run(cfg, Start(g.files, g.keys), g.before);
    RunKeepsKeys(cfg, Start(g.files, g.keys), g.before);
    StepKeepsKeys(cfg, s, StoreShare(share));
    var received := Apply(cfg, s, StoreShare(share));
    ShareIsStored(cfg, s, share);
    RunKeepsKeys(cfg, received, g.after);
  }

  lemma ShareIsStored(cfg: Config, s: State, share: nat)
    requires share < cfg.lib.order
    ensures PublicKeyHex(cfg.lib, PointOf(cfg.lib, share)) in Apply(cfg, s, StoreShare(share)).keys
  {
    hide PublicKeyHex, PointOf, HexEncode, FreshKey, FromPkHex, ApplyCheck, ApplyUpdate, ApplySign, ApplyDirect;
  }

  /** Once custody of any payload has succeeded at entry `i`, an exit request for share `i` is served in every
      later state, crashes and other work notwithstanding, with a signature that verifies under public share
      `i` on the epoch-0 exit root. */
  lemma CustodyThenExit(cfg: Config, g: Guardian, payload: BlsKeygenPayload, i: uint64, validatorIndex: uint64,
                        forkInfo: ForkInfo)
    requires Lawful(cfg.lib) && KeysFramed(cfg.lib, g.keys)
    requires ParsePublicKeySet(cfg.lib, payload.blsPubKeySet).Ok?
    requires CustodyShare(cfg.lib, payload, g.secret).Ok?
    requires FirstToOpen(cfg.lib, payload, ParsePublicKeySet(cfg.lib, payload.blsPubKeySet).value, g.secret, 0, i)
    ensures var request := SignExitRequest(payload.blsPubKeySet, i, validatorIndex, forkInfo);
            var r := SignVoluntaryExitMessage(cfg.lib, KeysInTheEnd(cfg, g, payload), request);
            var keys := ParsePublicKeySet(cfg.lib, payload.blsPubKeySet).value;
            var root := ExitRoot(cfg.lib.hash, validatorIndex, forkInfo);
            && r.Ok?
            && var signature := DecodeSignature(cfg.lib, r.value.signature);
               signature.Ok? && Verify(cfg.lib, PublicKeyShare(cfg.lib, keys, i), signature.value, root)
  {
    hide Opens, ExitRoot, PublicKeyHex, ParsePublicKeySet, KeysInTheEnd, FindShare, DecodeSignature, Sign, Verify;
    hide KeysFramed, PublicKey, SignVoluntaryExitMessage, CustodyShare, PointOf, PublicKeyShare;
    var keys := ParsePublicKeySet(cfg.lib, payload.blsPubKeySet).value;
    CustodyIsExact(cfg.lib, payload, g.secret);
    var k: nat :| FirstToOpen(cfg.lib, payload, keys, g.secret, 0, k)
                  && CustodyShare(cfg.lib, payload, g.secret).value < cfg.lib.order
                  && PointOf(cfg.lib, CustodyShare(cfg.lib, payload, g.secret).value)
                     == PublicKeyShare(cfg.lib, keys, k);
    assert k == i;
    SharesStayStored(cfg, g, payload);
    ExitIsExact(cfg.lib, KeysInTheEnd(cfg, g, payload),
                SignExitRequest(payload.blsPubKeySet, i, validatorIndex, forkInfo));
  }

  // ---------------------------------------------------------------- from key generation to the exit signature

  /** The share signature a guardian ends up contributing for position `i`: it takes custody, and later answers
      an exit request. */
  function ExitShare(cfg: Config, g: Guardian, payload: BlsKeygenPayload, i: uint64, validatorIndex: uint64,
                     forkInfo: ForkInfo): Result<nat>
    requires cfg.lib.order > 0
  {
    var stored :- CustodyShare(cfg.lib, payload, g.secret);
    var answer :- SignVoluntaryExitMessage(cfg.lib, KeysInTheEnd(cfg, g, payload),
                                           SignExitRequest(payload.blsPubKeySet, i, validatorIndex, forkInfo));
    DecodeSignature(cfg.lib, answer.signature)
  }

  /** The share signatures of the first guardians, in the order of the guardian list. */
  function ExitShares(cfg: Config, signers: seq<Guardian>, payload: BlsKeygenPayload, validatorIndex: uint64,
                      forkInfo: ForkInfo): (shares: seq<Result<nat>>)
    requires cfg.lib.order > 0 && |signers| < 0x1_0000_0000_0000_0000
    ensures |shares| == |signers|
  {
    seq(|signers|, i requires 0 <= i < |signers| => ExitShare(cfg, signers[i], payload, i, validatorIndex, forkInfo))
  }

  /** A key generation: what went into a payload. */
  datatype Keygen = Keygen(poly: SecretKeySet, guardians: seq<EthPublicKey>, nonces: seq<nat>, credentials: Bytes32,
                           signedFor: Version, reported: Version, evidence: Evidence)
  {
    predicate WellFormed(lib: Lib) {
      IsKeySet(lib, poly) && |nonces| == |guardians| < 0x1_0000_0000_0000_0000
    }

    function Payload(lib: Lib): BlsKeygenPayload
      requires lib.order > 0 && WellFormed(lib)
    {
      PayloadFor(lib, poly, guardians, nonces, credentials, signedFor, reported, evidence)
    }

    /** `i` is the first place of the key in the list. */
    predicate FirstPlaceOf(key: EthPublicKey, i: nat) {
      i < |guardians| && guardians[i] == key && forall j :: 0 <= j < i ==> guardians[j] != key
    }
  }

  /** What a listed guardian gets in the end: the share of its first place, stored under that share's point. */
  lemma ListedGuardianHolds(cfg: Config, k: Keygen, g: Guardian, first: nat)
    requires Lawful(cfg.lib) && k.WellFormed(cfg.lib) && KeysFramed(cfg.lib, g.keys)
    requires k.FirstPlaceOf(cfg.lib.ethPublicKey(g.secret), first)
    ensures var p := k.Payload(cfg.lib);
            && ParsePublicKeySet(cfg.lib, p.blsPubKeySet) == Ok(PublicKeys(cfg.lib, k.poly))
            && CustodyShare(cfg.lib, p, g.secret) == Ok(SecretKeyShare(cfg.lib, k.poly, first))
            && KeysFramed(cfg.lib, KeysInTheEnd(cfg, g, p))
            && PublicKeyHex(cfg.lib, PointOf(cfg.lib, SecretKeyShare(cfg.lib, k.poly, first)))
               in KeysInTheEnd(cfg, g, p)
  {
    PayloadReadsBack(cfg.lib, k.poly, k.guardians, k.nonces, k.credentials, k.signedFor, k.reported, k.evidence);
    CustodyIsComplete(cfg.lib, k.poly, k.guardians, k.nonces, k.credentials, k.signedFor, k.reported, k.evidence,
                      g.secret, first);
    assert SecretKeyShare(cfg.lib, k.poly, first) < cfg.lib.order;
    hide PayloadFor, PublicKeyHex, ParsePublicKeySet, KeysInTheEnd, CustodyShare, KeysFramed, Lawful, SecretKeyShare;
    hide PublicKeys, IsKeySet, PointOf;
    SharesStayStored(cfg, g, k.Payload(cfg.lib));
  }

  /** A guardian at its first place answers the exit request for that place with that share's signature. */
  lemma ListedGuardianAnswers(cfg: Config, k: Keygen, g: Guardian, i: uint64, validatorIndex: uint64,
                              forkInfo: ForkInfo)
    requires Lawful(cfg.lib) && k.WellFormed(cfg.lib) && KeysFramed(cfg.lib, g.keys)
    requires k.FirstPlaceOf(cfg.lib.ethPublicKey(g.secret), i)
    ensures ExitShare(cfg, g, k.Payload(cfg.lib), i, validatorIndex, forkInfo)
            == Ok(Sign(cfg.lib, SecretKeyShare(cfg.lib, k.poly, i), ExitRoot(cfg.lib.hash, validatorIndex, forkInfo)))
  {
    ListedGuardianHolds(cfg, k, g, i);
    ExitOfHeldShare(cfg, k, g, i, validatorIndex, forkInfo);
    hide *;
    PublicShareIsPoint(cfg.lib, k.poly, i);
  }

  /** Of a guardian that has custody, the exit request for place `i` is served exactly when that share is
      stored, and then with that share's signature. */
  lemma ExitOfHeldShare(cfg: Config, k: Keygen, g: Guardian, i: uint64, validatorIndex: uint64, forkInfo: ForkInfo)
    requires Lawful(cfg.lib) && k.WellFormed(cfg.lib)
    requires var p := k.Payload(cfg.lib);
             && ParsePublicKeySet(cfg.lib, p.blsPubKeySet) == Ok(PublicKeys(cfg.lib, k.poly))
             && CustodyShare(cfg.lib, p, g.secret).Ok?
             && KeysFramed(cfg.lib, KeysInTheEnd(cfg, g, p))
    ensures var p, share := k.Payload(cfg.lib), SecretKeyShare(cfg.lib, k.poly, i);
            ExitShare(cfg, g, p, i, validatorIndex, forkInfo)
            == if PublicKeyHex(cfg.lib, PointOf(cfg.lib, share)) in KeysInTheEnd(cfg, g, p)
               then Ok(Sign(cfg.lib, share, ExitRoot(cfg.lib.hash, validatorIndex, forkInfo)))
               else Err(NoSuchFile)
  {
    var lib, share := cfg.lib, SecretKeyShare(cfg.lib, k.poly, i);
    var request := SignExitRequest(k.Payload(lib).blsPubKeySet, i, validatorIndex, forkInfo);
    var files := KeysInTheEnd(cfg, g, k.Payload(lib));
    PublicShareIsPoint(lib, k.poly, i);
    ExitAnswer(lib, files, request, PublicKeys(lib, k.poly), share);
    hide PayloadFor, ExitRoot, PublicKeyHex, ParsePublicKeySet, KeysInTheEnd, CustodyShare, DecodeSignature;
    hide KeysFramed, SignVoluntaryExitMessage, Sign, Lawful, SecretKeyShare, PublicKeyShare, PublicKeys, PointOf;
  }

  lemma ExitAnswer(lib: Lib, files: KeyFiles, request: SignExitRequest, keys: PublicKeySet, share: nat)
    requires Lawful(lib) && KeysFramed(lib, files)
    requires ParsePublicKeySet(lib, request.blsPubKeySet) == Ok(keys)
    requires PublicKeyShare(lib, keys, request.guardianIndex) == PointOf(lib, share)
    ensures var r, root := SignVoluntaryExitMessage(lib, files, request),
                           ExitRoot(lib.hash, request.validatorIndex, request.forkInfo);
            if PublicKeyHex(lib, PointOf(lib, share)) in files
            then r.Ok? && DecodeSignature(lib, r.value.signature) == Ok(Sign(lib, share, root))
            else r == Err(NoSuchFile)
  {
    var point, root := PointOf(lib, share), ExitRoot(lib.hash, request.validatorIndex, request.forkInfo);
    ExitIsExact(lib, files, request);
    if PublicKeyHex(lib, point) in files {
      var signature := DecodeSignature(lib, SignVoluntaryExitMessage(lib, files, request).value.signature).value;
      hide ExitRoot, ParsePublicKeySet, SignVoluntaryExitMessage, PublicKeyHex, KeysFramed, DecodeSignature;
      VerifiesIff(lib, share, signature, root);
    } else {
      hide ParsePublicKeySet, PublicKeyHex, KeysFramed, PublicKeyShare, PointOf, HexDecode;
    }
  }

  // ---------------------------------------------------------------- a guardian listed twice

  /** The event puts a key under this name. */
  predicate Writes(cfg: Config, e: Event, name: string)
    requires cfg.lib.order > 0
  {
    || (e.GenerateKey? && name == PublicKeyHex(cfg.lib, PublicKey(cfg.lib, PublicKeys(cfg.lib, e.poly))))
    || (e.StoreShare? && name == PublicKeyHex(cfg.lib, PointOf(cfg.lib, e.share)))
  }

  lemma StepAddsOnlyWritten(cfg: Config, s: State, e: Event, name: string)
    requires cfg.lib.order > 0 && name in Apply(cfg, s, e).keys
    ensures name in s.keys || Writes(cfg, e, name)
  {
    hide CheckDb, UpdateDb, SanitizeBlsPkHex, ToSigningRoot, SignWithSavedSk, PublicKeyHex, StoredEntry, FetchBlsSk;
    hide CanBeSlashed, HexEncode, PublicKey, PublicKeys, PointOf, FromPkHex, FreshKey;
  }

  lemma {:induction false} RunAddsOnlyWritten(cfg: Config, s: State, events: seq<Event>, name: string)
    requires cfg.lib.order > 0 && name in Run(cfg, s, events).keys
    ensures name in s.keys || exists e :: e in events && Writes(cfg, e, name)
  {
    hide Apply, Writes;
    if events != [] {
      var n := |events| - 1;
      StepAddsOnlyWritten(cfg, Run(cfg, s, events[..n]), events[n], name);
      if name in Run(cfg, s, events[..n]).keys {
        RunAddsOnlyWritten(cfg, s, events[..n], name);
      }
    }
  }

  /** The guardian never had this name's key but, perhaps, through the custody of the payload. */
  ghost predicate NeverOtherwise(cfg: Config, g: Guardian, name: string)
    requires cfg.lib.order > 0
  {
    name !in g.keys && forall e :: e in g.before || e in g.after ==> !Writes(cfg, e, name)
  }

  lemma HeldOnlyByCustody(cfg: Config, g: Guardian, payload: BlsKeygenPayload, name: string)
    requires cfg.lib.order > 0 && CustodyShare(cfg.lib, payload, g.secret).Ok? && NeverOtherwise(cfg, g, name)
    requires name in KeysInTheEnd(cfg, g, payload)
    ensures name == PublicKeyHex(cfg.lib, PointOf(cfg.lib, CustodyShare(cfg.lib, payload, g.secret).value))
  {
    var store := StoreShare(CustodyShare(cfg.lib, payload, g.secret).value);
    var s := Run(cfg, Start(g.files, g.keys), g.before);
    hide Run, Apply, CustodyShare, PublicKeyHex, PointOf;
    RunAddsOnlyWritten(cfg, Apply(cfg, s, store), g.after, name);
    StepAddsOnlyWritten(cfg, s, store, name);
    if name in s.keys {
      RunAddsOnlyWritten(cfg, Start(g.files, g.keys), g.before, name);
    }
  }

  /** A guardian that is listed again at place `i` has custody of its first share only: unless it came by the
      other share some other way, the exit request for place `i` is refused, except in the case that the two
      shares are one number. */
  lemma RepeatedGuardianAnswersIff(cfg: Config, k: Keygen, g: Guardian, first: nat, i: uint64,
                                   validatorIndex: uint64, forkInfo: ForkInfo)
    requires Lawful(cfg.lib) && k.WellFormed(cfg.lib) && KeysFramed(cfg.lib, g.keys)
    requires k.FirstPlaceOf(cfg.lib.ethPublicKey(g.secret), first)
    requires first < i < |k.guardians| && k.guardians[i] == cfg.lib.ethPublicKey(g.secret)
    requires NeverOtherwise(cfg, g, PublicKeyHex(cfg.lib, PointOf(cfg.lib, SecretKeyShare(cfg.lib, k.poly, i))))
    ensures ExitShare(cfg, g, k.Payload(cfg.lib), i, validatorIndex, forkInfo)
            == if SecretKeyShare(cfg.lib, k.poly, first) == SecretKeyShare(cfg.lib, k.poly, i)
               then Ok(Sign(cfg.lib, SecretKeyShare(cfg.lib, k.poly, i),
                            ExitRoot(cfg.lib.hash, validatorIndex, forkInfo)))
               else Err(NoSuchFile)
  {
    var lib, p := cfg.lib, k.Payload(cfg.lib);
    var x, y := SecretKeyShare(lib, k.poly, first), SecretKeyShare(lib, k.poly, i);
    ListedGuardianHolds(cfg, k, g, first);
    ExitOfHeldShare(cfg, k, g, i, validatorIndex, forkInfo);
    assert x < lib.order && y < lib.order && PointOf(lib, x) < lib.order && PointOf(lib, y) < lib.order;
    assert GroupLaws(lib);
    hide *;
    if PublicKeyHex(lib, PointOf(lib, y)) in KeysInTheEnd(cfg, g, p) {
      HeldOnlyByCustody(cfg, g, p, PublicKeyHex(lib, PointOf(lib, y)));
      SameTextSamePoint(lib, PointOf(lib, x), PointOf(lib, y));
      PointOfInjective(lib, x, y);
    }
  }

  // ---------------------------------------------------------------- the exit signature

  function Collect(shares: seq<Result<nat>>): Result<seq<nat>> {
    if shares == [] then Ok([]) else
      var first :- shares[0];
      var rest :- Collect(shares[1..]);
      Ok([first] + rest)
  }

  lemma {:induction false} CollectValues(shares: seq<Result<nat>>, values: seq<nat>)
    requires |shares| == |values| && forall i :: 0 <= i < |shares| ==> shares[i] == Ok(values[i])
    ensures Collect(shares) == Ok(values)
  {
    if shares != [] {
      CollectValues(shares[1..], values[1..]);
      assert values == [values[0]] + values[1..];
    }
  }

  lemma {:induction false} CollectFails(shares: seq<Result<nat>>, i: nat)
    requires i < |shares| && shares[i].Err?
    ensures Collect(shares).Err?
    decreases i
  {
    if i > 0 {
      CollectFails(shares[1..], i - 1);
    }
  }

  /** The exit signature made from the answers of the signers, with the key set read from the payload. */
  function AggregateExit(cfg: Config, signers: seq<Guardian>, payload: BlsKeygenPayload, validatorIndex: uint64,
                         forkInfo: ForkInfo): Result<nat>
    requires cfg.lib.order > 0 && |signers| < 0x1_0000_0000_0000_0000
  {
    var keys :- ParsePublicKeySet(cfg.lib, payload.blsPubKeySet);
    var shares :- Collect(ExitShares(cfg, signers, payload, validatorIndex, forkInfo));
    AggregateSignatureShares(cfg.lib, keys, shares)
  }

  /** The signers are the first guardians of the list, in its order and without repetitions. */
  ghost predicate InOrderPrefix(cfg: Config, signers: seq<Guardian>, k: Keygen)
    requires cfg.lib.order > 0
  {
    && |signers| <= |k.guardians| < 0x1_0000_0000_0000_0000
    && forall i: nat :: i < |signers| ==>
         k.FirstPlaceOf(cfg.lib.ethPublicKey(signers[i].secret), i) && KeysFramed(cfg.lib, signers[i].keys)
  }

  lemma SignersAnswer(cfg: Config, k: Keygen, signers: seq<Guardian>, validatorIndex: uint64, forkInfo: ForkInfo,
                      shares: seq<Result<nat>>, root: Root)
    requires cfg.lib.order > 0 && Lawful(cfg.lib) && k.WellFormed(cfg.lib) && InOrderPrefix(cfg, signers, k)
    requires |signers| < 0x1_0000_0000_0000_0000 && root == ExitRoot(cfg.lib.hash, validatorIndex, forkInfo)
    requires shares == ExitShares(cfg, signers, k.Payload(cfg.lib), validatorIndex, forkInfo)
    ensures Collect(shares) == Ok(SignatureShares(cfg.lib, k.poly, |signers|, root))
  {
    hide *;
    forall i: nat | i < |signers| ensures shares[i] == Ok(Sign(cfg.lib, SecretKeyShare(cfg.lib, k.poly, i), root)) {
      SignerAnswers(cfg, k, signers, validatorIndex, forkInfo, i);
    }
    CollectSigned(cfg.lib, k.poly, shares, root);
  }

  lemma SignerAnswers(cfg: Config, k: Keygen, signers: seq<Guardian>, validatorIndex: uint64, forkInfo: ForkInfo,
                      i: uint64)
    requires Lawful(cfg.lib) && k.WellFormed(cfg.lib) && InOrderPrefix(cfg, signers, k) && i < |signers|
    ensures ExitShares(cfg, signers, k.Payload(cfg.lib), validatorIndex, forkInfo)[i]
            == Ok(Sign(cfg.lib, SecretKeyShare(cfg.lib, k.poly, i), ExitRoot(cfg.lib.hash, validatorIndex, forkInfo)))
  {
    assert k.FirstPlaceOf(cfg.lib.ethPublicKey(signers[i].secret), i) && KeysFramed(cfg.lib, signers[i].keys);
    assert cfg.lib.order > 0 && |signers| < 0x1_0000_0000_0000_0000;
    hide *;
    ListedGuardianAnswers(cfg, k, signers[i], i, validatorIndex, forkInfo);
    ShareAt(cfg, signers, k.Payload(cfg.lib), validatorIndex, forkInfo, i);
  }

  lemma CollectSigned(lib: Lib, poly: SecretKeySet, shares: seq<Result<nat>>, root: Root)
    requires lib.order > 0
    requires forall i: nat :: i < |shares| ==> shares[i] == Ok(Sign(lib, SecretKeyShare(lib, poly, i), root))
    ensures Collect(shares) == Ok(SignatureShares(lib, poly, |shares|, root))
  {
    hide Sign, SecretKeyShare, Collect;
    CollectValues(shares, SignatureShares(lib, poly, |shares|, root));
  }

  lemma ShareAt(cfg: Config, signers: seq<Guardian>, payload: BlsKeygenPayload, validatorIndex: uint64,
                forkInfo: ForkInfo, i: uint64)
    requires cfg.lib.order > 0 && i < |signers| < 0x1_0000_0000_0000_0000
    ensures ExitShares(cfg, signers, payload, validatorIndex, forkInfo)[i]
            == ExitShare(cfg, signers[i], payload, i, validatorIndex, forkInfo)
  {
    hide ExitShare;
  }

  /** The whole protocol: a produced payload, and signers that took custody of it, each with its own history
      before and after; then their answers to the exit request aggregate to the signature of the group secret
      on the exit root if there are at least as many signers as the threshold, and are refused otherwise; that
      signature, and no other, verifies under the group key read from the payload. */
  lemma CustodyToExit(cfg: Config, k: Keygen, signers: seq<Guardian>, validatorIndex: uint64, forkInfo: ForkInfo)
    requires Lawful(cfg.lib) && k.WellFormed(cfg.lib) && |k.poly| <= cfg.lib.order && InOrderPrefix(cfg, signers, k)
    ensures var lib, p := cfg.lib, k.Payload(cfg.lib);
            var root := ExitRoot(lib.hash, validatorIndex, forkInfo);
            var keys := ParsePublicKeySet(lib, p.blsPubKeySet);
            var signature := AggregateExit(cfg, signers, p, validatorIndex, forkInfo);
            && keys.Ok?
            && signature == (if |signers| >= |k.poly| then Ok(Sign(lib, SecretKey(lib, k.poly), root))
                             else Err(NotEnoughShares))
            && (forall x: nat :: x < lib.order ==>
                  (Verify(lib, PublicKey(lib, keys.value), x, root) <==> x == Sign(lib, SecretKey(lib, k.poly), root)))
  {
    var lib, p := cfg.lib, k.Payload(cfg.lib);
    var root := ExitRoot(lib.hash, validatorIndex, forkInfo);
    PayloadReadsBack(lib, k.poly, k.guardians, k.nonces, k.credentials, k.signedFor, k.reported, k.evidence);
    var shares := ExitShares(cfg, signers, p, validatorIndex, forkInfo);
    SignersAnswer(cfg, k, signers, validatorIndex, forkInfo, shares, root);
    assert GroupLaws(lib);
    PublicShareIsPoint(lib, k.poly, 0);
    hide PayloadFor, ExitRoot, ExitShares, AggregateSignatureShares, ParsePublicKeySet, Sign, Verify, SecretKey;
    hide PublicKey, PublicKeys, Lawful, PrimeField.Prime, InOrderPrefix, Collect, PointOf;
    AggregateIsGroupSignature(lib, k.poly, |signers|, root);
    forall x: nat | x < lib.order
      ensures Verify(lib, PublicKey(lib, PublicKeys(lib, k.poly)), x, root)
              <==> x == Sign(lib, SecretKey(lib, k.poly), root)
    {
      VerifiesIff(lib, SecretKey(lib, k.poly), x, root);
    }
  }

  // ---------------------------------------------------------------- exits as steps of a run

  lemma ExitSignedDirectly(cfg: Config, s: State, name: string, validatorIndex: uint64, forkInfo: ForkInfo)
    requires cfg.lib.order > 0 && FetchBlsSk(cfg.lib, s.keys, name).Ok? && Strip0x(name) == name
    ensures var msg := VoluntaryExitMsg(VoluntaryExitRequest(forkInfo, VoluntaryExit(0, validatorIndex)));
            var root := ExitRoot(cfg.lib.hash, validatorIndex, forkInfo);
            var signature := Sign(cfg.lib, SecretKey(cfg.lib, FetchBlsSk(cfg.lib, s.keys, name).value), root);
            Apply(cfg, s, SignDirectly(name, msg))
            == s.(emitted := s.emitted + [Emission(Release(name, msg, root, signature), 0)])
  {
    ExitRequestRoot(cfg.lib.hash, validatorIndex, forkInfo, Some(cfg.genesis));
    hide ExitRoot, ToSigningRoot, FetchBlsSk, Sign, SecretKey, Strip0x, ApplyCheck, ApplyUpdate, ApplySign, FreshKey;
    hide PublicKeyHex, FromPkHex, StoreShareIn;
  }

  /** An answered exit request is a direct signature under the text of the asked share, and the answer is that
      signature's text and its root's. */
  lemma ExitIsAStep(cfg: Config, s: State, request: SignExitRequest) returns (signature: nat)
    requires cfg.lib.order > 0 && SignVoluntaryExitMessage(cfg.lib, s.keys, request).Ok?
    ensures var keys := ParsePublicKeySet(cfg.lib, request.blsPubKeySet);
            var root := ExitRoot(cfg.lib.hash, request.validatorIndex, request.forkInfo);
            && keys.Ok?
            && SignVoluntaryExitMessage(cfg.lib, s.keys, request).value
               == SignExitResponse(HexEncode(cfg.lib.sigToBytes(signature)), HexEncode(root))
            && var name := PublicKeyHex(cfg.lib, PublicKeyShare(cfg.lib, keys.value, request.guardianIndex));
               var msg := VoluntaryExitMsg(VoluntaryExitRequest(request.forkInfo,
                                                                VoluntaryExit(0, request.validatorIndex)));
               Apply(cfg, s, SignDirectly(name, msg))
               == s.(emitted := s.emitted + [Emission(Release(name, msg, root, signature), 0)])
  {
    var keys := ParsePublicKeySet(cfg.lib, request.blsPubKeySet).value;
    var name := PublicKeyHex(cfg.lib, PublicKeyShare(cfg.lib, keys, request.guardianIndex));
    var root := ExitRoot(cfg.lib.hash, request.validatorIndex, request.forkInfo);
    signature := Sign(cfg.lib, SecretKey(cfg.lib, FetchBlsSk(cfg.lib, s.keys, name).value), root);
    var poly := FetchBlsSk(cfg.lib, s.keys, name).value;
    SignVemSignsExitRoot(cfg.lib, SecretKey(cfg.lib, poly), request.validatorIndex, request.forkInfo);
    hide ExitRoot, ParsePublicKeySet, FetchBlsSk, PublicKeyShare, Sign, SignVem, SecretKey, HexEncode, PublicKeyHex;
    hide Apply;
    ExitSignedDirectly(cfg, s, name, request.validatorIndex, request.forkInfo);
  }
}
