/** Deposits: the endpoint that signs a deposit message with a stored key, and key generation as a run of the
    transition system. */
module Deposits {
  import opened Wrappers
  import opened Bytes
  import opened Ssz
  import opened SigningMessages
  import opened SigningRoots
  import RootLayouts
  import opened SlashingProtection
  import opened Library
  import opened Threshold
  import opened KeygenPayload
  import opened Signer
  import opened SignerRuns
  import opened ExitProtocol

  datatype DepositResponse = DepositResponse(
    pubkey: string,
    withdrawalCredentials: string,
    amount: uint64,
    signature: string,
    depositMessageRoot: string,
    depositDataRoot: string)

  function RootOfDeposit(h: Hash, deposit: DepositMessage, fork: Version): Root {
    ComputeSigningRoot(h, deposit.ToTree(), DomainFor(h, DOMAIN_DEPOSIT, Some(fork), None))
  }

  function GetDepositSignature(lib: Lib, keys: KeyFiles, pkHex: string, deposit: DepositMessage, fork: Version)
    : Result<DepositResponse>
    requires lib.order > 0
  {
    var signature :- SignWithSavedSk(lib, keys, pkHex, RootOfDeposit(lib.hash, deposit, fork));
    var bytes := lib.sigToBytes(signature);
    var data := DepositData(deposit.pubkey, deposit.withdrawalCredentials, deposit.amount, bytes);
    Ok(DepositResponse(HexEncode(deposit.pubkey), HexEncode(deposit.withdrawalCredentials), deposit.amount,
                       HexEncode(bytes), HexEncode(HashTreeRoot(lib.hash, deposit.ToTree())),
                       HexEncode(HashTreeRoot(lib.hash, data.ToTree()))))
  }

  /** The endpoint signs with the key that the deposit message names. */
  function SignDeposit(lib: Lib, keys: KeyFiles, request: DepositRequest): Result<DepositResponse>
    requires lib.order > 0
  {
    var name :- SanitizeBlsPkHex(HexEncode(request.deposit.pubkey));
    if name !in keys then Err(NoSuchFile)
    else GetDepositSignature(lib, keys, name, request.deposit, request.genesisForkVersion)
  }

  lemma KeyTextIsSane(key: Bytes48)
    ensures SanitizeBlsPkHex(HexEncode(key)) == Ok(HexEncode(key)) && Strip0x(HexEncode(key)) == HexEncode(key)
  {
    StripHexEncode(key);
  }

  /** In a store where every key lies under its own name, a deposit is signed exactly when the key it names is
      stored; the answer repeats the deposit, its signature verifies under the named key on what the deposit signs,
      hash by hash, and its two roots are those of the deposit without and with this signature. */
  lemma SignDepositIsExact(lib: Lib, keys: KeyFiles, request: DepositRequest)
    requires Lawful(lib) && KeysFramed(lib, keys)
    ensures var r, d := SignDeposit(lib, keys, request), request.deposit;
            && (r.Ok? <==> HexEncode(d.pubkey) in keys)
            && (r.Err? ==> r.error == NoSuchFile)
            && (r.Ok? ==> AnswersDeposit(lib, d, request.genesisForkVersion, r.value))
  {
    var d := request.deposit;
    KeyTextIsSane(d.pubkey);
    if HexEncode(d.pubkey) in keys {
      var poly, point := StoredKey(lib, keys, d.pubkey);
      DepositAnswer(lib, poly, point, d, request.genesisForkVersion);
      hide HexEncode, RootOfDeposit, KeysFramed, Lawful, Sign, SecretKey, PublicKey, PublicKeys, AnswersDeposit;
      hide FetchBlsSk, HashTreeRoot, DepositData.ToTree, DepositMessage.ToTree, PublicKeyHex;
    }
  }

  /** What the answer to a deposit request holds. */
  ghost predicate AnswersDeposit(lib: Lib, d: DepositMessage, fork: Version, r: DepositResponse)
    requires lib.order > 0
  {
    var signature := DecodeSignature(lib, r.signature);
    && r.pubkey == HexEncode(d.pubkey) && r.withdrawalCredentials == HexEncode(d.withdrawalCredentials)
    && r.amount == d.amount
    && signature.Ok?
    && (exists point: nat :: point < lib.order && lib.pkToBytes(point) == d.pubkey &&
          Verify(lib, point, signature.value,
                 RootLayouts.DepositToSign(lib.hash, d.pubkey, d.withdrawalCredentials, d.amount, fork)))
    && HexDecode(r.depositMessageRoot) == Ok(HashTreeRoot(lib.hash, d.ToTree()))
    && HexDecode(r.depositDataRoot)
       == Ok(RootLayouts.DepositToSend(lib.hash, d.pubkey, d.withdrawalCredentials, d.amount,
                                       lib.sigToBytes(signature.value)))
  }

  lemma DepositAnswer(lib: Lib, poly: SecretKeySet, point: nat, d: DepositMessage, fork: Version)
    requires Lawful(lib) && point == PublicKey(lib, PublicKeys(lib, poly)) < lib.order
    requires lib.pkToBytes(point) == d.pubkey
    ensures var bytes := lib.sigToBytes(Sign(lib, SecretKey(lib, poly), RootOfDeposit(lib.hash, d, fork)));
            var data := DepositData(d.pubkey, d.withdrawalCredentials, d.amount, bytes);
            AnswersDeposit(lib, d, fork,
                           DepositResponse(HexEncode(d.pubkey), HexEncode(d.withdrawalCredentials), d.amount,
                                           HexEncode(bytes), HexEncode(HashTreeRoot(lib.hash, d.ToTree())),
                                           HexEncode(HashTreeRoot(lib.hash, data.ToTree()))))
  {
    var root := RootOfDeposit(lib.hash, d, fork);
    var signature := Sign(lib, SecretKey(lib, poly), root);
    var data := DepositData(d.pubkey, d.withdrawalCredentials, d.amount, lib.sigToBytes(signature));
    GroupSignatureVerifies(lib, poly, root);
    assert signature < lib.order;
    SignatureReadsBack(lib, signature);
    HexRoundTrip(HashTreeRoot(lib.hash, d.ToTree()));
    HexRoundTrip(HashTreeRoot(lib.hash, data.ToTree()));
    RootLayouts.DepositContentRoot(lib.hash, d, fork);
    RootLayouts.DepositDataRoot(lib.hash, data);
    assert RootOfDeposit(lib.hash, d, fork)
           == RootLayouts.DepositToSign(lib.hash, d.pubkey, d.withdrawalCredentials, d.amount, fork);
    hide HexEncode, HexDecode, RootOfDeposit, Lawful, Sign, SecretKey, PublicKey, PublicKeys, Verify;
    hide DecodeSignature, HashTreeRoot, DepositData.ToTree, DepositMessage.ToTree;
    hide RootLayouts.DepositToSign, RootLayouts.DepositToSend, ComputeSigningRoot;
  }

  /** The key stored under the text of a public key is that key's. */
  lemma StoredKey(lib: Lib, keys: KeyFiles, key: Bytes48) returns (poly: SecretKeySet, point: nat)
    requires Lawful(lib) && KeysFramed(lib, keys) && HexEncode(key) in keys
    ensures FetchBlsSk(lib, keys, HexEncode(key)) == Ok(poly)
    ensures point == PublicKey(lib, PublicKeys(lib, poly)) < lib.order
    ensures PublicKeyHex(lib, point) == HexEncode(key) && lib.pkToBytes(point) == key
  {
    assert NamesItsKey(lib, keys, HexEncode(key));
    poly := FetchBlsSk(lib, keys, HexEncode(key)).value;
    point := PublicKey(lib, PublicKeys(lib, poly));
    HexEncodeInjective(lib.pkToBytes(point), key);
  }

  /** An answered deposit request is a direct signature, under the text of the key it names, on the deposit root
      that was signed. */
  lemma SignDepositIsAStep(cfg: Config, s: State, request: DepositRequest)
    requires cfg.lib.order > 0 && SignDeposit(cfg.lib, s.keys, request).Ok?
    ensures var name := HexEncode(request.deposit.pubkey);
            var root := RootOfDeposit(cfg.lib.hash, request.deposit, request.genesisForkVersion);
            var signature := SignWithSavedSk(cfg.lib, s.keys, name, root);
            && signature.Ok?
            && SignDeposit(cfg.lib, s.keys, request).value.signature == HexEncode(cfg.lib.sigToBytes(signature.value))
            && Apply(cfg, s, SignDirectly(name, Deposit(request)))
               == s.(emitted := s.emitted + [Emission(Release(name, Deposit(request), root, signature.value), 0)])
  {
    KeyTextIsSane(request.deposit.pubkey);
    hide HexEncode, ComputeSigningRoot, DomainFor, FetchBlsSk, DepositMessage.ToTree, DepositData.ToTree, HashTreeRoot;
    hide PublicKeyHex, Strip0x, ApplyCheck, ApplyUpdate, ApplySign, FreshKey, FromPkHex, StoreShareIn, SanitizeBlsPkHex;
  }

  // ---------------------------------------------------------------- key generation as a run

  /** What key generation does, in its order: store the key, create the database, sign the deposit. */
  function KeygenEvents(lib: Lib, poly: SecretKeySet, credentials: Bytes32, fork: Version): seq<Event>
    requires lib.order > 0
  {
    var keys := PublicKeys(lib, poly);
    var name := PublicKeyHex(lib, PublicKey(lib, keys));
    [GenerateKey(poly), CreateDatabase(name),
     SignDirectly(name, Deposit(DepositRequest(DepositMessageFor(lib, keys, credentials), fork)))]
  }

  lemma ThreeSteps(cfg: Config, s: State, a: Event, b: Event, c: Event)
    requires cfg.lib.order > 0
    ensures Run(cfg, s, [a, b, c]) == Apply(cfg, Apply(cfg, Apply(cfg, s, a), b), c)
  {
    hide Apply;
    assert [a, b, c][..2] == [a, b] && [a, b][..1] == [a] && [a][..0] == [];
    assert Run(cfg, s, [a]) == Apply(cfg, s, a);
    assert Run(cfg, s, [a, b]) == Apply(cfg, Apply(cfg, s, a), b);
  }

  lemma GeneratedState(cfg: Config, s: State, poly: SecretKeySet, name: string)
    requires cfg.lib.order > 0 && FreshKey(cfg, s, poly)
    requires name == PublicKeyHex(cfg.lib, PublicKey(cfg.lib, PublicKeys(cfg.lib, poly)))
    ensures Apply(cfg, s, GenerateKey(poly))
            == s.(keys := s.keys[name := HexEncode(cfg.lib.skSetToBytes(poly))], pendingKeys := s.pendingKeys + {name})
  {
    StripHexEncode(cfg.lib.skSetToBytes(poly));
    hide PublicKeyHex, HexEncode, PublicKey, PublicKeys, IsKeySet, FreshKey, Strip0x;
    hide ApplyCheck, ApplyUpdate, ApplySign, ApplyDirect, StoreShareIn, FromPkHex;
  }

  lemma CreatedState(cfg: Config, s: State, name: string, point: nat)
    requires cfg.lib.order > 0 && name == PublicKeyHex(cfg.lib, point) && name in s.pendingKeys
    ensures Apply(cfg, s, CreateDatabase(name))
            == s.(files := s.files[name := Data(cfg.lib.pkToBytes(point), [], [])],
                  pendingKeys := s.pendingKeys - {name})
  {
    FreshDatabase(cfg.lib, point);
    hide PublicKeyHex, FromPkHex, FileName, ApplyCheck, ApplyUpdate, ApplySign, ApplyDirect, StoreShareIn, FreshKey;
  }

  lemma KeyReadsBack(lib: Lib, files: KeyFiles, poly: SecretKeySet, name: string)
    requires Lawful(lib) && IsKeySet(lib, poly) && Strip0x(name) == name
    ensures FetchBlsSk(lib, files[name := HexEncode(lib.skSetToBytes(poly))], name) == Ok(poly)
  {
    HexRoundTrip(lib.skSetToBytes(poly));
    assert lib.skSetFromBytes(lib.skSetToBytes(poly)) == Some(poly);
    hide HexEncode, HexDecode, Strip0x, Lawful;
  }

  lemma DirectState(cfg: Config, s: State, name: string, deposit: DepositMessage, fork: Version)
    requires cfg.lib.order > 0 && FetchBlsSk(cfg.lib, s.keys, name).Ok? && Strip0x(name) == name
    ensures var msg, root := Deposit(DepositRequest(deposit, fork)), RootOfDeposit(cfg.lib.hash, deposit, fork);
            var signature := Sign(cfg.lib, SecretKey(cfg.lib, FetchBlsSk(cfg.lib, s.keys, name).value), root);
            Apply(cfg, s, SignDirectly(name, msg))
            == s.(emitted := s.emitted + [Emission(Release(name, msg, root, signature), 0)])
  {
    hide ComputeSigningRoot, DomainFor, FetchBlsSk, DepositMessage.ToTree, PublicKeyHex, Strip0x, Sign, SecretKey;
    hide ApplyCheck, ApplyUpdate, ApplySign, FreshKey, FromPkHex, StoreShareIn;
  }

  /** Key generation of a fresh key is a run of three steps: it leaves exactly the key file and the empty database
      that `AttestFreshBlsKey` leaves, and one released signature, on the root its payload's deposit check uses. */
  lemma KeygenIsARun(cfg: Config, s: State, poly: SecretKeySet, credentials: Bytes32, fork: Version)
    requires Lawful(cfg.lib) && IsKeySet(cfg.lib, poly) && FreshKey(cfg, s, poly)
    ensures var keys := PublicKeys(cfg.lib, poly);
            var name := PublicKeyHex(cfg.lib, PublicKey(cfg.lib, keys));
            var s' := Run(cfg, s, KeygenEvents(cfg.lib, poly, credentials, fork));
            && s'.keys == s.keys[name := HexEncode(cfg.lib.skSetToBytes(poly))]
            && s'.files == s.files[name := Data(cfg.lib.pkToBytes(PublicKey(cfg.lib, keys)), [], [])]
            && s'.pendingKeys == s.pendingKeys && s'.inFlight == s.inFlight && s'.accepted == s.accepted
            && |s'.emitted| == |s.emitted| + 1 && s'.emitted[..|s.emitted|] == s.emitted
            && s'.emitted[|s.emitted|].release.keyName == name
            && s'.emitted[|s.emitted|].release.root
               == RootLayouts.DepositToSign(cfg.lib.hash, cfg.lib.pkToBytes(PublicKey(cfg.lib, keys)), credentials,
                                            32_000_000_000, fork)
            && cfg.lib.sigToBytes(s'.emitted[|s.emitted|].release.signature)
               == SignFullDeposit(cfg.lib, poly, credentials, fork).signature
  {
    var lib, keys := cfg.lib, PublicKeys(cfg.lib, poly);
    var point := PublicKey(lib, keys);
    var name := PublicKeyHex(lib, point);
    var d := DepositMessageFor(lib, keys, credentials);
    assert lib.order > 0 && name !in s.pendingKeys;
    assert RootOfDeposit(lib.hash, d, fork) == DepositSigningRoot(lib, keys, credentials, fork);
    DepositRoots(lib, keys, credentials, fork, Zeros(96));
    ThreeSteps(cfg, s, GenerateKey(poly), CreateDatabase(name), SignDirectly(name, Deposit(DepositRequest(d, fork))));
    GeneratedState(cfg, s, poly, name);
    var s1 := Apply(cfg, s, GenerateKey(poly));
    CreatedState(cfg, s1, name, point);
    KeyReadsBack(lib, s.keys, poly, name);
    hide Run, Apply, PublicKeyHex, PublicKey, PublicKeys, HexEncode, FetchBlsSk, RootOfDeposit, DepositSigningRoot;
    hide DepositMessageFor, Lawful, IsKeySet, FreshKey, Sign, SecretKey, DepositDataRootFor, RootLayouts.DepositToSign;
    DirectState(cfg, Apply(cfg, s1, CreateDatabase(name)), name, d, fork);
    assert s.pendingKeys + {name} - {name} == s.pendingKeys;
  }
}
