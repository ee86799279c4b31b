/** Every number that leaves as a signature is one: it verifies under the key of its name on the recorded root.
    What is proved of the recorded roots therefore holds of the numbers themselves. */
module Authenticity {
  import opened Wrappers
  import opened Bytes
  import opened Ssz
  import opened SigningMessages
  import opened SigningRoots
  import opened SlashingProtection
  import opened Library
  import opened Threshold
  import opened Signer
  import opened SignerRuns
  import opened SignerSafety
  import opened SplitUpdates
  import opened ExitProtocol

  /** The name is the text of a point under which the signature verifies on the root. */
  ghost predicate Authentic(lib: Lib, r: Release)
    requires lib.order > 0
  {
    r.signature < lib.order &&
    exists point: nat :: point < lib.order && PublicKeyHex(lib, point) == r.keyName &&
      Verify(lib, point, r.signature, r.root)
  }

  /** A signature made with the key of this name. */
  lemma SavedSkIsAuthentic(lib: Lib, keys: KeyFiles, name: string, msg: BLSSignMsg, root: Root)
    requires GroupLaws(lib) && SignWithSavedSk(lib, keys, name, root).Ok?
    ensures Authentic(lib, Release(name, msg, root, SignWithSavedSk(lib, keys, name, root).value))
  {
    var poly := FetchBlsSk(lib, keys, name).value;
    var point := PublicKey(lib, PublicKeys(lib, poly));
    GroupSignatureVerifies(lib, poly, root);
    assert point < lib.order && PublicKeyHex(lib, point) == name;
    assert Sign(lib, SecretKey(lib, poly), root) < lib.order;
    hide PublicKey, PublicKeys, PublicKeyHex, Sign, SecretKey, FetchBlsSk, Verify;
  }

  /** Exactly when an undisturbed request is answered, one signature is released; it is the answer, it is for the
      request under its name, on the request's signing root, and it verifies under the key of that name. */
  lemma AnswerVerifies(lib: Lib, growable: bool, genesis: Version, files: Files, keys: KeyFiles,
                       pkHex: string, msg: BLSSignMsg)
    requires GroupLaws(lib)
    ensures var e := Handle(lib, growable, genesis, files, keys, pkHex, msg);
            && (e.outcome.Signed? <==> e.releases != [])
            && (e.outcome.Signed? ==>
                  && |e.releases| == 1
                  && e.releases[0].keyName == Strip0x(pkHex) && e.releases[0].msg == msg
                  && e.releases[0].root == ToSigningRoot(lib.hash, msg, Some(genesis))
                  && e.releases[0].signature == e.outcome.signature
                  && Authentic(lib, e.releases[0]))
  {
    assert lib.order > 0;
    var name, root := Strip0x(pkHex), ToSigningRoot(lib.hash, msg, Some(genesis));
    hide ToSigningRoot, SignWithSavedSk, Handle, Strip0x, Authentic, GroupLaws;
    AnswerIsRelease(lib, growable, genesis, files, keys, pkHex, msg);
    if SignWithSavedSk(lib, keys, name, root).Ok? {
      SavedSkIsAuthentic(lib, keys, name, msg, root);
    }
  }

  lemma AnswerIsRelease(lib: Lib, growable: bool, genesis: Version, files: Files, keys: KeyFiles,
                        pkHex: string, msg: BLSSignMsg)
    requires lib.order > 0
    ensures var e := Handle(lib, growable, genesis, files, keys, pkHex, msg);
            var name, root := Strip0x(pkHex), ToSigningRoot(lib.hash, msg, Some(genesis));
            if e.outcome.Signed?
            then SignWithSavedSk(lib, keys, name, root) == Ok(e.outcome.signature)
                 && e.releases == [Release(name, msg, root, e.outcome.signature)]
            else e.releases == []
  {
    hide ToSigningRoot, SignWithSavedSk, CheckDb, UpdateDb, CanBeSlashed, Strip0x;
  }

  // ---------------------------------------------------------------- every run

  ghost predicate AllAuthentic(lib: Lib, emitted: seq<Emission>)
    requires lib.order > 0
  {
    forall i :: 0 <= i < |emitted| ==> Authentic(lib, emitted[i].release)
  }

  lemma OneMoreAuthentic(lib: Lib, emitted: seq<Emission>, e: Emission)
    requires lib.order > 0 && AllAuthentic(lib, emitted) && Authentic(lib, e.release)
    ensures AllAuthentic(lib, emitted + [e])
  {
    hide Authentic;
  }

  lemma DirectAppends(cfg: Config, s: State, pkHex: string, msg: BLSSignMsg)
    requires cfg.lib.order > 0
    ensures ApplyDirect(cfg, s, pkHex, msg).emitted
            == if !IsDirect(msg) || FetchBlsSk(cfg.lib, s.keys, pkHex).Err? then s.emitted else
                 var root := ToSigningRoot(cfg.lib.hash, msg, Some(cfg.genesis));
                 var signature := Sign(cfg.lib, SecretKey(cfg.lib, FetchBlsSk(cfg.lib, s.keys, pkHex).value), root);
                 s.emitted + [Emission(Release(Strip0x(pkHex), msg, root, signature), 0)]
  {
    hide ToSigningRoot, IsDirect, FetchBlsSk, Strip0x, Sign, SecretKey;
  }

  /** A direct signature comes from a key that lies under its own name. */
  lemma DirectIsAuthentic(cfg: Config, s: State, pkHex: string, msg: BLSSignMsg)
    requires Lawful(cfg.lib) && KeysFramed(cfg.lib, s.keys) && AllAuthentic(cfg.lib, s.emitted)
    ensures AllAuthentic(cfg.lib, ApplyDirect(cfg, s, pkHex, msg).emitted)
  {
    assert cfg.lib.order > 0;
    DirectAppends(cfg, s, pkHex, msg);
    var key, root := FetchBlsSk(cfg.lib, s.keys, pkHex), ToSigningRoot(cfg.lib.hash, msg, Some(cfg.genesis));
    hide ApplyDirect, ToSigningRoot, Authentic, Lawful, KeysFramed, IsDirect, FetchBlsSk, Strip0x, Sign, SecretKey;
    hide AllAuthentic;
    if IsDirect(msg) && key.Ok? {
      DirectNumber(cfg.lib, s.keys, pkHex, msg, root);
      var signature := Sign(cfg.lib, SecretKey(cfg.lib, key.value), root);
      OneMoreAuthentic(cfg.lib, s.emitted, Emission(Release(Strip0x(pkHex), msg, root, signature), 0));
    }
  }

  lemma SameFile(lib: Lib, keys: KeyFiles, pkHex: string)
    requires lib.order > 0 && Strip0x(pkHex) in keys && NamesItsKey(lib, keys, Strip0x(pkHex))
    ensures FetchBlsSk(lib, keys, pkHex) == FetchBlsSk(lib, keys, Strip0x(pkHex))
  {
    hide HexDecode, PublicKey, PublicKeys;
  }

  lemma DirectNumber(lib: Lib, keys: KeyFiles, pkHex: string, msg: BLSSignMsg, root: Root)
    requires Lawful(lib) && KeysFramed(lib, keys) && FetchBlsSk(lib, keys, pkHex).Ok?
    ensures var signature := Sign(lib, SecretKey(lib, FetchBlsSk(lib, keys, pkHex).value), root);
            Authentic(lib, Release(Strip0x(pkHex), msg, root, signature))
  {
    var name := Strip0x(pkHex);
    assert name in keys && NamesItsKey(lib, keys, name);
    SameFile(lib, keys, pkHex);
    assert SignWithSavedSk(lib, keys, name, root)
           == Ok(Sign(lib, SecretKey(lib, FetchBlsSk(lib, keys, pkHex).value), root));
    SavedSkIsAuthentic(lib, keys, name, msg, root);
  }

  lemma SignIsAuthentic(cfg: Config, s: State, id: nat)
    requires GroupLaws(cfg.lib) && AllAuthentic(cfg.lib, s.emitted)
    ensures AllAuthentic(cfg.lib, Apply(cfg, s, SignStep(id)).emitted)
  {
    assert cfg.lib.order > 0;
    hide Authentic, GroupLaws, SignWithSavedSk, ApplyCheck, ApplyUpdate, ApplyDirect, FreshKey, PublicKeyHex, FromPkHex;
    hide StoreShareIn;
    if id in s.inFlight && s.inFlight[id].Updated? {
      var p := s.inFlight[id];
      if SignWithSavedSk(cfg.lib, s.keys, p.name, p.root).Ok? {
        SavedSkIsAuthentic(cfg.lib, s.keys, p.name, p.msg, p.root);
      }
    }
  }

  lemma OthersEmitNothing(cfg: Config, s: State, e: Event)
    requires cfg.lib.order > 0 && !e.SignStep? && !e.SignDirectly?
    ensures Apply(cfg, s, e).emitted == s.emitted
  {
    hide CheckDb, UpdateDb, SanitizeBlsPkHex, ToSigningRoot, PublicKeyHex, StoredEntry, CanBeSlashed, FreshKey;
    hide WriteData, StoreShareIn, FromPkHex, ApplyDirect, ApplySign;
  }

  lemma StepIsAuthentic(cfg: Config, s: State, e: Event)
    requires Lawful(cfg.lib) && KeysFramed(cfg.lib, s.keys) && AllAuthentic(cfg.lib, s.emitted)
    ensures AllAuthentic(cfg.lib, Apply(cfg, s, e).emitted)
  {
    assert GroupLaws(cfg.lib);
    hide Lawful, GroupLaws, KeysFramed, AllAuthentic, ApplyDirect, ApplyCheck, ApplyUpdate, ApplySign, FreshKey;
    hide PublicKeyHex, FromPkHex, StoreShareIn;
    match e
    case SignStep(id) => SignIsAuthentic(cfg, s, id);
    case SignDirectly(pkHex, msg) => DirectIsAuthentic(cfg, s, pkHex, msg);
    case _ => OthersEmitNothing(cfg, s, e);
  }

  /** In every run, every released signature verifies under the key of its name on its recorded root. */
  lemma {:induction false} RunIsAuthentic(cfg: Config, files: Files, keys: KeyFiles, events: seq<Event>)
    requires Lawful(cfg.lib) && KeysFramed(cfg.lib, keys)
    ensures AllAuthentic(cfg.lib, Run(cfg, Start(files, keys), events).emitted)
    decreases |events|
  {
    assert cfg.lib.order > 0;
    hide Lawful, KeysFramed, Apply, Authentic;
    if events != [] {
      var n := |events| - 1;
      RunIsAuthentic(cfg, files, keys, events[..n]);
      RunKeepsKeys(cfg, Start(files, keys), events[..n]);
      StepIsAuthentic(cfg, Run(cfg, Start(files, keys), events[..n]), events[n]);
    }
  }

  lemma ReadsAndWritesEmitNothing(cfg: Config, s: SplitState, e: SplitEvent)
    requires cfg.lib.order > 0 && !e.Other?
    ensures ApplySplit(cfg, s, e).base.emitted == s.base.emitted && ApplySplit(cfg, s, e).base.keys == s.base.keys
  {
    hide Apply, CanBeSlashed, ReadData, Record, StoredEntry, WriteData, Strip0x;
  }

  lemma NothingReleased(cfg: Config, files: Files, keys: KeyFiles)
    requires cfg.lib.order > 0
    ensures AllAuthentic(cfg.lib, SplitStart(files, keys).base.emitted) && SplitStart(files, keys).base.keys == keys
  {
  }

  lemma SplitStepIsAuthentic(cfg: Config, s: SplitState, e: SplitEvent)
    requires Lawful(cfg.lib) && KeysFramed(cfg.lib, s.base.keys) && AllAuthentic(cfg.lib, s.base.emitted)
    ensures var s' := ApplySplit(cfg, s, e);
            AllAuthentic(cfg.lib, s'.base.emitted) && KeysFramed(cfg.lib, s'.base.keys)
  {
    assert cfg.lib.order > 0;
    hide Lawful, KeysFramed, Apply, AllAuthentic, AwaitsUpdate, ApplyRead, ApplyWrite;
    if e.Other? {
      StepIsAuthentic(cfg, s.base, e.event);
      StepKeepsKeys(cfg, s.base, e.event);
    } else {
      ReadsAndWritesEmitNothing(cfg, s, e);
    }
  }

  /** So too with reads and writes apart, whatever overlaps; and every stored key stays under its own name. */
  lemma {:induction false} SplitRunIsAuthentic(cfg: Config, files: Files, keys: KeyFiles, events: seq<SplitEvent>)
    requires Lawful(cfg.lib) && KeysFramed(cfg.lib, keys)
    ensures var s := SplitRun(cfg, SplitStart(files, keys), events);
            AllAuthentic(cfg.lib, s.base.emitted) && KeysFramed(cfg.lib, s.base.keys)
    decreases |events|
  {
    assert cfg.lib.order > 0;
    hide Lawful, KeysFramed, ApplySplit, AllAuthentic;
    if events != [] {
      var n := |events| - 1;
      SplitRunIsAuthentic(cfg, files, keys, events[..n]);
      SplitStepIsAuthentic(cfg, SplitRun(cfg, SplitStart(files, keys), events[..n]), events[n]);
    } else {
      NothingReleased(cfg, files, keys);
    }
  }

  // ---------------------------------------------------------------- safety of the numbers

  /** Signature number `i` verifies under this point on the root of this object under this domain, and everything
      hashed for that root or the request's own is among the inputs. */
  ghost predicate SignedNumber(cfg: Config, emitted: seq<Emission>, i: nat, point: nat, content: Tree, domain: Domain,
                               inputs: set<(Bytes32, Bytes32)>)
    requires cfg.lib.order > 0
  {
    && i < |emitted| && PublicKeyHex(cfg.lib, point) == emitted[i].release.keyName
    && Verify(cfg.lib, point, emitted[i].release.signature, ComputeSigningRoot(cfg.lib.hash, content, domain))
    && SeparatedPoints(cfg.lib, emitted[i].release.root, ComputeSigningRoot(cfg.lib.hash, content, domain))
    && HashedFor(cfg.lib.hash, emitted[i].release.msg, Some(cfg.genesis)) <= inputs
    && HashInputs(cfg.lib.hash, SigningTree(content, domain)) <= inputs
  }

  lemma NumberNamesRoot(lib: Lib, r: Release, point: nat, root: Root)
    requires Lawful(lib) && Authentic(lib, r) && 0 < point < lib.order && PublicKeyHex(lib, point) == r.keyName
    requires Verify(lib, point, r.signature, root) && SeparatedPoints(lib, r.root, root)
    ensures r.root == root
  {
    var own: nat :| own < lib.order && PublicKeyHex(lib, own) == r.keyName && Verify(lib, own, r.signature, r.root);
    SameTextSamePoint(lib, own, point);
    assert Sign(lib, point, r.root) == Sign(lib, point, root);
    hide Verify, PublicKeyHex, Sign, Authentic;
    SameSignatureSamePoint(lib, point, r.root, root);
  }

  lemma NumberIsSignedRoot(cfg: Config, emitted: seq<Emission>, i: nat, point: nat, content: Tree, domain: Domain,
                           inputs: set<(Bytes32, Bytes32)>)
    requires Lawful(cfg.lib) && AllAuthentic(cfg.lib, emitted) && 0 < point < cfg.lib.order
    requires SignedNumber(cfg, emitted, i, point, content, domain, inputs)
    ensures SignedRoot(cfg, emitted, i, content, domain, inputs)
  {
    hide Authentic, Verify, PublicKeyHex, HashedFor, HashInputs, SigningTree, ComputeSigningRoot, Lawful;
    hide SeparatedPoints;
    NumberNamesRoot(cfg.lib, emitted[i].release, point, ComputeSigningRoot(cfg.lib.hash, content, domain));
  }

  /** No key ever releases numbers that verify under it as signatures on slashable votes. */
  lemma NoSlashableVoteSignatures(cfg: Config, files: Files, keys: KeyFiles, events: seq<Event>, i: nat, j: nat,
                                  point: nat, a: AttestationData, da: Domain, b: AttestationData, db: Domain,
                                  inputs: set<(Bytes32, Bytes32)>)
    requires Lawful(cfg.lib) && KeysFramed(cfg.lib, keys) && Framed(files) && 0 < point < cfg.lib.order
    requires da[..4] == DOMAIN_BEACON_ATTESTER && db[..4] == DOMAIN_BEACON_ATTESTER
    requires var emitted := Run(cfg, Start(files, keys), events).emitted;
             && SignedNumber(cfg, emitted, i, point, a.ToTree(), da, inputs)
             && SignedNumber(cfg, emitted, j, point, b.ToTree(), db, inputs)
    requires CollisionFree(cfg.lib.hash, inputs)
    ensures !IsSlashableAttestationData(a, b)
  {
    var emitted := Run(cfg, Start(files, keys), events).emitted;
    assert OfOneKey(emitted, i, j) && cfg.lib.order > 0;
    hide *;
    RunIsAuthentic(cfg, files, keys, events);
    NumberIsSignedRoot(cfg, emitted, i, point, a.ToTree(), da, inputs);
    NumberIsSignedRoot(cfg, emitted, j, point, b.ToTree(), db, inputs);
    NoSlashableVotes(cfg, files, keys, events, i, j, a, da, b, db, inputs);
  }

  /** Nor on two headers for one slot. */
  lemma NoDoubleProposalSignatures(cfg: Config, files: Files, keys: KeyFiles, events: seq<Event>, i: nat, j: nat,
                                   point: nat, a: BeaconBlockHeader, da: Domain, b: BeaconBlockHeader, db: Domain,
                                   inputs: set<(Bytes32, Bytes32)>)
    requires Lawful(cfg.lib) && KeysFramed(cfg.lib, keys) && Framed(files) && 0 < point < cfg.lib.order
    requires da[..4] == DOMAIN_BEACON_PROPOSER && db[..4] == DOMAIN_BEACON_PROPOSER
    requires var emitted := Run(cfg, Start(files, keys), events).emitted;
             && SignedNumber(cfg, emitted, i, point, a.ToTree(), da, inputs)
             && SignedNumber(cfg, emitted, j, point, b.ToTree(), db, inputs)
    requires CollisionFree(cfg.lib.hash, inputs)
    ensures !IsDoubleProposal(a, b)
  {
    var emitted := Run(cfg, Start(files, keys), events).emitted;
    assert OfOneKey(emitted, i, j) && cfg.lib.order > 0;
    hide *;
    RunIsAuthentic(cfg, files, keys, events);
    NumberIsSignedRoot(cfg, emitted, i, point, a.ToTree(), da, inputs);
    NumberIsSignedRoot(cfg, emitted, j, point, b.ToTree(), db, inputs);
    NoDoubleProposals(cfg, files, keys, events, i, j, a, da, b, db, inputs);
  }
}
