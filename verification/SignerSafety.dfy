/** What the invariant of the signing service means outside: no key ever releases slashable signatures, and
    the database is ahead of every signature that has left. */
module SignerSafety {
  import opened Wrappers
  import opened Bytes
  import opened Ssz
  import opened SigningMessages
  import opened SigningRoots
  import opened SlashingProtection
  import opened Library
  import opened Signer
  import opened SignerRuns

  // ---------------------------------------------------------------- the offences

  /** `is_slashable_attestation_data` of the phase 0 consensus specification: a double vote, or the first
      vote surrounds the second. */
  predicate IsSlashableAttestationData(a: AttestationData, b: AttestationData) {
    || (a != b && a.target.epoch == b.target.epoch)
    || (a.source.epoch < b.source.epoch && b.target.epoch < a.target.epoch)
  }

  /** The headers of a proposer slashing: distinct proposals for one slot. */
  predicate IsDoubleProposal(a: BeaconBlockHeader, b: BeaconBlockHeader) {
    a != b && a.slot == b.slot
  }

  // ---------------------------------------------------------------- released requests never conflict

  /** Two released block or attestation signatures of one key, whichever order and interleaving led to
      them, are for entries that do not conflict; not even one request is signed twice. */
  lemma EmittedNeverConflict(cfg: Config, files: Files, keys: KeyFiles, events: seq<Event>, i: nat, j: nat)
    requires cfg.lib.order > 0 && Framed(files)
    requires var s := Run(cfg, Start(files, keys), events);
             && i < |s.emitted| && j < |s.emitted| && i != j
             && s.emitted[i].release.keyName == s.emitted[j].release.keyName
             && CanBeSlashed(s.emitted[i].release.msg) && CanBeSlashed(s.emitted[j].release.msg)
    ensures var s := Run(cfg, Start(files, keys), events);
            !Conflict(StoredEntry(cfg.lib.hash, s.emitted[i].release.msg),
                      StoredEntry(cfg.lib.hash, s.emitted[j].release.msg))
  {
    hide Run, StoredEntry, CanBeSlashed, MarkOf, Beyond, Conflict, Strip0x, IsRootOf;
    var s := Run(cfg, Start(files, keys), events);
    RunKeeps(cfg, files, keys, events);
    var t, u := s.emitted[i].ticket, s.emitted[j].ticket;
    assert EmissionInv(cfg, s.accepted, s.emitted[i]) && EmissionInv(cfg, s.accepted, s.emitted[j]);
    assert EntryInv(cfg, s.accepted[t]) && EntryInv(cfg, s.accepted[u]);
    assert Spent(s, i, t) && Spent(s, j, u);
    assert t != u;
    if t < u {
      BeyondNeverConflicts(s.accepted[t].entry, s.accepted[u].entry);
    } else {
      BeyondNeverConflicts(s.accepted[u].entry, s.accepted[t].entry);
    }
  }

  /** Nor does a released signature conflict with anything in the database the run started from. */
  lemma EmittedRespectStart(cfg: Config, files: Files, keys: KeyFiles, events: seq<Event>, i: nat, x: Entry)
    requires cfg.lib.order > 0 && Framed(files)
    requires var s := Run(cfg, Start(files, keys), events);
             && i < |s.emitted| && CanBeSlashed(s.emitted[i].release.msg)
             && s.emitted[i].release.keyName in files && x in EntriesOf(files[s.emitted[i].release.keyName])
    ensures var e := StoredEntry(cfg.lib.hash, Run(cfg, Start(files, keys), events).emitted[i].release.msg);
            !Conflict(x, e) && !Conflict(e, x)
  {
    hide Run, StoredEntry, CanBeSlashed, EntriesOf, MarkOf;
    var s := Run(cfg, Start(files, keys), events);
    RunKeeps(cfg, files, keys, events);
    var t, start := s.emitted[i].ticket, files[s.emitted[i].release.keyName];
    assert EmissionInv(cfg, s.accepted, s.emitted[i]) && EntryInv(cfg, s.accepted[t]);
    HistoryBelowMark(start, [], true);
    assert Replay(start, [], true) == start && x in History(start, [], true);
    AdmittedIsAllowed(EntriesOf(start), MarkOf(start), s.accepted[t].entry);
  }

  // ---------------------------------------------------------------- no slashable signatures

  /** Signature `i` is on the signing root of this object under this domain, and everything hashed for either
      root is among the inputs. */
  ghost predicate SignedRoot(cfg: Config, emitted: seq<Emission>, i: nat, content: Tree, domain: Domain,
                             inputs: set<(Bytes32, Bytes32)>)
  {
    && i < |emitted|
    && emitted[i].release.root == ComputeSigningRoot(cfg.lib.hash, content, domain)
    && HashedFor(cfg.lib.hash, emitted[i].release.msg, Some(cfg.genesis)) <= inputs
    && HashInputs(cfg.lib.hash, SigningTree(content, domain)) <= inputs
  }

  /** Signatures `i` and `j` are of one key. */
  predicate OfOneKey(emitted: seq<Emission>, i: nat, j: nat) {
    i < |emitted| && j < |emitted| && emitted[i].release.keyName == emitted[j].release.keyName
  }

  /** No key ever releases signatures on the roots of two attestations that form a double or a surround
      vote.  The signatures may have been asked for as any kind of request, and the attestations may be
      under any attester domains; the hash must not collide on the pairs involved. */
  lemma NoSlashableVotes(cfg: Config, files: Files, keys: KeyFiles, events: seq<Event>, i: nat, j: nat,
                         a: AttestationData, da: Domain, b: AttestationData, db: Domain,
                         inputs: set<(Bytes32, Bytes32)>)
    requires cfg.lib.order > 0 && Framed(files)
    requires da[..4] == DOMAIN_BEACON_ATTESTER && db[..4] == DOMAIN_BEACON_ATTESTER
    requires var emitted := Run(cfg, Start(files, keys), events).emitted;
             && OfOneKey(emitted, i, j)
             && SignedRoot(cfg, emitted, i, a.ToTree(), da, inputs)
             && SignedRoot(cfg, emitted, j, b.ToTree(), db, inputs)
    requires CollisionFree(cfg.lib.hash, inputs)
    ensures !IsSlashableAttestationData(a, b)
  {
    hide Run, HashedFor, ComputeSigningRoot, ToSigningRoot, AttestationData.ToTree, Framed;
    var s := Run(cfg, Start(files, keys), events);
    var m, n := s.emitted[i].release.msg, s.emitted[j].release.msg;
    ReleasedRoot(cfg, files, keys, events, i);
    ReleasedRoot(cfg, files, keys, events, j);
    AttestationRootBinds(cfg.lib.hash, m, Some(cfg.genesis), a, da, inputs);
    AttestationRootBinds(cfg.lib.hash, n, Some(cfg.genesis), b, db, inputs);
    VoteEntry(cfg.lib.hash, m);
    VoteEntry(cfg.lib.hash, n);
    if i != j {
      EmittedNeverConflict(cfg, files, keys, events, i, j);
    }
  }

  /** No key ever releases signatures on the roots of two distinct headers for one slot, in whichever of
      the two block forms they were requested. */
  lemma NoDoubleProposals(cfg: Config, files: Files, keys: KeyFiles, events: seq<Event>, i: nat, j: nat,
                          a: BeaconBlockHeader, da: Domain, b: BeaconBlockHeader, db: Domain,
                          inputs: set<(Bytes32, Bytes32)>)
    requires cfg.lib.order > 0 && Framed(files)
    requires da[..4] == DOMAIN_BEACON_PROPOSER && db[..4] == DOMAIN_BEACON_PROPOSER
    requires var emitted := Run(cfg, Start(files, keys), events).emitted;
             && OfOneKey(emitted, i, j)
             && SignedRoot(cfg, emitted, i, a.ToTree(), da, inputs)
             && SignedRoot(cfg, emitted, j, b.ToTree(), db, inputs)
    requires CollisionFree(cfg.lib.hash, inputs)
    ensures !IsDoubleProposal(a, b)
  {
    hide Run, HashedFor, ComputeSigningRoot, ToSigningRoot, BeaconBlockHeader.ToTree, Framed;
    var s := Run(cfg, Start(files, keys), events);
    var m, n := s.emitted[i].release.msg, s.emitted[j].release.msg;
    ReleasedRoot(cfg, files, keys, events, i);
    ReleasedRoot(cfg, files, keys, events, j);
    ProposalRootBinds(cfg.lib.hash, m, Some(cfg.genesis), a, da, inputs);
    ProposalRootBinds(cfg.lib.hash, n, Some(cfg.genesis), b, db, inputs);
    ProposalEntry(cfg.lib.hash, m);
    ProposalEntry(cfg.lib.hash, n);
    if i != j {
      EmittedNeverConflict(cfg, files, keys, events, i, j);
    }
  }

  lemma ReleasedRoot(cfg: Config, files: Files, keys: KeyFiles, events: seq<Event>, i: nat)
    requires cfg.lib.order > 0 && Framed(files)
    requires i < |Run(cfg, Start(files, keys), events).emitted|
    ensures var r := Run(cfg, Start(files, keys), events).emitted[i].release;
            r.root == ToSigningRoot(cfg.lib.hash, r.msg, Some(cfg.genesis))
  {
    hide Run, ToSigningRoot, OwnsTicket;
    RunKeeps(cfg, files, keys, events);
    var s := Run(cfg, Start(files, keys), events);
    assert EmissionInv(cfg, s.accepted, s.emitted[i]);
  }

  lemma VoteEntry(h: Hash, msg: BLSSignMsg)
    requires DutyOf(msg) == Attest
    ensures CanBeSlashed(msg)
    ensures var data := VotedData(msg);
            StoredEntry(h, msg) == AttestationEntry(SignedAttestationEpochs(data.source.epoch, data.target.epoch,
                                                                            Some(ToSigningRoot(h, msg, None))))
  {
    hide ToSigningRoot;
  }

  lemma ProposalEntry(h: Hash, msg: BLSSignMsg)
    requires DutyOf(msg) == Propose
    ensures CanBeSlashed(msg)
    ensures StoredEntry(h, msg)
            == BlockEntry(SignedBlockSlot(ProposedHeader(h, msg).slot, Some(ToSigningRoot(h, msg, None))))
  {
    hide ToSigningRoot;
  }

  // ---------------------------------------------------------------- persist before release

  /** In every state of every run the database on file covers every signature ever released. */
  lemma PersistedBeforeReleased(cfg: Config, files: Files, keys: KeyFiles, events: seq<Event>, i: nat)
    requires cfg.lib.order > 0 && Framed(files)
    requires var s := Run(cfg, Start(files, keys), events);
             i < |s.emitted| && CanBeSlashed(s.emitted[i].release.msg)
    ensures var s := Run(cfg, Start(files, keys), events);
            var r := s.emitted[i].release;
            r.keyName in s.files && Below(StoredEntry(cfg.lib.hash, r.msg), MarkOf(s.files[r.keyName]))
  {
    hide Run, StoredEntry, CanBeSlashed, MarkOf, Below;
    var s := Run(cfg, Start(files, keys), events);
    RunKeeps(cfg, files, keys, events);
    assert EmissionInv(cfg, s.accepted, s.emitted[i]) && EntryInv(cfg, s.accepted[s.emitted[i].ticket]);
  }

  /** Only an accepted update and a new database touch the files, and only an accepted update the history
      of acceptances. */
  lemma OtherStepsLeaveFiles(cfg: Config, s: State, e: Event)
    requires cfg.lib.order > 0
    requires !e.Update? && !e.CreateDatabase?
    ensures Apply(cfg, s, e).files == s.files && Apply(cfg, s, e).accepted == s.accepted
  {
    hide CheckDb, SanitizeBlsPkHex, ToSigningRoot, SignWithSavedSk, PublicKeyHex, ApplyUpdate, FreshKey;
  }

  predicate UpdateAccepted(cfg: Config, s: State, e: Event) {
    && e.Update? && e.id in s.inFlight && s.inFlight[e.id].Checked?
    && CanBeSlashed(s.inFlight[e.id].msg)
    && UpdateDb(cfg.lib.hash, cfg.growable, s.files, s.inFlight[e.id].name, s.inFlight[e.id].msg).Ok?
  }

  lemma UpdateLeavesOrRecords(cfg: Config, s: State, e: Event)
    requires cfg.lib.order > 0 && e.Update?
    ensures var s' := Apply(cfg, s, e);
            if UpdateAccepted(cfg, s, e) then
              var p := s.inFlight[e.id];
              && Ok(s'.files) == UpdateDb(cfg.lib.hash, cfg.growable, s.files, p.name, p.msg)
              && s'.accepted == s.accepted + [Acceptance(Strip0x(p.name), p.msg, StoredEntry(cfg.lib.hash, p.msg))]
            else s'.files == s.files && s'.accepted == s.accepted
  {
    hide UpdateDb, StoredEntry, ToSigningRoot, CanBeSlashed, ApplyCheck, ApplySign, FreshKey;
  }

  lemma CreationAddsOrLeaves(cfg: Config, s: State, e: Event)
    requires cfg.lib.order > 0 && e.CreateDatabase? && FilesInv(s.files, s.pendingKeys)
    ensures var s' := Apply(cfg, s, e);
            && s'.accepted == s.accepted
            && forall name :: name in s.files ==> name in s'.files && s'.files[name] == s.files[name]
  {
    hide ApplyCheck, ApplyUpdate, ApplySign, ApplyDirect, FreshKey, FromPkHex, HexEncode, PublicKeyHex, StoreShareIn;
    if e.name in s.pendingKeys && FromPkHex(e.name).Ok? {
      FromPkHexNamesItself(e.name);
    }
  }

  /** No step removes a database or moves its slot or epochs back. */
  lemma NoStepLowers(cfg: Config, start: Files, s: State, e: Event)
    requires cfg.lib.order > 0 && Inv(cfg, start, s)
    ensures ForwardFrom(s.files, Apply(cfg, s, e).files)
  {
    hide Apply, UpdateDb, MarkOf, RequestsInv, TicketsInv, AcceptedInv;
    if e.Update? {
      UpdateLeavesOrRecords(cfg, s, e);
      if UpdateAccepted(cfg, s, e) {
        UpdateMeaning(cfg.lib.hash, cfg.growable, s.files, s.inFlight[e.id].name, s.inFlight[e.id].msg);
      }
    } else if e.CreateDatabase? {
      CreationAddsOrLeaves(cfg, s, e);
    } else {
      OtherStepsLeaveFiles(cfg, s, e);
    }
  }

  // ---------------------------------------------------------------- the stored root is the signed root

  /** No later acceptance of the same kind for the same file. */
  ghost predicate IsLatest(accepted: seq<Acceptance>, i: nat)
    requires i < |accepted|
  {
    forall j :: i < j < |accepted| && accepted[j].file == accepted[i].file
      ==> !SameKind(accepted[j].entry, accepted[i].entry)
  }

  ghost predicate StoredInv(growable: bool, files: Files, accepted: seq<Acceptance>) {
    forall i: nat :: i < |accepted| && IsLatest(accepted, i) ==>
      accepted[i].file in files && StoredAsNewest(files[accepted[i].file], accepted[i].entry, growable)
  }

  lemma AcceptStores(growable: bool, files: Files, accepted: seq<Acceptance>, a: Acceptance)
    requires StoredInv(growable, files, accepted)
    requires a.file in files && Record(files[a.file], a.entry, growable).Ok?
    ensures StoredInv(growable, files[a.file := Record(files[a.file], a.entry, growable).value], accepted + [a])
  {
    hide Record, StoredAsNewest;
    var now := accepted + [a];
    var files' := files[a.file := Record(files[a.file], a.entry, growable).value];
    RecordStoresNewest(files[a.file], a.entry, growable);
    forall i: nat | i < |now| && IsLatest(now, i)
      ensures now[i].file in files' && StoredAsNewest(files'[now[i].file], now[i].entry, growable)
    {
      if i < |accepted| {
        assert now[i] == accepted[i] && now[|accepted|] == a;
        assert IsLatest(accepted, i) by {
          assert forall j :: i < j < |accepted| ==> now[j] == accepted[j];
        }
      }
    }
  }

  lemma {:induction false} RunStores(cfg: Config, files: Files, keys: KeyFiles, events: seq<Event>)
    requires cfg.lib.order > 0 && Framed(files)
    ensures var s := Run(cfg, Start(files, keys), events); StoredInv(cfg.growable, s.files, s.accepted)
  {
    hide Apply, UpdateDb, MarkOf, RequestsInv, TicketsInv, AcceptedInv, StoredAsNewest, StoredEntry, ForwardFrom;
    if events != [] {
      var n := |events| - 1;
      var s, e := Run(cfg, Start(files, keys), events[..n]), events[n];
      RunStores(cfg, files, keys, events[..n]);
      RunKeeps(cfg, files, keys, events[..n]);
      if e.Update? {
        UpdateLeavesOrRecords(cfg, s, e);
        if UpdateAccepted(cfg, s, e) {
          var p := s.inFlight[e.id];
          UpdateMeaning(cfg.lib.hash, cfg.growable, s.files, p.name, p.msg);
          AcceptStores(cfg.growable, s.files, s.accepted,
                       Acceptance(Strip0x(p.name), p.msg, StoredEntry(cfg.lib.hash, p.msg)));
        }
      } else if e.CreateDatabase? {
        CreationAddsOrLeaves(cfg, s, e);
      } else {
        OtherStepsLeaveFiles(cfg, s, e);
      }
    }
  }

  /** The newest block or vote on file is that of the request, with this root, and it has the highest slot or
      target. */
  predicate NewestHoldsRoot(h: Hash, d: Data, msg: BLSSignMsg, root: Root, growable: bool) {
    if DutyOf(msg) == Propose then
      var slot, blocks := ProposedHeader(h, msg).slot, d.signedBlocks;
      && blocks != [] && slot == LatestSlot(blocks)
      && blocks[if growable then |blocks| - 1 else 0] == SignedBlockSlot(slot, Some(root))
    else
      && DutyOf(msg) == Attest
      && (var data, votes := VotedData(msg), d.signedAttestations;
          && votes != [] && data.target.epoch == LatestTarget(votes)
          && votes[if growable then |votes| - 1 else 0]
             == SignedAttestationEpochs(data.source.epoch, data.target.epoch, Some(root)))
  }

  lemma StoredHoldsRoot(h: Hash, d: Data, msg: BLSSignMsg, growable: bool)
    requires CanBeSlashed(msg) && StoredAsNewest(d, StoredEntry(h, msg), growable)
    ensures NewestHoldsRoot(h, d, msg, ToSigningRoot(h, msg, None), growable)
  {
    hide ToSigningRoot, DutyOf, CanBeSlashed, ProposedHeader, VotedData, LatestSlot, LatestTarget, StoredEntry;
    SlashableDuty(msg);
    if DutyOf(msg) == Propose {
      ProposalEntry(h, msg);
    } else {
      VoteEntry(h, msg);
    }
  }

  /** In either mode, after any run, the newest entry on file for a key is the last accepted one of its kind;
      it has the highest slot or target, and if its request was signed, it holds exactly the signed root,
      although that was computed with another genesis version argument. */
  lemma StoredRootIsSignedRoot(cfg: Config, files: Files, keys: KeyFiles, events: seq<Event>, i: nat)
    requires cfg.lib.order > 0 && Framed(files)
    requires var s := Run(cfg, Start(files, keys), events);
             && i < |s.emitted| && CanBeSlashed(s.emitted[i].release.msg)
             && s.emitted[i].ticket < |s.accepted| && IsLatest(s.accepted, s.emitted[i].ticket)
    ensures var s := Run(cfg, Start(files, keys), events);
            var r := s.emitted[i].release;
            r.keyName in s.files && NewestHoldsRoot(cfg.lib.hash, s.files[r.keyName], r.msg, r.root, cfg.growable)
  {
    hide Run, ToSigningRoot, DutyOf, CanBeSlashed, StoredEntry, NewestHoldsRoot, StoredAsNewest;
    var s := Run(cfg, Start(files, keys), events);
    var r := s.emitted[i].release;
    RunKeeps(cfg, files, keys, events);
    RunStores(cfg, files, keys, events);
    assert EmissionInv(cfg, s.accepted, s.emitted[i]) && EntryInv(cfg, s.accepted[s.emitted[i].ticket]);
    StoredHoldsRoot(cfg.lib.hash, s.files[r.keyName], r.msg, cfg.growable);
    SlashableDuty(r.msg);
    GenesisVersionIrrelevant(cfg.lib.hash, r.msg, None, Some(cfg.genesis));
  }

  // ---------------------------------------------------------------- the handler is one of the runs

  lemma PhaseOverwritten(s: State, id: nat, p: Phase, q: Phase)
    requires id !in s.inFlight
    ensures Drop(Advanced(s, id, p), id) == s
    ensures Advanced(Advanced(s, id, p), id, q) == Advanced(s, id, q)
  {
    assert s.inFlight[id := p] - {id} == s.inFlight;
    assert s.inFlight[id := p][id := q] == s.inFlight[id := q];
  }

  /** The first two steps decide as the handler does before it updates. */
  lemma CheckedRun(cfg: Config, s: State, id: nat, pkHex: string, msg: BLSSignMsg)
    requires cfg.lib.order > 0 && id !in s.inFlight
    ensures var s2 := Apply(cfg, Apply(cfg, s, Arrive(id, pkHex, msg)), Check(id));
            var name := SanitizeBlsPkHex(pkHex);
            if msg.Deposit? || name.Err? || CheckDb(cfg.lib.hash, s.files, name.value, msg) != Ok(false)
            then s2 == s
            else s2 == Advanced(s, id, Checked(name.value, msg, ToSigningRoot(cfg.lib.hash, msg, Some(cfg.genesis))))
  {
    hide CheckDb, ToSigningRoot, SanitizeBlsPkHex, Advanced, Drop, ApplyUpdate, ApplySign, FreshKey;
    var name := SanitizeBlsPkHex(pkHex);
    var s1 := Advanced(s, id, Arrived(pkHex, msg));
    assert Apply(cfg, s, Arrive(id, pkHex, msg)) == s1;
    assert s1.inFlight[id] == Arrived(pkHex, msg) && s1.files == s.files by {
      AdvancedPhase(s, id, Arrived(pkHex, msg));
    }
    assert Apply(cfg, s1, Check(id)) == ApplyCheck(cfg, s1, id, pkHex, msg);
    if name.Ok? {
      PhaseOverwritten(s, id, Arrived(pkHex, msg),
                       Checked(name.value, msg, ToSigningRoot(cfg.lib.hash, msg, Some(cfg.genesis))));
    } else {
      PhaseOverwritten(s, id, Arrived(pkHex, msg), Arrived(pkHex, msg));
    }
  }

  lemma AdvancedPhase(s: State, id: nat, p: Phase)
    ensures var s' := Advanced(s, id, p);
            && id in s'.inFlight && s'.inFlight[id] == p && s'.files == s.files && s'.keys == s.keys
            && s'.accepted == s.accepted && s'.emitted == s.emitted
  {
  }

  /** The last two steps update and sign as the handler does. */
  lemma SignedRun(cfg: Config, s: State, id: nat, name: string, msg: BLSSignMsg, root: Root)
    requires cfg.lib.order > 0 && id !in s.inFlight
    ensures var s' := Apply(cfg, Apply(cfg, Advanced(s, id, Checked(name, msg, root)), Update(id)), SignStep(id));
            var update := if CanBeSlashed(msg) then UpdateDb(cfg.lib.hash, cfg.growable, s.files, name, msg)
                          else Ok(s.files);
            && s'.keys == s.keys && s'.inFlight == s.inFlight
            && s'.files == (if update.Ok? then update.value else s.files)
            && s.emitted <= s'.emitted
            && if update.Ok? && SignWithSavedSk(cfg.lib, s.keys, name, root).Ok?
               then |s'.emitted| == |s.emitted| + 1 &&
                    s'.emitted[|s.emitted|].release
                    == Release(name, msg, root, SignWithSavedSk(cfg.lib, s.keys, name, root).value)
               else s'.emitted == s.emitted
  {
    var s2 := Advanced(s, id, Checked(name, msg, root));
    UpdatedRun(cfg, s, id, name, msg, root);
    var s3 := Apply(cfg, s2, Update(id));
    hide Apply, UpdateDb, SignWithSavedSk, CanBeSlashed, Advanced;
    if id in s3.inFlight {
      EndedRun(cfg, s3, id, name, msg, root, s3.inFlight[id].ticket);
      PhaseDropped(s, s3, id);
    } else {
      NothingToSign(cfg, s3, id);
    }
  }

  /** The third step drops the request or moves it on. */
  lemma UpdatedRun(cfg: Config, s: State, id: nat, name: string, msg: BLSSignMsg, root: Root)
    requires cfg.lib.order > 0 && id !in s.inFlight
    ensures var s' := Apply(cfg, Advanced(s, id, Checked(name, msg, root)), Update(id));
            var update := if CanBeSlashed(msg) then UpdateDb(cfg.lib.hash, cfg.growable, s.files, name, msg)
                          else Ok(s.files);
            && s'.keys == s.keys && s'.emitted == s.emitted
            && s'.files == (if update.Ok? then update.value else s.files)
            && (update.Err? ==> s'.inFlight == s.inFlight)
            && (update.Ok? ==>
                  && id in s'.inFlight && s'.inFlight == s.inFlight[id := s'.inFlight[id]]
                  && s'.inFlight[id].Updated? && s'.inFlight[id] == Updated(name, msg, root, s'.inFlight[id].ticket))
  {
    hide UpdateDb, CanBeSlashed, StoredEntry, ApplyCheck, ApplySign, ApplyDirect, FreshKey, PublicKeyHex, FromPkHex;
    PhaseOverwritten(s, id, Checked(name, msg, root), Checked(name, msg, root));
  }

  /** The last step releases the signature or drops the request. */
  lemma EndedRun(cfg: Config, s: State, id: nat, name: string, msg: BLSSignMsg, root: Root, ticket: nat)
    requires cfg.lib.order > 0 && id in s.inFlight && s.inFlight[id] == Updated(name, msg, root, ticket)
    ensures var s' := Apply(cfg, s, SignStep(id));
            && s'.keys == s.keys && s'.files == s.files && s'.inFlight == s.inFlight - {id}
            && var signature := SignWithSavedSk(cfg.lib, s.keys, name, root);
               s'.emitted == (if signature.Ok?
                              then s.emitted + [Emission(Release(name, msg, root, signature.value), ticket)]
                              else s.emitted)
  {
    hide SignWithSavedSk, ApplyCheck, ApplyUpdate, ApplyDirect, FreshKey, PublicKeyHex, FromPkHex;
  }

  lemma NothingToSign(cfg: Config, s: State, id: nat)
    requires cfg.lib.order > 0 && id !in s.inFlight
    ensures Apply(cfg, s, SignStep(id)) == s
  {
    hide ApplyCheck, ApplyUpdate, ApplySign, ApplyDirect, FreshKey, PublicKeyHex, FromPkHex;
  }

  /** A crash loses the requests in flight and the half-done key generations, and nothing else. */
  lemma CrashForgets(cfg: Config, s: State)
    requires cfg.lib.order > 0
    ensures var s' := Apply(cfg, s, Crash);
            && s'.inFlight == map[] && s'.pendingKeys == {}
            && s'.files == s.files && s'.keys == s.keys && s'.accepted == s.accepted && s'.emitted == s.emitted
  {
    hide ApplyCheck, ApplyUpdate, ApplySign, ApplyDirect, FreshKey, PublicKeyHex, FromPkHex;
  }

  lemma PhaseDropped(s: State, s': State, id: nat)
    requires id !in s.inFlight && id in s'.inFlight && s'.inFlight == s.inFlight[id := s'.inFlight[id]]
    ensures s'.inFlight - {id} == s.inFlight
  {
  }

  /** Handling one request without interference is the four steps of that request in a row. */
  lemma HandlerIsARun(cfg: Config, s: State, id: nat, pkHex: string, msg: BLSSignMsg)
    requires cfg.lib.order > 0 && id !in s.inFlight
    ensures var s' := Apply(cfg, Apply(cfg, Apply(cfg, Apply(cfg, s,
              Arrive(id, pkHex, msg)), Check(id)), Update(id)), SignStep(id));
            var effect := Handle(cfg.lib, cfg.growable, cfg.genesis, s.files, s.keys, pkHex, msg);
            && s'.files == effect.files && s'.keys == s.keys && s'.inFlight == s.inFlight
            && |s'.emitted| == |s.emitted| + |effect.releases| && s.emitted <= s'.emitted
            && (effect.releases != [] ==> s'.emitted[|s.emitted|].release == effect.releases[0])
  {
    hide CheckDb, UpdateDb, SignWithSavedSk, ToSigningRoot, SanitizeBlsPkHex, CanBeSlashed, Advanced;
    hide ApplyCheck, ApplyUpdate, ApplySign, FreshKey;
    CheckedRun(cfg, s, id, pkHex, msg);
    var name := SanitizeBlsPkHex(pkHex);
    if !msg.Deposit? && name.Ok? {
      SignedRun(cfg, s, id, name.value, msg, ToSigningRoot(cfg.lib.hash, msg, Some(cfg.genesis)));
    }
  }
}
