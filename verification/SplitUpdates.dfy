/** The update of the slashing protection database as it really is: a read, and later a write of what was read,
    with nothing to keep another request out in between.

    If no two such windows on one file are ever open at the same time, the service behaves as if every update
    were one step, and everything proved of `SignerRuns` holds.  What overlapping windows can do is the subject of
    `Races` and `OverlapSafety`. */
module SplitUpdates {
  import opened Wrappers
  import opened Bytes
  import opened Ssz
  import opened SigningMessages
  import opened SigningRoots
  import opened SlashingProtection
  import opened Library
  import opened Signer
  import opened SignerRuns
  import opened SignerSafety

  // ---------------------------------------------------------------- the system

  /** A database read by a request that has not written it back yet. */
  datatype Window = Window(file: string, data: Data)

  datatype SplitState = SplitState(base: State, windows: map<nat, Window>)

  /** Read and write belong to one update of a block or attestation request; everything else is as before. */
  datatype SplitEvent = Other(event: Event) | Read(id: nat) | Write(id: nat)

  predicate AwaitsUpdate(s: State, id: nat) {
    id in s.inFlight && s.inFlight[id].Checked? && CanBeSlashed(s.inFlight[id].msg)
  }

  /** Checks what was read again, records in it, and writes it. */
  function Written(cfg: Config, s: State, id: nat, data: Data): State
    requires AwaitsUpdate(s, id)
  {
    var p := s.inFlight[id];
    var entry := StoredEntry(cfg.lib.hash, p.msg);
    match Record(data, entry, cfg.growable)
    case Err(_) => Drop(s, id)
    case Ok(recorded) =>
      Advanced(s, id, Updated(p.name, p.msg, p.root, |s.accepted|))
        .(files := WriteData(s.files, recorded), accepted := s.accepted + [Acceptance(Strip0x(p.name), p.msg, entry)])
  }

  function ApplyRead(s: SplitState, id: nat): SplitState {
    if id in s.windows || !AwaitsUpdate(s.base, id) then s else
      var name := s.base.inFlight[id].name;
      match ReadData(s.base.files, name)
      case Err(_) => s.(base := Drop(s.base, id))
      case Ok(data) => s.(windows := s.windows[id := Window(Strip0x(name), data)])
  }

  function ApplyWrite(cfg: Config, s: SplitState, id: nat): SplitState {
    if id !in s.windows || !AwaitsUpdate(s.base, id) then s
    else SplitState(Written(cfg, s.base, id, s.windows[id].data), s.windows - {id})
  }

  function ApplySplit(cfg: Config, s: SplitState, e: SplitEvent): SplitState
    requires cfg.lib.order > 0
  {
    match e
    case Other(event) =>
      if event.Update? && AwaitsUpdate(s.base, event.id) then s
      else SplitState(Apply(cfg, s.base, event), if event.Crash? then map[] else s.windows)
    case Read(id) => ApplyRead(s, id)
    case Write(id) => ApplyWrite(cfg, s, id)
  }

  function SplitRun(cfg: Config, s: SplitState, events: seq<SplitEvent>): SplitState
    requires cfg.lib.order > 0
  {
    if events == [] then s
    else ApplySplit(cfg, SplitRun(cfg, s, events[..|events| - 1]), events[|events| - 1])
  }

  function SplitStart(files: Files, keys: KeyFiles): SplitState {
    SplitState(Start(files, keys), map[])
  }

  // ---------------------------------------------------------------- separate windows

  /** No file is between read and write for two requests. */
  ghost predicate Separate(windows: map<nat, Window>) {
    forall i, j :: i in windows && j in windows && i != j ==> windows[i].file != windows[j].file
  }

  /** At no time do two windows of one file overlap. */
  ghost predicate NeverOverlap(cfg: Config, s: SplitState, events: seq<SplitEvent>)
    requires cfg.lib.order > 0
  {
    forall n: nat :: n <= |events| ==> Separate(SplitRun(cfg, s, events[..n]).windows)
  }

  /** What was read is still what is on file. */
  predicate Current(s: State, id: nat, w: Window) {
    && AwaitsUpdate(s, id)
    && w.file == Strip0x(s.inFlight[id].name)
    && w.file in s.files && s.files[w.file] == w.data
  }

  ghost predicate AllCurrent(s: SplitState) {
    forall id :: id in s.windows ==> Current(s.base, id, s.windows[id])
  }

  /** An update of current data is an update in one step. */
  lemma WrittenIsUpdate(cfg: Config, s: State, id: nat, w: Window)
    requires cfg.lib.order > 0 && Current(s, id, w)
    ensures Written(cfg, s, id, w.data) == Apply(cfg, s, Update(id))
  {
    hide Record, StoredEntry, WriteData, Strip0x, CanBeSlashed, ApplyCheck, ApplySign, ApplyDirect, FreshKey;
  }

  lemma FailedReadIsUpdate(cfg: Config, s: State, id: nat)
    requires cfg.lib.order > 0 && AwaitsUpdate(s, id) && ReadData(s.files, s.inFlight[id].name).Err?
    ensures Drop(s, id) == Apply(cfg, s, Update(id))
  {
    hide Record, StoredEntry, WriteData, Strip0x, CanBeSlashed, ApplyCheck, ApplySign, ApplyDirect, FreshKey;
  }

  /** A request that awaits its update is left alone by every other step but a crash. */
  lemma OthersWait(cfg: Config, s: State, e: Event, id: nat)
    requires cfg.lib.order > 0 && AwaitsUpdate(s, id) && !e.Crash? && e != Update(id)
    ensures var s' := Apply(cfg, s, e); id in s'.inFlight && s'.inFlight[id] == s.inFlight[id]
  {
    hide CheckDb, UpdateDb, SanitizeBlsPkHex, ToSigningRoot, SignWithSavedSk, PublicKeyHex, StoredEntry, FetchBlsSk;
    hide CanBeSlashed, HexEncode, PublicKey, PublicKeys, PointOf, FromPkHex, FreshKey, WriteData, StoreShareIn;
  }

  /** Other steps leave what was read as it is on file. */
  lemma OthersKeepCurrent(cfg: Config, start: Files, s: State, e: Event, id: nat, w: Window)
    requires cfg.lib.order > 0 && Inv(cfg, start, s) && Current(s, id, w)
    requires !e.Crash? && !(e.Update? && AwaitsUpdate(s, e.id))
    ensures Current(Apply(cfg, s, e), id, w)
  {
    OthersWait(cfg, s, e, id);
    hide Apply, CanBeSlashed, Strip0x, UpdateDb, RequestsInv, TicketsInv, AcceptedInv, ForwardFrom;
    if e.Update? {
      UpdateLeavesOrRecords(cfg, s, e);
    } else if e.CreateDatabase? {
      CreationAddsOrLeaves(cfg, s, e);
    } else {
      OtherStepsLeaveFiles(cfg, s, e);
    }
  }

  lemma UpdateLeavesOtherFiles(cfg: Config, start: Files, s: State, done: nat, file: string)
    requires cfg.lib.order > 0 && Inv(cfg, start, s) && AwaitsUpdate(s, done)
    requires file in s.files && file != Strip0x(s.inFlight[done].name)
    ensures var s' := Apply(cfg, s, Update(done)); file in s'.files && s'.files[file] == s.files[file]
  {
    assert Framed(s.files);
    hide *;
    UpdateLeavesOrRecords(cfg, s, Update(done));
    UpdateOfOneFile(cfg, s, done, file);
  }

  lemma UpdateOfOneFile(cfg: Config, s: State, done: nat, file: string)
    requires cfg.lib.order > 0 && Framed(s.files) && AwaitsUpdate(s, done)
    requires file in s.files && file != Strip0x(s.inFlight[done].name)
    ensures var p := s.inFlight[done];
            var r := UpdateDb(cfg.lib.hash, cfg.growable, s.files, p.name, p.msg);
            && (UpdateAccepted(cfg, s, Update(done)) <==> r.Ok?)
            && (r.Ok? ==> file in r.value && r.value[file] == s.files[file])
  {
    var p := s.inFlight[done];
    hide Framed, CanBeSlashed, Strip0x, UpdateDb, Record, MarkOf, StoredEntry, ForwardFrom, Admits, Advance;
    if UpdateDb(cfg.lib.hash, cfg.growable, s.files, p.name, p.msg).Ok? {
      UpdateMeaning(cfg.lib.hash, cfg.growable, s.files, p.name, p.msg);
    }
  }

  /** So does the update of a request whose window is on another file. */
  lemma UpdateKeepsOthersCurrent(cfg: Config, start: Files, s: State, done: nat, v: Window, id: nat, w: Window)
    requires cfg.lib.order > 0 && Inv(cfg, start, s) && Current(s, done, v) && Current(s, id, w)
    requires id != done && v.file != w.file
    ensures Current(Apply(cfg, s, Update(done)), id, w)
  {
    OthersWait(cfg, s, Update(done), id);
    UpdateLeavesOtherFiles(cfg, start, s, done, w.file);
    hide Apply, Inv, CanBeSlashed, Strip0x;
  }

  /** One step with separate windows is at most one step of the simpler system. */
  lemma StepIsAtomic(cfg: Config, start: Files, s: SplitState, e: SplitEvent) returns (atomic: seq<Event>)
    requires cfg.lib.order > 0 && Inv(cfg, start, s.base) && AllCurrent(s) && Separate(s.windows)
    ensures var s' := ApplySplit(cfg, s, e);
            && |atomic| <= 1
            && s'.base == (if atomic == [] then s.base else Apply(cfg, s.base, atomic[0]))
            && AllCurrent(s')
  {
    hide Apply, Written, Inv, Current, CanBeSlashed, Strip0x;
    atomic := [];
    match e
    case Other(event) =>
      if !(event.Update? && AwaitsUpdate(s.base, event.id)) {
        atomic := [event];
        forall id | id in s.windows && !event.Crash? ensures Current(Apply(cfg, s.base, event), id, s.windows[id]) {
          OthersKeepCurrent(cfg, start, s.base, event, id, s.windows[id]);
        }
      }
    case Read(id) =>
      if id !in s.windows && AwaitsUpdate(s.base, id) {
        if ReadData(s.base.files, s.base.inFlight[id].name).Err? {
          atomic := [Update(id)];
          FailedReadIsUpdate(cfg, s.base, id);
          forall k | k in s.windows ensures Current(Drop(s.base, id), k, s.windows[k]) {
            DropKeepsCurrent(s.base, id, k, s.windows[k]);
          }
        } else {
          ReadIsCurrent(s.base, id);
        }
      }
    case Write(id) =>
      if id in s.windows && AwaitsUpdate(s.base, id) {
        atomic := [Update(id)];
        WrittenIsUpdate(cfg, s.base, id, s.windows[id]);
        forall k | k in s.windows && k != id ensures Current(Apply(cfg, s.base, Update(id)), k, s.windows[k]) {
          UpdateKeepsOthersCurrent(cfg, start, s.base, id, s.windows[id], k, s.windows[k]);
        }
      }
  }

  lemma DropKeepsCurrent(s: State, gone: nat, id: nat, w: Window)
    requires Current(s, id, w) && id != gone
    ensures Current(Drop(s, gone), id, w)
  {
  }

  lemma ReadIsCurrent(s: State, id: nat)
    requires AwaitsUpdate(s, id) && ReadData(s.files, s.inFlight[id].name).Ok?
    ensures Current(s, id, Window(Strip0x(s.inFlight[id].name), ReadData(s.files, s.inFlight[id].name).value))
  {
  }

  lemma RunAppend(cfg: Config, s: State, events: seq<Event>, e: Event)
    requires cfg.lib.order > 0
    ensures Run(cfg, s, events + [e]) == Apply(cfg, Run(cfg, s, events), e)
  {
    assert (events + [e])[..|events|] == events;
  }

  /** A run whose windows never overlap is a run with updates in one step. */
  lemma {:induction false} SeparateRunIsAtomic(cfg: Config, files: Files, keys: KeyFiles, events: seq<SplitEvent>)
    returns (atomic: seq<Event>)
    requires cfg.lib.order > 0 && Framed(files) && NeverOverlap(cfg, SplitStart(files, keys), events)
    ensures var s := SplitRun(cfg, SplitStart(files, keys), events);
            s.base == Run(cfg, Start(files, keys), atomic) && AllCurrent(s)
    decreases |events|
  {
    hide ApplySplit, Apply, Current, Framed, Separate;
    atomic := [];
    if events != [] {
      var n := |events| - 1;
      forall m: nat | m <= n
        ensures Separate(SplitRun(cfg, SplitStart(files, keys), events[..n][..m]).windows)
      {
        assert events[..n][..m] == events[..m];
      }
      atomic := SeparateRunIsAtomic(cfg, files, keys, events[..n]);
      var s := SplitRun(cfg, SplitStart(files, keys), events[..n]);
      assert Separate(s.windows);
      RunKeeps(cfg, files, keys, atomic);
      var step := StepIsAtomic(cfg, files, s, events[n]);
      if step != [] {
        RunAppend(cfg, Start(files, keys), atomic, step[0]);
        atomic := atomic + step;
      }
    }
  }

  /** With reads and writes apart: as long as no two windows of one file overlap, no key releases slashable
      votes. */
  lemma NoSlashableVotesUnlessOverlap(cfg: Config, files: Files, keys: KeyFiles, events: seq<SplitEvent>,
                                      i: nat, j: nat, a: AttestationData, da: Domain, b: AttestationData, db: Domain,
                                      inputs: set<(Bytes32, Bytes32)>)
    requires cfg.lib.order > 0 && Framed(files) && NeverOverlap(cfg, SplitStart(files, keys), events)
    requires da[..4] == DOMAIN_BEACON_ATTESTER && db[..4] == DOMAIN_BEACON_ATTESTER
    requires var emitted := SplitRun(cfg, SplitStart(files, keys), events).base.emitted;
             && OfOneKey(emitted, i, j)
             && SignedRoot(cfg, emitted, i, a.ToTree(), da, inputs)
             && SignedRoot(cfg, emitted, j, b.ToTree(), db, inputs)
    requires CollisionFree(cfg.lib.hash, inputs)
    ensures !IsSlashableAttestationData(a, b)
  {
    hide *;
    var atomic := SeparateRunIsAtomic(cfg, files, keys, events);
    NoSlashableVotes(cfg, files, keys, atomic, i, j, a, da, b, db, inputs);
  }

  /** Nor two proposals for one slot. */
  lemma NoDoubleProposalsUnlessOverlap(cfg: Config, files: Files, keys: KeyFiles, events: seq<SplitEvent>,
                                       i: nat, j: nat, a: BeaconBlockHeader, da: Domain, b: BeaconBlockHeader,
                                       db: Domain, inputs: set<(Bytes32, Bytes32)>)
    requires cfg.lib.order > 0 && Framed(files) && NeverOverlap(cfg, SplitStart(files, keys), events)
    requires da[..4] == DOMAIN_BEACON_PROPOSER && db[..4] == DOMAIN_BEACON_PROPOSER
    requires var emitted := SplitRun(cfg, SplitStart(files, keys), events).base.emitted;
             && OfOneKey(emitted, i, j)
             && SignedRoot(cfg, emitted, i, a.ToTree(), da, inputs)
             && SignedRoot(cfg, emitted, j, b.ToTree(), db, inputs)
    requires CollisionFree(cfg.lib.hash, inputs)
    ensures !IsDoubleProposal(a, b)
  {
    hide *;
    var atomic := SeparateRunIsAtomic(cfg, files, keys, events);
    NoDoubleProposals(cfg, files, keys, atomic, i, j, a, da, b, db, inputs);
  }
}
