/** All runs of the enclave: any number of requests in flight, their check, update and sign steps interleaved
    in any order, key generation, custody writes, signatures made without a look at any database (deposits and
    exits), and crashes between any two steps.

    One update (read, check again, write) is one step here; `SplitUpdates` takes it apart.  File writes are atomic
    and survive a crash. */
module SignerRuns {
  import opened Wrappers
  import opened Bytes
  import opened Ssz
  import opened SigningMessages
  import opened SigningRoots
  import opened SlashingProtection
  import opened Library
  import opened Signer

  datatype Config = Config(lib: Lib, growable: bool, genesis: Version)

  /** Where a request in flight stands.  An updated block or attestation request remembers which acceptance
      it owns. */
  datatype Phase =
    | Arrived(pkHex: string, msg: BLSSignMsg)
    | Checked(name: string, msg: BLSSignMsg, root: Root)
    | Updated(name: string, msg: BLSSignMsg, root: Root, ticket: nat)

  /** A database write for a block or attestation: which file, for which request, and the entry written. */
  datatype Acceptance = Acceptance(file: string, msg: BLSSignMsg, entry: Entry)

  /** A released signature and the acceptance behind it. */
  datatype Emission = Emission(release: Release, ticket: nat)

  /** Files survive a crash; requests in flight and half-done key generations do not.  The lists of
      acceptances and emissions are the history, not memory of the service. */
  datatype State = State(
    files: Files,
    keys: KeyFiles,
    inFlight: map<nat, Phase>,
    pendingKeys: set<string>,
    accepted: seq<Acceptance>,
    emitted: seq<Emission>)

  datatype Event =
    | Arrive(id: nat, pkHex: string, msg: BLSSignMsg)
    | Check(id: nat)
    | Update(id: nat)
    | SignStep(id: nat)
    | Crash
    | GenerateKey(poly: SecretKeySet)
    | CreateDatabase(name: string)
    | StoreShare(share: nat)
    | SignDirectly(pkHex: string, msg: BLSSignMsg)

  function Start(files: Files, keys: KeyFiles): State {
    State(files, keys, map[], {}, [], [])
  }

  function Drop(s: State, id: nat): State {
    s.(inFlight := s.inFlight - {id})
  }

  function Advanced(s: State, id: nat, phase: Phase): State {
    s.(inFlight := s.inFlight[id := phase])
  }

  function ApplyCheck(cfg: Config, s: State, id: nat, pkHex: string, msg: BLSSignMsg): State {
    var name := SanitizeBlsPkHex(pkHex);
    if msg.Deposit? || name.Err? || CheckDb(cfg.lib.hash, s.files, name.value, msg) != Ok(false) then Drop(s, id)
    else Advanced(s, id, Checked(name.value, msg, ToSigningRoot(cfg.lib.hash, msg, Some(cfg.genesis))))
  }

  function ApplyUpdate(cfg: Config, s: State, id: nat, name: string, msg: BLSSignMsg, root: Root): State {
    if !CanBeSlashed(msg) then Advanced(s, id, Updated(name, msg, root, 0)) else
      match UpdateDb(cfg.lib.hash, cfg.growable, s.files, name, msg)
      case Err(_) => Drop(s, id)
      case Ok(files) =>
        Advanced(s, id, Updated(name, msg, root, |s.accepted|))
          .(files := files, accepted := s.accepted + [Acceptance(Strip0x(name), msg, StoredEntry(cfg.lib.hash, msg))])
  }

  function ApplySign(cfg: Config, s: State, id: nat, name: string, msg: BLSSignMsg, root: Root, ticket: nat): State
    requires cfg.lib.order > 0
  {
    if SignWithSavedSk(cfg.lib, s.keys, name, root).Err? then Drop(s, id)
    else
      var signature := SignWithSavedSk(cfg.lib, s.keys, name, root).value;
      Drop(s, id).(emitted := s.emitted + [Emission(Release(name, msg, root, signature), ticket)])
  }

  /** What is signed straight from the key store: deposits, at key generation or on request, and exits. */
  predicate IsDirect(msg: BLSSignMsg) {
    DutyOf(msg) == MakeDeposit || DutyOf(msg) == Exit
  }

  function ApplyDirect(cfg: Config, s: State, pkHex: string, msg: BLSSignMsg): State
    requires cfg.lib.order > 0
  {
    if !IsDirect(msg) || FetchBlsSk(cfg.lib, s.keys, pkHex).Err? then s else
      var root := ToSigningRoot(cfg.lib.hash, msg, Some(cfg.genesis));
      var signature := Sign(cfg.lib, SecretKey(cfg.lib, FetchBlsSk(cfg.lib, s.keys, pkHex).value), root);
      s.(emitted := s.emitted + [Emission(Release(Strip0x(pkHex), msg, root, signature), 0)])
  }

  /** A fresh key: coefficients from the scalar field, under a name that is not in use anywhere. */
  predicate FreshKey(cfg: Config, s: State, poly: SecretKeySet)
    requires cfg.lib.order > 0
  {
    var name := PublicKeyHex(cfg.lib, PublicKey(cfg.lib, PublicKeys(cfg.lib, poly)));
    IsKeySet(cfg.lib, poly) && name !in s.keys && name !in s.files && name !in s.pendingKeys
  }

  /** The state after an event; an event that cannot happen changes nothing. */
  function Apply(cfg: Config, s: State, e: Event): State
    requires cfg.lib.order > 0
  {
    match e
    case Arrive(id, pkHex, msg) => if id in s.inFlight then s else Advanced(s, id, Arrived(pkHex, msg))
    case Check(id) =>
      if id in s.inFlight && s.inFlight[id].Arrived?
      then ApplyCheck(cfg, s, id, s.inFlight[id].pkHex, s.inFlight[id].msg) else s
    case Update(id) =>
      if id in s.inFlight && s.inFlight[id].Checked?
      then ApplyUpdate(cfg, s, id, s.inFlight[id].name, s.inFlight[id].msg, s.inFlight[id].root) else s
    case SignStep(id) =>
      if id in s.inFlight && s.inFlight[id].Updated?
      then var p := s.inFlight[id]; ApplySign(cfg, s, id, p.name, p.msg, p.root, p.ticket) else s
    case Crash => s.(inFlight := map[], pendingKeys := {})
    case GenerateKey(poly) =>
      if !FreshKey(cfg, s, poly) then s else
        var name := PublicKeyHex(cfg.lib, PublicKey(cfg.lib, PublicKeys(cfg.lib, poly)));
        s.(keys := WriteKey(s.keys, name, HexEncode(cfg.lib.skSetToBytes(poly))),
           pendingKeys := s.pendingKeys + {name})
    case CreateDatabase(name) =>
      if name !in s.pendingKeys || FromPkHex(name).Err? then s
      else s.(files := WriteData(s.files, FromPkHex(name).value), pendingKeys := s.pendingKeys - {name})
    case StoreShare(share) =>
      if IsScalar(cfg.lib, share) then s.(keys := StoreShareIn(cfg.lib, s.keys, share)) else s
    case SignDirectly(pkHex, msg) => ApplyDirect(cfg, s, pkHex, msg)
  }

  function Run(cfg: Config, s: State, events: seq<Event>): State
    requires cfg.lib.order > 0
  {
    if events == [] then s else Apply(cfg, Run(cfg, s, events[..|events| - 1]), events[|events| - 1])
  }

  // ---------------------------------------------------------------- the invariant

  /** `later` goes beyond `earlier`. */
  predicate Beyond(earlier: Entry, later: Entry) {
    match (earlier, later)
    case (BlockEntry(b), BlockEntry(c)) => b.slot < c.slot
    case (AttestationEntry(a), AttestationEntry(b)) =>
      a.sourceEpoch <= b.sourceEpoch && a.targetEpoch < b.targetEpoch
    case _ => true
  }

  lemma BeyondNeverConflicts(x: Entry, y: Entry)
    requires Beyond(x, y)
    ensures !Conflict(x, y) && !Conflict(y, x)
  {
  }

  ghost predicate FilesInv(files: Files, pendingKeys: set<string>) {
    && Framed(files)
    && pendingKeys !! files.Keys
    && forall name :: name in pendingKeys ==> |name| == 96 && IsLowerHex(name) && Strip0x(name) == name
  }

  /** Databases only move forward from where they started. */
  ghost predicate ForwardFrom(before: Files, after: Files) {
    forall name :: name in before ==> name in after && AtMost(MarkOf(before[name]), MarkOf(after[name]))
  }

  /** Every acceptance is covered by the watermark on file, lies beyond the starting database, and beyond
      every earlier acceptance for the same file. */
  ghost predicate AcceptedInv(start: Files, files: Files, accepted: seq<Acceptance>) {
    && (forall i :: 0 <= i < |accepted| ==>
          accepted[i].file in files && Below(accepted[i].entry, MarkOf(files[accepted[i].file])))
    && (forall i :: 0 <= i < |accepted| && accepted[i].file in start ==>
          Admits(MarkOf(start[accepted[i].file]), accepted[i].entry))
    && (forall i, j :: 0 <= i < j < |accepted| && accepted[i].file == accepted[j].file ==>
          Beyond(accepted[i].entry, accepted[j].entry))
  }

  /** The entry written for a request carries its claim and the root computed at the update. */
  predicate EntryInv(cfg: Config, a: Acceptance) {
    CanBeSlashed(a.msg) && a.entry == StoredEntry(cfg.lib.hash, a.msg)
  }

  predicate OwnsTicket(accepted: seq<Acceptance>, name: string, msg: BLSSignMsg, ticket: nat) {
    CanBeSlashed(msg) ==> ticket < |accepted| && accepted[ticket].file == Strip0x(name) && accepted[ticket].msg == msg
  }

  predicate IsRootOf(cfg: Config, msg: BLSSignMsg, root: Root) {
    root == ToSigningRoot(cfg.lib.hash, msg, Some(cfg.genesis))
  }

  predicate PhaseInv(cfg: Config, accepted: seq<Acceptance>, p: Phase) {
    match p
    case Arrived(_, _) => true
    case Checked(_, msg, root) => IsRootOf(cfg, msg, root)
    case Updated(name, msg, root, ticket) => IsRootOf(cfg, msg, root) && OwnsTicket(accepted, name, msg, ticket)
  }

  /** The name a block or attestation was signed under is the key's own, hence its file's name. */
  predicate EmissionInv(cfg: Config, accepted: seq<Acceptance>, e: Emission) {
    && IsRootOf(cfg, e.release.msg, e.release.root)
    && OwnsTicket(accepted, e.release.keyName, e.release.msg, e.ticket)
    && (CanBeSlashed(e.release.msg) ==> Strip0x(e.release.keyName) == e.release.keyName)
  }

  predicate Holds(s: State, id: nat, ticket: nat) {
    id in s.inFlight && s.inFlight[id].Updated? && CanBeSlashed(s.inFlight[id].msg) && s.inFlight[id].ticket == ticket
  }

  predicate Spent(s: State, i: nat, ticket: nat) {
    i < |s.emitted| && CanBeSlashed(s.emitted[i].release.msg) && s.emitted[i].ticket == ticket
  }

  /** An acceptance backs at most one request or one released signature. */
  ghost predicate TicketsInv(s: State) {
    && (forall id, id', t :: Holds(s, id, t) && Holds(s, id', t) ==> id == id')
    && (forall i, j, t :: Spent(s, i, t) && Spent(s, j, t) ==> i == j)
    && (forall id, i, t :: Holds(s, id, t) ==> !Spent(s, i, t))
  }

  ghost predicate RequestsInv(cfg: Config, s: State) {
    && (forall i :: 0 <= i < |s.accepted| ==> EntryInv(cfg, s.accepted[i]))
    && (forall id :: id in s.inFlight ==> PhaseInv(cfg, s.accepted, s.inFlight[id]))
    && (forall i :: 0 <= i < |s.emitted| ==> EmissionInv(cfg, s.accepted, s.emitted[i]))
  }

  ghost predicate Inv(cfg: Config, start: Files, s: State) {
    && FilesInv(s.files, s.pendingKeys)
    && ForwardFrom(start, s.files)
    && AcceptedInv(start, s.files, s.accepted)
    && RequestsInv(cfg, s)
    && TicketsInv(s)
  }

  // ---------------------------------------------------------------- every step keeps it

  /** Nobody holds or spends a ticket that was not held or spent before. */
  ghost predicate NoNewTickets(s: State, s': State) {
    && (forall id: nat, t: nat :: Holds(s', id, t) ==> Holds(s, id, t))
    && (forall i: nat, t: nat :: Spent(s', i, t) ==> Spent(s, i, t))
  }

  lemma DropKeeps(cfg: Config, start: Files, s: State, id: nat)
    requires Inv(cfg, start, s)
    ensures Inv(cfg, start, Drop(s, id))
  {
    hide IsRootOf, OwnsTicket, EntryInv, FilesInv, ForwardFrom, AcceptedInv;
    assert NoNewTickets(s, Drop(s, id));
  }

  /** Moving a request on without an acceptance. */
  lemma AdvanceKeeps(cfg: Config, start: Files, s: State, id: nat, p: Phase)
    requires Inv(cfg, start, s) && PhaseInv(cfg, s.accepted, p)
    requires p.Updated? ==> !CanBeSlashed(p.msg)
    ensures Inv(cfg, start, Advanced(s, id, p))
  {
    hide IsRootOf, OwnsTicket, EntryInv, FilesInv, ForwardFrom, AcceptedInv, CanBeSlashed, PhaseInv, EmissionInv;
    assert NoNewTickets(s, Advanced(s, id, p));
  }

  lemma CheckKeeps(cfg: Config, start: Files, s: State, id: nat, pkHex: string, msg: BLSSignMsg)
    requires Inv(cfg, start, s)
    ensures Inv(cfg, start, ApplyCheck(cfg, s, id, pkHex, msg))
  {
    hide ToSigningRoot, CheckDb, SanitizeBlsPkHex, Inv, Advanced, Drop;
    DropKeeps(cfg, start, s, id);
    var name := SanitizeBlsPkHex(pkHex);
    if name.Ok? {
      AdvanceKeeps(cfg, start, s, id,
                   Checked(name.value, msg, ToSigningRoot(cfg.lib.hash, msg, Some(cfg.genesis))));
    }
  }

  /** What an update does to the files: one database, read and written back under one name, moves to the
      message. */
  lemma UpdateMeaning(h: Hash, growable: bool, files: Files, name: string, msg: BLSSignMsg)
    requires Framed(files) && CanBeSlashed(msg) && UpdateDb(h, growable, files, name, msg).Ok?
    ensures var file, files', e := Strip0x(name), UpdateDb(h, growable, files, name, msg).value, StoredEntry(h, msg);
            && file in files && Admits(MarkOf(files[file]), e)
            && Record(files[file], e, growable).Ok?
            && files' == files[file := Record(files[file], e, growable).value]
            && MarkOf(files'[file]) == Advance(MarkOf(files[file]), e)
            && Framed(files') && ForwardFrom(files, files')
  {
    hide StoredEntry, CanBeSlashed;
    var file := Strip0x(name);
    var e := StoredEntry(h, msg);
    RecordRefinesWatermark(files[file], e, growable);
    WriteBackIsFramed(files, name, Record(files[file], e, growable).value);
  }

  lemma AcceptKeeps(start: Files, files: Files, files': Files, accepted: seq<Acceptance>, a: Acceptance)
    requires ForwardFrom(start, files) && ForwardFrom(files, files') && AcceptedInv(start, files, accepted)
    requires a.file in files && Admits(MarkOf(files[a.file]), a.entry)
    requires MarkOf(files'[a.file]) == Advance(MarkOf(files[a.file]), a.entry)
    ensures ForwardFrom(start, files') && AcceptedInv(start, files', accepted + [a])
  {
    hide MarkOf;
    var now := accepted + [a];
    forall i | 0 <= i < |now| ensures now[i].file in files' && Below(now[i].entry, MarkOf(files'[now[i].file])) {
      if i < |accepted| {
        assert now[i] == accepted[i] && now[i].file in files;
      }
    }
    forall i | 0 <= i < |now| && now[i].file in start ensures Admits(MarkOf(start[now[i].file]), now[i].entry) {
      if i < |accepted| {
        assert now[i] == accepted[i];
      } else {
        assert AtMost(MarkOf(start[a.file]), MarkOf(files[a.file]));
      }
    }
    forall i, j | 0 <= i < j < |now| && now[i].file == now[j].file ensures Beyond(now[i].entry, now[j].entry) {
      assert now[i] == accepted[i];
      if j < |accepted| {
        assert now[j] == accepted[j];
      } else {
        assert Below(now[i].entry, MarkOf(files[a.file]));
      }
    }
  }

  lemma UpdateKeeps(cfg: Config, start: Files, s: State, id: nat, name: string, msg: BLSSignMsg, root: Root)
    requires Inv(cfg, start, s)
    requires id in s.inFlight && s.inFlight[id] == Checked(name, msg, root)
    ensures Inv(cfg, start, ApplyUpdate(cfg, s, id, name, msg, root))
  {
    assert IsRootOf(cfg, msg, root) by { assert PhaseInv(cfg, s.accepted, s.inFlight[id]); }
    hide Inv, IsRootOf, UpdateDb, CanBeSlashed, Drop, Advanced, StoredEntry, Strip0x;
    if !CanBeSlashed(msg) {
      AdvanceKeeps(cfg, start, s, id, Updated(name, msg, root, 0));
    } else if UpdateDb(cfg.lib.hash, cfg.growable, s.files, name, msg).Err? {
      DropKeeps(cfg, start, s, id);
    } else {
      AcceptanceKeeps(cfg, start, s, id, name, msg, root);
    }
  }

  lemma AcceptanceKeeps(cfg: Config, start: Files, s: State, id: nat, name: string, msg: BLSSignMsg, root: Root)
    requires Inv(cfg, start, s) && IsRootOf(cfg, msg, root) && CanBeSlashed(msg)
    requires UpdateDb(cfg.lib.hash, cfg.growable, s.files, name, msg).Ok?
    ensures Inv(cfg, start, ApplyUpdate(cfg, s, id, name, msg, root))
  {
    hide StoredEntry, IsRootOf, AcceptedInv, ForwardFrom, MarkOf, UpdateDb, CanBeSlashed, RequestsInv, TicketsInv;
    hide Record, Strip0x, Admits, Advance, Framed;
    var s' := ApplyUpdate(cfg, s, id, name, msg, root);
    var a := Acceptance(Strip0x(name), msg, StoredEntry(cfg.lib.hash, msg));
    UpdateMeaning(cfg.lib.hash, cfg.growable, s.files, name, msg);
    AcceptKeeps(start, s.files, s'.files, s.accepted, a);
    TicketGranted(cfg, s, s', id, name, root, a);
  }

  /** The new ticket is the number of the new acceptance, which nobody else has. */
  lemma TicketGranted(cfg: Config, s: State, s': State, id: nat, name: string, root: Root, a: Acceptance)
    requires RequestsInv(cfg, s) && TicketsInv(s) && IsRootOf(cfg, a.msg, root)
    requires a.file == Strip0x(name) && EntryInv(cfg, a)
    requires s'.accepted == s.accepted + [a] && s'.emitted == s.emitted
    requires s'.inFlight == s.inFlight[id := Updated(name, a.msg, root, |s.accepted|)]
    ensures RequestsInv(cfg, s') && TicketsInv(s')
  {
    hide IsRootOf, EntryInv, Strip0x, CanBeSlashed;
    forall k | k in s'.inFlight ensures PhaseInv(cfg, s'.accepted, s'.inFlight[k]) {
      if k != id {
        assert PhaseInv(cfg, s.accepted, s.inFlight[k]);
      }
    }
    forall i | 0 <= i < |s'.emitted| ensures EmissionInv(cfg, s'.accepted, s'.emitted[i]) {
      assert EmissionInv(cfg, s.accepted, s.emitted[i]);
    }
    forall k: nat, t: nat | Holds(s', k, t)
      ensures if k == id then t == |s.accepted| else Holds(s, k, t) && t < |s.accepted|
    {
      if k != id {
        assert PhaseInv(cfg, s.accepted, s.inFlight[k]);
      }
    }
    forall i: nat, t: nat | Spent(s', i, t) ensures Spent(s, i, t) && t < |s.accepted| {
      assert EmissionInv(cfg, s.accepted, s.emitted[i]);
    }
  }

  lemma SignKeeps(cfg: Config, start: Files, s: State, id: nat, name: string, msg: BLSSignMsg, root: Root, ticket: nat)
    requires cfg.lib.order > 0
    requires Inv(cfg, start, s)
    requires id in s.inFlight && s.inFlight[id] == Updated(name, msg, root, ticket)
    ensures Inv(cfg, start, ApplySign(cfg, s, id, name, msg, root, ticket))
  {
    hide IsRootOf, EntryInv, FilesInv, ForwardFrom, AcceptedInv, CanBeSlashed, FetchBlsSk, Sign, PublicKeyHex;
    DropKeeps(cfg, start, s, id);
    if SignWithSavedSk(cfg.lib, s.keys, name, root).Ok? {
      var s' := ApplySign(cfg, s, id, name, msg, root, ticket);
      var n := |s.emitted|;
      assert PhaseInv(cfg, s.accepted, s.inFlight[id]);
      forall i | 0 <= i < |s'.emitted| ensures EmissionInv(cfg, s'.accepted, s'.emitted[i]) {
        if i < n {
          assert EmissionInv(cfg, s.accepted, s.emitted[i]);
        }
      }
      assert forall k: nat, t: nat :: Holds(s', k, t) ==> Holds(s, k, t) && k != id;
      assert forall i: nat, t: nat :: Spent(s', i, t) ==> if i < n then Spent(s, i, t) else i == n && t == ticket;
      assert CanBeSlashed(msg) ==> Holds(s, id, ticket);
    }
  }

  /** A direct signature owns no acceptance and needs none. */
  lemma DirectKeeps(cfg: Config, start: Files, s: State, pkHex: string, msg: BLSSignMsg)
    requires cfg.lib.order > 0 && Inv(cfg, start, s)
    ensures Inv(cfg, start, ApplyDirect(cfg, s, pkHex, msg))
  {
    hide EntryInv, FilesInv, ForwardFrom, AcceptedInv, FetchBlsSk, ToSigningRoot, PhaseInv, Strip0x, DutyOf;
    var s' := ApplyDirect(cfg, s, pkHex, msg);
    if IsDirect(msg) {
      SlashableDuty(msg);
      forall i | 0 <= i < |s'.emitted| ensures EmissionInv(cfg, s'.accepted, s'.emitted[i]) {
        if i < |s.emitted| {
          assert EmissionInv(cfg, s.accepted, s.emitted[i]);
        }
      }
      assert NoNewTickets(s, s');
    }
  }

  lemma SlashableDuty(msg: BLSSignMsg)
    ensures CanBeSlashed(msg) <==> DutyOf(msg) == Propose || DutyOf(msg) == Attest
  {
  }

  /** A new file, under a name no file had, concerns no earlier acceptance. */
  lemma NewFileKeeps(start: Files, files: Files, accepted: seq<Acceptance>, name: string, d: Data)
    requires ForwardFrom(start, files) && AcceptedInv(start, files, accepted) && name !in files
    ensures ForwardFrom(start, files[name := d]) && AcceptedInv(start, files[name := d], accepted)
  {
    hide MarkOf, Admits, Below, Beyond;
  }

  /** A step that leaves the history alone and at most adds a new arrival. */
  lemma QuietStepKeeps(cfg: Config, start: Files, s: State, s': State)
    requires Inv(cfg, start, s)
    requires s'.accepted == s.accepted && s'.emitted == s.emitted
    requires forall id :: id in s'.inFlight ==>
               s'.inFlight[id].Arrived? || (id in s.inFlight && s'.inFlight[id] == s.inFlight[id])
    requires FilesInv(s'.files, s'.pendingKeys)
    requires ForwardFrom(start, s'.files) && AcceptedInv(start, s'.files, s'.accepted)
    ensures Inv(cfg, start, s')
  {
    hide IsRootOf, EntryInv, OwnsTicket, ForwardFrom, AcceptedInv, FilesInv;
    assert NoNewTickets(s, s');
  }

  lemma DatabaseKeeps(cfg: Config, start: Files, s: State, name: string)
    requires cfg.lib.order > 0
    requires Inv(cfg, start, s)
    ensures Inv(cfg, start, Apply(cfg, s, CreateDatabase(name)))
  {
    hide RequestsInv, TicketsInv, ForwardFrom, AcceptedInv, FromPkHex, HexEncode;
    hide ApplyCheck, ApplyUpdate, ApplySign, ApplyDirect, FreshKey, PublicKeyHex, StoreShareIn, WriteKey;
    if name in s.pendingKeys && FromPkHex(name).Ok? {
      FromPkHexNamesItself(name);
      NewFileKeeps(start, s.files, s.accepted, name, FromPkHex(name).value);
    }
    QuietStepKeeps(cfg, start, s, Apply(cfg, s, CreateDatabase(name)));
  }

  lemma CrashKeeps(cfg: Config, start: Files, s: State)
    requires cfg.lib.order > 0
    requires Inv(cfg, start, s)
    ensures Inv(cfg, start, Apply(cfg, s, Crash))
  {
    hide RequestsInv, TicketsInv, ForwardFrom, AcceptedInv, Framed;
    hide ApplyCheck, ApplyUpdate, ApplySign, ApplyDirect, FreshKey, PublicKeyHex, FromPkHex, StoreShareIn;
    QuietStepKeeps(cfg, start, s, Apply(cfg, s, Crash));
  }

  lemma GenerateKeyKeeps(cfg: Config, start: Files, s: State, poly: SecretKeySet)
    requires cfg.lib.order > 0
    requires Inv(cfg, start, s)
    ensures Inv(cfg, start, Apply(cfg, s, GenerateKey(poly)))
  {
    hide RequestsInv, TicketsInv, ForwardFrom, AcceptedInv, PublicKeyHex, HexEncode, WriteKey, Framed;
    hide ApplyCheck, ApplyUpdate, ApplySign, ApplyDirect, FromPkHex, StoreShareIn, PublicKey, PublicKeys, IsKeySet;
    QuietStepKeeps(cfg, start, s, Apply(cfg, s, GenerateKey(poly)));
  }

  lemma StepKeeps(cfg: Config, start: Files, s: State, e: Event)
    requires cfg.lib.order > 0
    requires Inv(cfg, start, s)
    ensures Inv(cfg, start, Apply(cfg, s, e))
  {
    hide RequestsInv, TicketsInv, ForwardFrom, AcceptedInv, FilesInv;
    hide ApplyCheck, ApplyUpdate, ApplySign, ApplyDirect, FreshKey, WriteData, FromPkHex, PublicKeyHex;
    match e
    case Check(id) =>
      if id in s.inFlight && s.inFlight[id].Arrived? {
        CheckKeeps(cfg, start, s, id, s.inFlight[id].pkHex, s.inFlight[id].msg);
      }
    case Update(id) =>
      if id in s.inFlight && s.inFlight[id].Checked? {
        var p := s.inFlight[id];
        UpdateKeeps(cfg, start, s, id, p.name, p.msg, p.root);
      }
    case SignStep(id) =>
      if id in s.inFlight && s.inFlight[id].Updated? {
        var p := s.inFlight[id];
        SignKeeps(cfg, start, s, id, p.name, p.msg, p.root, p.ticket);
      }
    case CreateDatabase(name) => DatabaseKeeps(cfg, start, s, name);
    case GenerateKey(poly) => GenerateKeyKeeps(cfg, start, s, poly);
    case Arrive(_, _, _) => QuietStepKeeps(cfg, start, s, Apply(cfg, s, e));
    case StoreShare(_) => QuietStepKeeps(cfg, start, s, Apply(cfg, s, e));
    case Crash => CrashKeeps(cfg, start, s);
    case SignDirectly(pkHex, msg) => DirectKeeps(cfg, start, s, pkHex, msg);
  }

  /** The invariant holds in every state of every run, whatever databases and keys it starts with. */
  lemma {:induction false} RunKeeps(cfg: Config, files: Files, keys: KeyFiles, events: seq<Event>)
    requires cfg.lib.order > 0
    requires Framed(files)
    ensures Inv(cfg, files, Run(cfg, Start(files, keys), events))
  {
    hide Apply;
    if events != [] {
      var n := |events| - 1;
      RunKeeps(cfg, files, keys, events[..n]);
      StepKeeps(cfg, files, Run(cfg, Start(files, keys), events[..n]), events[n]);
    }
  }
}
