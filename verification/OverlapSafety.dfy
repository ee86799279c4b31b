/** Exactly when overlapping updates can lead to a slashable pair of signatures, and what survives overlap: the
    database of a key never falls below where it started. */
module OverlapSafety {
  import opened Wrappers
  import opened Bytes
  import opened Ssz
  import opened SigningMessages
  import opened SigningRoots
  import opened SlashingProtection
  import opened Library
  import opened Signer
  import opened SignerRuns
  import opened SignerSafety
  import opened SplitUpdates
  import opened Races

  // ---------------------------------------------------------------- an invariant of every run, with any overlaps

  /** Of the requests for the key `name`: all were asked for, and those past the update are admitted by `w`. */
  ghost predicate PhaseBound(cfg: Config, w: Watermark, name: string, asked: iset<BLSSignMsg>, p: Phase) {
    match p
    case Arrived(pkHex, msg) => SanitizeBlsPkHex(pkHex) == Ok(name) ==> msg in asked
    case Checked(n, msg, root) => IsRootOf(cfg, msg, root) && (n == name ==> msg in asked)
    case Updated(n, msg, root, _) => RequestBound(cfg, w, name, asked, n, msg, root)
  }

  ghost predicate RequestBound(cfg: Config, w: Watermark, name: string, asked: iset<BLSSignMsg>, n: string,
                               msg: BLSSignMsg, root: Root)
  {
    && IsRootOf(cfg, msg, root)
    && (n == name && CanBeSlashed(msg) ==> msg in asked && Admits(w, StoredEntry(cfg.lib.hash, msg)))
  }

  ghost predicate Bound(cfg: Config, w: Watermark, name: string, asked: iset<BLSSignMsg>, r: Release) {
    RequestBound(cfg, w, name, asked, r.keyName, r.msg, r.root)
  }

  /** What was read is a database of the file it was read from; of the file `name`, it was at or above `w`. */
  predicate WindowBound(w: Watermark, name: string, s: State, id: nat, v: Window) {
    && AwaitsUpdate(s, id)
    && v.file == Strip0x(s.inFlight[id].name) && v.file in s.files && FileName(v.data) == v.file
    && (v.file == name ==> AtMost(w, MarkOf(v.data)))
  }

  predicate FileBound(w: Watermark, name: string, files: Files) {
    name in files && AtMost(w, MarkOf(files[name]))
  }

  ghost predicate OverlapInv(cfg: Config, w: Watermark, name: string, asked: iset<BLSSignMsg>, s: SplitState) {
    && FilesInv(s.base.files, s.base.pendingKeys) && FileBound(w, name, s.base.files)
    && (forall id :: id in s.base.inFlight ==> PhaseBound(cfg, w, name, asked, s.base.inFlight[id]))
    && (forall id :: id in s.windows ==> WindowBound(w, name, s.base, id, s.windows[id]))
    && (forall i :: 0 <= i < |s.base.emitted| ==> Bound(cfg, w, name, asked, s.base.emitted[i].release))
  }

  /** The event does not bring a request for `name` that is not among those asked for. */
  ghost predicate Asks(e: SplitEvent, name: string, asked: iset<BLSSignMsg>) {
    e.Other? && e.event.Arrive? && SanitizeBlsPkHex(e.event.pkHex) == Ok(name) ==> e.event.msg in asked
  }

  ghost predicate AsksOnly(events: seq<SplitEvent>, name: string, asked: iset<BLSSignMsg>) {
    forall i :: 0 <= i < |events| ==> Asks(events[i], name, asked)
  }

  // ---------------------------------------------------------------- steps other than an update's

  /** An update that awaits its read and write is no such step. */
  predicate IsPlain(s: State, e: Event) {
    !(e.Update? && AwaitsUpdate(s, e.id))
  }

  lemma PlainKeepsFiles(cfg: Config, s: State, e: Event, file: string)
    requires cfg.lib.order > 0 && IsPlain(s, e) && FilesInv(s.files, s.pendingKeys) && file in s.files
    ensures var s' := Apply(cfg, s, e); file in s'.files && s'.files[file] == s.files[file]
  {
    hide Apply, CanBeSlashed, UpdateDb, FilesInv;
    if e.Update? {
      UpdateLeavesOrRecords(cfg, s, e);
    } else if e.CreateDatabase? {
      CreationAddsOrLeaves(cfg, s, e);
    } else {
      OtherStepsLeaveFiles(cfg, s, e);
    }
  }

  lemma PlainKeepsFilesInv(cfg: Config, s: State, e: Event)
    requires cfg.lib.order > 0 && IsPlain(s, e) && FilesInv(s.files, s.pendingKeys)
    ensures var s' := Apply(cfg, s, e); FilesInv(s'.files, s'.pendingKeys)
  {
    if e.CreateDatabase? {
      CreationKeepsFilesInv(cfg, s, e.name);
    } else if e.GenerateKey? {
      GenerationKeepsFilesInv(cfg, s, e.poly);
    } else {
      PendingStays(cfg, s, e);
      hide Apply, CanBeSlashed, UpdateDb;
      if e.Update? {
        UpdateLeavesOrRecords(cfg, s, e);
      } else {
        OtherStepsLeaveFiles(cfg, s, e);
      }
    }
  }

  lemma PendingStays(cfg: Config, s: State, e: Event)
    requires cfg.lib.order > 0 && !e.CreateDatabase? && !e.GenerateKey?
    ensures Apply(cfg, s, e).pendingKeys <= s.pendingKeys
  {
    hide CheckDb, UpdateDb, SanitizeBlsPkHex, ToSigningRoot, SignWithSavedSk, PublicKeyHex, StoredEntry, FetchBlsSk;
    hide CanBeSlashed, FreshKey, WriteData, StoreShareIn, FromPkHex, DutyOf, Strip0x;
  }

  lemma CreationKeepsFilesInv(cfg: Config, s: State, name: string)
    requires cfg.lib.order > 0 && FilesInv(s.files, s.pendingKeys)
    ensures var s' := Apply(cfg, s, CreateDatabase(name)); FilesInv(s'.files, s'.pendingKeys)
  {
    hide FromPkHex, HexEncode, ApplyCheck, ApplyUpdate, ApplySign, ApplyDirect, FreshKey, PublicKeyHex, StoreShareIn;
    if name in s.pendingKeys && FromPkHex(name).Ok? {
      FromPkHexNamesItself(name);
    }
  }

  lemma GenerationKeepsFilesInv(cfg: Config, s: State, poly: SecretKeySet)
    requires cfg.lib.order > 0 && FilesInv(s.files, s.pendingKeys)
    ensures var s' := Apply(cfg, s, GenerateKey(poly)); FilesInv(s'.files, s'.pendingKeys)
  {
    hide PublicKeyHex, HexEncode, WriteKey, Framed, ApplyCheck, ApplyUpdate, ApplySign, ApplyDirect, FromPkHex;
    hide StoreShareIn, PublicKey, PublicKeys, IsKeySet;
  }

  lemma PlainKeepsPhases(cfg: Config, w: Watermark, name: string, asked: iset<BLSSignMsg>, s: State, e: Event, id: nat)
    requires cfg.lib.order > 0 && IsPlain(s, e) && Asks(Other(e), name, asked)
    requires id in s.inFlight ==> PhaseBound(cfg, w, name, asked, s.inFlight[id])
    requires id in Apply(cfg, s, e).inFlight
    ensures PhaseBound(cfg, w, name, asked, Apply(cfg, s, e).inFlight[id])
  {
    hide CheckDb, UpdateDb, SanitizeBlsPkHex, ToSigningRoot, SignWithSavedSk, PublicKeyHex, StoredEntry, FetchBlsSk;
    hide CanBeSlashed, FreshKey, WriteData, StoreShareIn, FromPkHex, DutyOf, Admits, Strip0x;
  }

  lemma PlainKeepsEmitted(cfg: Config, w: Watermark, name: string, asked: iset<BLSSignMsg>, s: State, e: Event)
    requires cfg.lib.order > 0 && IsPlain(s, e)
    requires forall id :: id in s.inFlight ==> PhaseBound(cfg, w, name, asked, s.inFlight[id])
    requires forall i :: 0 <= i < |s.emitted| ==> Bound(cfg, w, name, asked, s.emitted[i].release)
    ensures var emitted := Apply(cfg, s, e).emitted;
            forall i :: 0 <= i < |emitted| ==> Bound(cfg, w, name, asked, emitted[i].release)
  {
    if e.SignDirectly? {
      SlashableDuty(e.msg);
    }
    hide CheckDb, UpdateDb, SanitizeBlsPkHex, ToSigningRoot, SignWithSavedSk, PublicKeyHex, StoredEntry, FetchBlsSk;
    hide CanBeSlashed, FreshKey, WriteData, StoreShareIn, FromPkHex, DutyOf, Admits, Strip0x;
  }

  lemma PlainKeeps(cfg: Config, w: Watermark, name: string, asked: iset<BLSSignMsg>, s: SplitState, e: Event)
    requires cfg.lib.order > 0 && IsPlain(s.base, e) && Asks(Other(e), name, asked)
    requires OverlapInv(cfg, w, name, asked, s)
    ensures OverlapInv(cfg, w, name, asked, ApplySplit(cfg, s, Other(e)))
  {
    hide Apply, PhaseBound, Bound, FilesInv, CanBeSlashed, Strip0x, FileName, MarkOf, AtMost, Asks;
    var base := Apply(cfg, s.base, e);
    PlainKeepsFilesInv(cfg, s.base, e);
    PlainKeepsFiles(cfg, s.base, e, name);
    PlainKeepsEmitted(cfg, w, name, asked, s.base, e);
    forall id | id in base.inFlight ensures PhaseBound(cfg, w, name, asked, base.inFlight[id]) {
      PlainKeepsPhases(cfg, w, name, asked, s.base, e, id);
    }
    forall id | id in s.windows && !e.Crash? ensures WindowBound(w, name, base, id, s.windows[id]) {
      assert WindowBound(w, name, s.base, id, s.windows[id]);
      OthersWait(cfg, s.base, e, id);
      PlainKeepsFiles(cfg, s.base, e, s.windows[id].file);
    }
  }

  // ---------------------------------------------------------------- reads and writes

  lemma ReadKeeps(cfg: Config, w: Watermark, name: string, asked: iset<BLSSignMsg>, s: SplitState, id: nat)
    requires OverlapInv(cfg, w, name, asked, s)
    ensures OverlapInv(cfg, w, name, asked, ApplyRead(s, id))
  {
    hide PhaseBound, Bound, CanBeSlashed, Strip0x, FileName, MarkOf, AtMost;
    var s' := ApplyRead(s, id);
    forall k | k in s'.windows ensures WindowBound(w, name, s'.base, k, s'.windows[k]) {
      if k in s.windows {
        assert WindowBound(w, name, s.base, k, s.windows[k]);
      }
    }
  }

  /** Writing what was read keeps every file under its name, touches one file only, and moves beyond what was read. */
  lemma WriteMeaning(files: Files, v: Window, e: Entry, growable: bool)
    requires Framed(files) && v.file in files && FileName(v.data) == v.file && Record(v.data, e, growable).Ok?
    ensures var recorded := Record(v.data, e, growable).value;
            && WriteData(files, recorded) == files[v.file := recorded] && Framed(WriteData(files, recorded))
            && Admits(MarkOf(v.data), e) && AtMost(MarkOf(v.data), MarkOf(recorded))
  {
    RecordRefinesWatermark(v.data, e, growable);
    hide MarkOf, Record;
  }

  lemma AdmitsBelow(v: Watermark, w: Watermark, e: Entry)
    requires AtMost(v, w) && Admits(w, e)
    ensures Admits(v, e)
  {
  }

  lemma WriteKeeps(cfg: Config, w: Watermark, name: string, asked: iset<BLSSignMsg>, s: SplitState, id: nat)
    requires Strip0x(name) == name
    requires OverlapInv(cfg, w, name, asked, s) && id in s.windows
    ensures OverlapInv(cfg, w, name, asked, ApplyWrite(cfg, s, id))
  {
    assert WindowBound(w, name, s.base, id, s.windows[id]);
    assert PhaseBound(cfg, w, name, asked, s.base.inFlight[id]);
    var entry := StoredEntry(cfg.lib.hash, s.base.inFlight[id].msg);
    if Record(s.windows[id].data, entry, cfg.growable).Err? {
      FailedWriteKeeps(cfg, w, name, asked, s, id);
    } else {
      RecordedWriteKeeps(cfg, w, name, asked, s, id);
    }
  }

  lemma FailedWriteKeeps(cfg: Config, w: Watermark, name: string, asked: iset<BLSSignMsg>, s: SplitState, id: nat)
    requires OverlapInv(cfg, w, name, asked, s) && id in s.windows && AwaitsUpdate(s.base, id)
    requires Record(s.windows[id].data, StoredEntry(cfg.lib.hash, s.base.inFlight[id].msg), cfg.growable).Err?
    ensures OverlapInv(cfg, w, name, asked, ApplyWrite(cfg, s, id))
  {
    hide PhaseBound, Bound, FilesInv, FileBound, CanBeSlashed, Strip0x, FileName, MarkOf, AtMost, Record, StoredEntry;
    var s' := ApplyWrite(cfg, s, id);
    forall k | k in s'.windows ensures WindowBound(w, name, s'.base, k, s'.windows[k]) {
      assert WindowBound(w, name, s.base, k, s.windows[k]);
    }
  }

  lemma RecordedWriteKeeps(cfg: Config, w: Watermark, name: string, asked: iset<BLSSignMsg>, s: SplitState, id: nat)
    requires Strip0x(name) == name
    requires OverlapInv(cfg, w, name, asked, s) && id in s.windows && AwaitsUpdate(s.base, id)
    requires Record(s.windows[id].data, StoredEntry(cfg.lib.hash, s.base.inFlight[id].msg), cfg.growable).Ok?
    ensures OverlapInv(cfg, w, name, asked, ApplyWrite(cfg, s, id))
  {
    assert WindowBound(w, name, s.base, id, s.windows[id]) && PhaseBound(cfg, w, name, asked, s.base.inFlight[id]);
    assert FilesInv(s.base.files, s.base.pendingKeys) && Framed(s.base.files) && FileBound(w, name, s.base.files);
    var recorded := Record(s.windows[id].data, StoredEntry(cfg.lib.hash, s.base.inFlight[id].msg), cfg.growable).value;
    hide *;
    WrittenFiles(cfg, w, name, s, id);
    WrittenPhase(cfg, w, name, asked, s, id);
    WrittenState(cfg, s, id, recorded);
    MovedKeeps(cfg, w, name, asked, s, ApplyWrite(cfg, s, id), id);
  }

  /** One request moved on and closed its window; the files grew or stayed. */
  lemma MovedKeeps(cfg: Config, w: Watermark, name: string, asked: iset<BLSSignMsg>, s: SplitState, s': SplitState,
                   id: nat)
    requires OverlapInv(cfg, w, name, asked, s)
    requires FilesInv(s'.base.files, s'.base.pendingKeys) && FileBound(w, name, s'.base.files)
    requires forall file :: file in s.base.files ==> file in s'.base.files
    requires id in s'.base.inFlight && PhaseBound(cfg, w, name, asked, s'.base.inFlight[id])
    requires s'.base.inFlight == s.base.inFlight[id := s'.base.inFlight[id]]
    requires s'.base.emitted == s.base.emitted && s'.windows == s.windows - {id}
    ensures OverlapInv(cfg, w, name, asked, s')
  {
    hide FilesInv, FileBound, Bound, PhaseBound, WindowBound;
    forall k | k in s'.windows ensures WindowBound(w, name, s'.base, k, s'.windows[k]) {
      assert WindowBound(w, name, s.base, k, s.windows[k]);
      WindowStays(w, name, s.base, s'.base, id, k, s.windows[k]);
    }
  }

  /** The state after a write that succeeds, part by part. */
  lemma WrittenState(cfg: Config, s: SplitState, id: nat, recorded: Data)
    requires id in s.windows && AwaitsUpdate(s.base, id)
    requires Record(s.windows[id].data, StoredEntry(cfg.lib.hash, s.base.inFlight[id].msg), cfg.growable)
             == Ok(recorded)
    ensures var s', p := ApplyWrite(cfg, s, id), s.base.inFlight[id];
            && s'.base.files == WriteData(s.base.files, recorded) && s'.base.pendingKeys == s.base.pendingKeys
            && s'.base.inFlight == s.base.inFlight[id := Updated(p.name, p.msg, p.root, |s.base.accepted|)]
            && s'.base.emitted == s.base.emitted && s'.windows == s.windows - {id}
  {
    hide Record, StoredEntry, WriteData, Strip0x, CanBeSlashed;
  }

  lemma WindowStays(w: Watermark, name: string, s: State, s': State, moved: nat, id: nat, v: Window)
    requires WindowBound(w, name, s, id, v) && id != moved && moved in s'.inFlight
    requires s'.inFlight == s.inFlight[moved := s'.inFlight[moved]]
    requires forall file :: file in s.files ==> file in s'.files
    ensures WindowBound(w, name, s', id, v)
  {
    hide CanBeSlashed, Strip0x, FileName, MarkOf, AtMost;
  }

  /** The files after a write that succeeds. */
  lemma WrittenFiles(cfg: Config, w: Watermark, name: string, s: SplitState, id: nat)
    requires id in s.windows && AwaitsUpdate(s.base, id) && WindowBound(w, name, s.base, id, s.windows[id])
    requires FilesInv(s.base.files, s.base.pendingKeys) && FileBound(w, name, s.base.files)
    requires Record(s.windows[id].data, StoredEntry(cfg.lib.hash, s.base.inFlight[id].msg), cfg.growable).Ok?
    ensures var base := ApplyWrite(cfg, s, id).base;
            && FilesInv(base.files, base.pendingKeys) && FileBound(w, name, base.files)
            && forall file :: file in s.base.files ==> file in base.files
  {
    var v, entry := s.windows[id], StoredEntry(cfg.lib.hash, s.base.inFlight[id].msg);
    var recorded := Record(v.data, entry, cfg.growable).value;
    assert Framed(s.base.files) && v.file in s.base.files && FileName(v.data) == v.file;
    assert v.file == name ==> AtMost(w, MarkOf(v.data));
    hide *;
    WriteMeaning(s.base.files, v, entry, cfg.growable);
    AtMostTransitive(w, MarkOf(v.data), MarkOf(recorded));
    WrittenState(cfg, s, id, recorded);
    FileSet(s.base.files, s.base.pendingKeys, v.file, recorded, w, name);
  }

  lemma AtMostTransitive(u: Watermark, v: Watermark, w: Watermark)
    ensures AtMost(u, v) && AtMost(v, w) ==> AtMost(u, w)
  {
  }

  lemma FileSet(files: Files, pendingKeys: set<string>, file: string, d: Data, w: Watermark, name: string)
    requires FilesInv(files, pendingKeys) && FileBound(w, name, files) && file in files
    requires Framed(files[file := d]) && (file == name ==> AtMost(w, MarkOf(d)))
    ensures FilesInv(files[file := d], pendingKeys) && FileBound(w, name, files[file := d])
    ensures forall f :: f in files ==> f in files[file := d]
  {
    hide Framed, MarkOf, AtMost, IsLowerHex, Strip0x;
    assert files[file := d].Keys == files.Keys;
  }

  /** The request after a write that succeeds, and the others, which stay where they were. */
  lemma WrittenPhase(cfg: Config, w: Watermark, name: string, asked: iset<BLSSignMsg>, s: SplitState, id: nat)
    requires Strip0x(name) == name
    requires id in s.windows && AwaitsUpdate(s.base, id) && WindowBound(w, name, s.base, id, s.windows[id])
    requires Framed(s.base.files) && PhaseBound(cfg, w, name, asked, s.base.inFlight[id])
    requires Record(s.windows[id].data, StoredEntry(cfg.lib.hash, s.base.inFlight[id].msg), cfg.growable).Ok?
    ensures var inFlight := ApplyWrite(cfg, s, id).base.inFlight;
            && id in inFlight && PhaseBound(cfg, w, name, asked, inFlight[id])
            && inFlight == s.base.inFlight[id := inFlight[id]]
  {
    var v, entry := s.windows[id], StoredEntry(cfg.lib.hash, s.base.inFlight[id].msg);
    WriteMeaning(s.base.files, v, entry, cfg.growable);
    if v.file == name {
      AdmitsBelow(w, MarkOf(v.data), entry);
    }
    hide ApplyWrite, CanBeSlashed, Strip0x, FileName, MarkOf, Record, StoredEntry, WriteData, Framed, Admits, IsRootOf;
    hide AtMost;
    WrittenState(cfg, s, id, Record(v.data, entry, cfg.growable).value);
  }

  lemma SplitStepKeeps(cfg: Config, w: Watermark, name: string, asked: iset<BLSSignMsg>, s: SplitState, e: SplitEvent)
    requires cfg.lib.order > 0 && Strip0x(name) == name && Asks(e, name, asked)
    requires OverlapInv(cfg, w, name, asked, s)
    ensures OverlapInv(cfg, w, name, asked, ApplySplit(cfg, s, e))
  {
    hide OverlapInv, Apply, ApplyRead, Written, CanBeSlashed, Strip0x, Asks;
    match e
    case Other(event) =>
      if IsPlain(s.base, event) {
        PlainKeeps(cfg, w, name, asked, s, event);
      }
    case Read(id) => ReadKeeps(cfg, w, name, asked, s, id);
    case Write(id) =>
      if id in s.windows {
        WriteKeeps(cfg, w, name, asked, s, id);
      }
  }

  /** The invariant holds in every run, however its windows overlap. */
  lemma {:induction false} OverlapRunKeeps(cfg: Config, files: Files, keys: KeyFiles, name: string,
                                           asked: iset<BLSSignMsg>, events: seq<SplitEvent>)
    requires cfg.lib.order > 0 && Framed(files) && name in files && AsksOnly(events, name, asked)
    ensures OverlapInv(cfg, MarkOf(files[name]), name, asked, SplitRun(cfg, SplitStart(files, keys), events))
    decreases |events|
  {
    hide ApplySplit, PhaseBound, Bound, WindowBound, Asks, MarkOf;
    if events != [] {
      var n := |events| - 1;
      assert Asks(events[n], name, asked);
      OverlapRunKeeps(cfg, files, keys, name, asked, events[..n]);
      hide OverlapInv;
      SplitStepKeeps(cfg, MarkOf(files[name]), name, asked, SplitRun(cfg, SplitStart(files, keys), events[..n]),
                     events[n]);
    }
  }

  // ---------------------------------------------------------------- what survives overlap

  /** However the windows overlap, no database is lost or falls below where it started, and no released signature
      conflicts with an entry of the database its key started with. */
  lemma OverlapRespectsStart(cfg: Config, files: Files, keys: KeyFiles, name: string, events: seq<SplitEvent>)
    requires cfg.lib.order > 0 && Framed(files) && name in files
    ensures var s := SplitRun(cfg, SplitStart(files, keys), events);
            && name in s.base.files && AtMost(MarkOf(files[name]), MarkOf(s.base.files[name]))
            && forall i, x :: 0 <= i < |s.base.emitted| && s.base.emitted[i].release.keyName == name &&
                              CanBeSlashed(s.base.emitted[i].release.msg) && x in EntriesOf(files[name]) ==>
                 !Conflict(x, StoredEntry(cfg.lib.hash, s.base.emitted[i].release.msg))
  {
    var all := iset e | e in events && e.Other? && e.event.Arrive? :: e.event.msg;
    assert AsksOnly(events, name, all) by {
      hide SanitizeBlsPkHex;
    }
    OverlapRunKeeps(cfg, files, keys, name, all, events);
    hide SplitRun, MarkOf, EntriesOf, StoredEntry, CanBeSlashed, Conflict, Admits, AtMost, FilesInv, PhaseBound;
    hide WindowBound, IsRootOf;
    var s := SplitRun(cfg, SplitStart(files, keys), events);
    forall i, x | 0 <= i < |s.base.emitted| && s.base.emitted[i].release.keyName == name &&
                  CanBeSlashed(s.base.emitted[i].release.msg) && x in EntriesOf(files[name])
      ensures !Conflict(x, StoredEntry(cfg.lib.hash, s.base.emitted[i].release.msg))
    {
      assert Bound(cfg, MarkOf(files[name]), name, all, s.base.emitted[i].release);
      AdmittedAgainstEntries(files[name], StoredEntry(cfg.lib.hash, s.base.emitted[i].release.msg), x);
    }
  }

  lemma AdmittedAgainstEntries(d: Data, e: Entry, x: Entry)
    requires Admits(MarkOf(d), e) && x in EntriesOf(d)
    ensures !Conflict(x, e)
  {
    HistoryBelowMark(d, [], true);
    assert Replay(d, [], true) == d && x in History(d, [], true);
    AdmittedIsAllowed(EntriesOf(d), MarkOf(d), e);
  }

  // ---------------------------------------------------------------- exactly when overlap is slashable

  /** The key under this name is stored, and is the name's own. */
  predicate KeySigns(lib: Lib, keys: KeyFiles, name: string)
    requires lib.order > 0
  {
    var poly := FetchBlsSk(lib, keys, name);
    poly.Ok? && name == PublicKeyHex(lib, PublicKey(lib, PublicKeys(lib, poly.value)))
  }

  /** Two of the messages are each admitted by the watermark, and slashable together. */
  ghost predicate SlashablePairAdmitted(h: Hash, w: Watermark, asked: iset<BLSSignMsg>) {
    exists m, n :: m in asked && n in asked && Slashable(h, m, n) &&
      CanBeSlashed(m) && CanBeSlashed(n) && Admits(w, StoredEntry(h, m)) && Admits(w, StoredEntry(h, n))
  }

  /** Two signatures of the key are on slashable messages. */
  ghost predicate ReleasesSlashable(h: Hash, emitted: seq<Emission>, name: string) {
    exists i, j :: 0 <= i < |emitted| && 0 <= j < |emitted| &&
      emitted[i].release.keyName == name && emitted[j].release.keyName == name &&
      Slashable(h, emitted[i].release.msg, emitted[j].release.msg)
  }

  lemma SlashableCanBeSlashed(h: Hash, m: BLSSignMsg, n: BLSSignMsg)
    requires Slashable(h, m, n)
    ensures CanBeSlashed(m) && CanBeSlashed(n)
  {
    SlashableDuty(m);
    SlashableDuty(n);
    hide CanBeSlashed, DutyOf, ProposedHeader, VotedData;
  }

  /** A run that releases a slashable pair was asked for one that the starting database admits. */
  lemma ReleasedPairWasAdmitted(cfg: Config, files: Files, keys: KeyFiles, name: string, asked: iset<BLSSignMsg>,
                                events: seq<SplitEvent>)
    requires cfg.lib.order > 0 && Framed(files) && name in files && AsksOnly(events, name, asked)
    requires ReleasesSlashable(cfg.lib.hash, SplitRun(cfg, SplitStart(files, keys), events).base.emitted, name)
    ensures SlashablePairAdmitted(cfg.lib.hash, MarkOf(files[name]), asked)
  {
    OverlapRunKeeps(cfg, files, keys, name, asked, events);
    hide SplitRun, Slashable, MarkOf, CanBeSlashed, StoredEntry, Admits, FilesInv, PhaseBound, WindowBound, IsRootOf;
    hide AsksOnly, FileBound;
    var emitted := SplitRun(cfg, SplitStart(files, keys), events).base.emitted;
    var i, j :| 0 <= i < |emitted| && 0 <= j < |emitted| &&
                emitted[i].release.keyName == name && emitted[j].release.keyName == name &&
                Slashable(cfg.lib.hash, emitted[i].release.msg, emitted[j].release.msg);
    assert Bound(cfg, MarkOf(files[name]), name, asked, emitted[i].release);
    assert Bound(cfg, MarkOf(files[name]), name, asked, emitted[j].release);
    SlashableCanBeSlashed(cfg.lib.hash, emitted[i].release.msg, emitted[j].release.msg);
  }

  lemma AdmittedMayBeSigned(cfg: Config, files: Files, keys: KeyFiles, name: string, msg: BLSSignMsg)
    requires cfg.lib.order > 0 && Framed(files) && name in files && KeySigns(cfg.lib, keys, name)
    requires CanBeSlashed(msg) && Admits(MarkOf(files[name]), StoredEntry(cfg.lib.hash, msg))
    ensures MayBeSigned(cfg, Start(files, keys), name, msg)
  {
    RecordRefinesWatermark(files[name], StoredEntry(cfg.lib.hash, msg), cfg.growable);
    hide Record, StoredEntry, MarkOf, Admits, CanBeSlashed, ToSigningRoot, FetchBlsSk, PublicKeyHex, PublicKey;
    hide PublicKeys;
  }

  lemma RaceAsksOnly(name: string, m: BLSSignMsg, n: BLSSignMsg, asked: iset<BLSSignMsg>)
    requires m in asked && n in asked
    ensures AsksOnly(Race(name, m, n), name, asked)
  {
    hide SanitizeBlsPkHex;
  }

  /** If it is asked for one, the race releases it. */
  lemma AdmittedPairIsReleased(cfg: Config, files: Files, keys: KeyFiles, name: string, m: BLSSignMsg, n: BLSSignMsg)
    requires cfg.lib.order > 0 && Framed(files) && name in files && KeySigns(cfg.lib, keys, name)
    requires Slashable(cfg.lib.hash, m, n) && CanBeSlashed(m) && CanBeSlashed(n)
    requires Admits(MarkOf(files[name]), StoredEntry(cfg.lib.hash, m))
    requires Admits(MarkOf(files[name]), StoredEntry(cfg.lib.hash, n))
    ensures ReleasesSlashable(cfg.lib.hash, SplitRun(cfg, SplitStart(files, keys), Race(name, m, n)).base.emitted, name)
  {
    AdmittedMayBeSigned(cfg, files, keys, name, m);
    AdmittedMayBeSigned(cfg, files, keys, name, n);
    StartStands(files, keys);
    hide *;
    RaceReleasesPair(cfg, SplitStart(files, keys), name, m, n);
  }

  lemma StartStands(files: Files, keys: KeyFiles)
    ensures Stand(SplitStart(files, keys), None, None, None, None)
    ensures SplitStart(files, keys).base == Start(files, keys)
  {
  }

  lemma RaceReleasesPair(cfg: Config, s: SplitState, name: string, m: BLSSignMsg, n: BLSSignMsg)
    requires cfg.lib.order > 0 && Stand(s, None, None, None, None) && Slashable(cfg.lib.hash, m, n)
    requires MayBeSigned(cfg, s.base, name, m) && MayBeSigned(cfg, s.base, name, n)
    ensures ReleasesSlashable(cfg.lib.hash, SplitRun(cfg, s, Race(name, m, n)).base.emitted, name)
  {
    var data := ReadData(s.base.files, name).value;
    SignableFacts(cfg, s.base, name, m, data, ToSigningRoot(cfg.lib.hash, m, Some(cfg.genesis)));
    SignableFacts(cfg, s.base, name, n, data, ToSigningRoot(cfg.lib.hash, n, Some(cfg.genesis)));
    hide *;
    var t, u := RaceReleasesBoth(cfg, s, name, m, n);
    var a := ToSigningRoot(cfg.lib.hash, m, Some(cfg.genesis));
    var b := ToSigningRoot(cfg.lib.hash, n, Some(cfg.genesis));
    var x := Emission(Release(name, m, a, SignWithSavedSk(cfg.lib, s.base.keys, name, a).value), t);
    var y := Emission(Release(name, n, b, SignWithSavedSk(cfg.lib, s.base.keys, name, b).value), u);
    PairIsReleased(cfg.lib.hash, s.base.emitted, x, y, name);
  }

  lemma PairIsReleased(h: Hash, before: seq<Emission>, x: Emission, y: Emission, name: string)
    requires x.release.keyName == name && y.release.keyName == name && Slashable(h, x.release.msg, y.release.msg)
    ensures ReleasesSlashable(h, before + [x, y], name)
  {
    hide Slashable;
    var emitted, k := before + [x, y], |before|;
    assert emitted[k] == x && emitted[k + 1] == y;
  }

  /** Over all runs, with any overlaps, from any framed store in which the key signs: some run that is asked only for
      these messages under the key's name releases two slashable signatures of that key if and only if two of the
      messages are each admitted by the starting database and slashable together. */
  lemma OverlapIsSlashableIff(cfg: Config, files: Files, keys: KeyFiles, name: string, asked: iset<BLSSignMsg>)
    requires cfg.lib.order > 0 && Framed(files) && name in files && KeySigns(cfg.lib, keys, name)
    ensures (exists events :: AsksOnly(events, name, asked) &&
               ReleasesSlashable(cfg.lib.hash, SplitRun(cfg, SplitStart(files, keys), events).base.emitted, name))
            <==> SlashablePairAdmitted(cfg.lib.hash, MarkOf(files[name]), asked)
  {
    hide SplitRun, ReleasesSlashable, AsksOnly, MarkOf, Slashable, CanBeSlashed, StoredEntry, Admits, KeySigns, Race;
    if events :| AsksOnly(events, name, asked) &&
                 ReleasesSlashable(cfg.lib.hash, SplitRun(cfg, SplitStart(files, keys), events).base.emitted, name)
    {
      ReleasedPairWasAdmitted(cfg, files, keys, name, asked, events);
    }
    if SlashablePairAdmitted(cfg.lib.hash, MarkOf(files[name]), asked) {
      var m, n :| m in asked && n in asked && Slashable(cfg.lib.hash, m, n) &&
                  CanBeSlashed(m) && CanBeSlashed(n) && Admits(MarkOf(files[name]), StoredEntry(cfg.lib.hash, m)) &&
                  Admits(MarkOf(files[name]), StoredEntry(cfg.lib.hash, n));
      RaceAsksOnly(name, m, n, asked);
      AdmittedPairIsReleased(cfg, files, keys, name, m, n);
    }
  }

  // ---------------------------------------------------------------- the same on roots

  /** Signatures `i` and `j` are on the roots of two attestations that are an offence together. */
  ghost predicate OffendingVotes(cfg: Config, emitted: seq<Emission>, i: nat, j: nat, inputs: set<(Bytes32, Bytes32)>) {
    exists a: AttestationData, da: Domain, b: AttestationData, db: Domain ::
      && SignedRoot(cfg, emitted, i, a.ToTree(), da, inputs) && SignedRoot(cfg, emitted, j, b.ToTree(), db, inputs)
      && da[..4] == DOMAIN_BEACON_ATTESTER && db[..4] == DOMAIN_BEACON_ATTESTER
      && (IsSlashableAttestationData(a, b) || IsSlashableAttestationData(b, a))
  }

  /** Signatures `i` and `j` are on the roots of two headers that are an offence together. */
  ghost predicate OffendingProposals(cfg: Config, emitted: seq<Emission>, i: nat, j: nat,
                                     inputs: set<(Bytes32, Bytes32)>)
  {
    exists a: BeaconBlockHeader, da: Domain, b: BeaconBlockHeader, db: Domain ::
      && SignedRoot(cfg, emitted, i, a.ToTree(), da, inputs) && SignedRoot(cfg, emitted, j, b.ToTree(), db, inputs)
      && da[..4] == DOMAIN_BEACON_PROPOSER && db[..4] == DOMAIN_BEACON_PROPOSER
      && IsDoubleProposal(a, b)
  }

  ghost predicate ReleasesOffence(cfg: Config, emitted: seq<Emission>, name: string, inputs: set<(Bytes32, Bytes32)>) {
    exists i: nat, j: nat ::
      && OfOneKey(emitted, i, j) && emitted[i].release.keyName == name
      && (OffendingVotes(cfg, emitted, i, j, inputs) || OffendingProposals(cfg, emitted, i, j, inputs))
  }

  /** Every signature is on its request's root, and what was hashed for the key's blocks and attestations is among
      the inputs. */
  ghost predicate Accounted(cfg: Config, emitted: seq<Emission>, name: string, inputs: set<(Bytes32, Bytes32)>) {
    forall i :: 0 <= i < |emitted| ==>
      && IsRootOf(cfg, emitted[i].release.msg, emitted[i].release.root)
      && (emitted[i].release.keyName == name && CanBeSlashed(emitted[i].release.msg) ==>
            HashedFor(cfg.lib.hash, emitted[i].release.msg, Some(cfg.genesis)) <= inputs)
  }

  /** A signature on a root that is also an attestation's is for that attestation; so for headers. */
  lemma OffenceIsSlashable(cfg: Config, emitted: seq<Emission>, name: string, inputs: set<(Bytes32, Bytes32)>,
                           i: nat, j: nat)
    requires CollisionFree(cfg.lib.hash, inputs) && Accounted(cfg, emitted, name, inputs)
    requires i < |emitted| && j < |emitted|
    requires OffendingVotes(cfg, emitted, i, j, inputs) || OffendingProposals(cfg, emitted, i, j, inputs)
    ensures Slashable(cfg.lib.hash, emitted[i].release.msg, emitted[j].release.msg)
  {
    hide HashedFor, ComputeSigningRoot, ToSigningRoot, AttestationData.ToTree, BeaconBlockHeader.ToTree, DutyOf;
    hide CanBeSlashed, VotedData, ProposedHeader, CollisionFree, HashInputs, SigningTree;
    var h, m, n := cfg.lib.hash, emitted[i].release.msg, emitted[j].release.msg;
    if OffendingVotes(cfg, emitted, i, j, inputs) {
      var a: AttestationData, da: Domain, b: AttestationData, db: Domain :|
        && SignedRoot(cfg, emitted, i, a.ToTree(), da, inputs) && SignedRoot(cfg, emitted, j, b.ToTree(), db, inputs)
        && da[..4] == DOMAIN_BEACON_ATTESTER && db[..4] == DOMAIN_BEACON_ATTESTER
        && (IsSlashableAttestationData(a, b) || IsSlashableAttestationData(b, a));
      AttestationRootBinds(h, m, Some(cfg.genesis), a, da, inputs);
      AttestationRootBinds(h, n, Some(cfg.genesis), b, db, inputs);
    } else {
      var a: BeaconBlockHeader, da: Domain, b: BeaconBlockHeader, db: Domain :|
        && SignedRoot(cfg, emitted, i, a.ToTree(), da, inputs) && SignedRoot(cfg, emitted, j, b.ToTree(), db, inputs)
        && da[..4] == DOMAIN_BEACON_PROPOSER && db[..4] == DOMAIN_BEACON_PROPOSER
        && IsDoubleProposal(a, b);
      ProposalRootBinds(h, m, Some(cfg.genesis), a, da, inputs);
      ProposalRootBinds(h, n, Some(cfg.genesis), b, db, inputs);
    }
  }

  /** A block or attestation signature is on the root of its header or data under a domain of its duty. */
  lemma SignedUnderOwnDomain(cfg: Config, emitted: seq<Emission>, name: string, inputs: set<(Bytes32, Bytes32)>, i: nat)
    requires Accounted(cfg, emitted, name, inputs) && i < |emitted| && emitted[i].release.keyName == name
    requires CanBeSlashed(emitted[i].release.msg)
    ensures var msg := emitted[i].release.msg;
            var d := SignableOf(cfg.lib.hash, msg, Some(cfg.genesis)).domain;
            && d[..4] == DomainTypeOf(DutyOf(msg))
            && (DutyOf(msg) == Attest ==> SignedRoot(cfg, emitted, i, VotedData(msg).ToTree(), d, inputs))
            && (DutyOf(msg) == Propose ==>
                  SignedRoot(cfg, emitted, i, ProposedHeader(cfg.lib.hash, msg).ToTree(), d, inputs))
  {
    var h, msg, g := cfg.lib.hash, emitted[i].release.msg, Some(cfg.genesis);
    hide ComputeSigningRoot, ToSigningRoot, AttestationData.ToTree, BeaconBlockHeader.ToTree, DutyOf, SignableOf;
    hide CanBeSlashed, VotedData, ProposedHeader, HashInputs, SigningTree, SummaryOf, DomainTypeOf, HashTreeRoot;
    DomainCarriesDuty(h, msg, g);
    SummaryHasTheRoot(h, msg, g);
    SigningRootIsTreeRoot(h, SummaryOf(h, msg, g), SignableOf(h, msg, g).domain);
    if DutyOf(msg) == Attest {
      AttestationSummary(h, msg, g);
    } else if DutyOf(msg) == Propose {
      ProposalSummary(h, msg, g);
    }
  }

  lemma SlashableIsOffence(cfg: Config, emitted: seq<Emission>, name: string, inputs: set<(Bytes32, Bytes32)>,
                           i: nat, j: nat)
    requires Accounted(cfg, emitted, name, inputs) && OfOneKey(emitted, i, j) && emitted[i].release.keyName == name
    requires Slashable(cfg.lib.hash, emitted[i].release.msg, emitted[j].release.msg)
    ensures OffendingVotes(cfg, emitted, i, j, inputs) || OffendingProposals(cfg, emitted, i, j, inputs)
  {
    var h, m, n := cfg.lib.hash, emitted[i].release.msg, emitted[j].release.msg;
    var dm, dn := SignableOf(h, m, Some(cfg.genesis)).domain, SignableOf(h, n, Some(cfg.genesis)).domain;
    SlashableCanBeSlashed(h, m, n);
    SignedUnderOwnDomain(cfg, emitted, name, inputs, i);
    SignedUnderOwnDomain(cfg, emitted, name, inputs, j);
    if DutyOf(m) == Attest {
      var a, b := VotedData(m), VotedData(n);
      assert DutyOf(n) == Attest && (IsSlashableAttestationData(a, b) || IsSlashableAttestationData(b, a));
      hide *;
      VotesOffend(cfg, emitted, i, j, a, dm, b, dn, inputs);
    } else {
      var a, b := ProposedHeader(h, m), ProposedHeader(h, n);
      assert DutyOf(n) == Propose && IsDoubleProposal(a, b);
      hide *;
      HeadersOffend(cfg, emitted, i, j, a, dm, b, dn, inputs);
    }
  }

  lemma VotesOffend(cfg: Config, emitted: seq<Emission>, i: nat, j: nat, a: AttestationData, da: Domain,
                    b: AttestationData, db: Domain, inputs: set<(Bytes32, Bytes32)>)
    requires SignedRoot(cfg, emitted, i, a.ToTree(), da, inputs) && SignedRoot(cfg, emitted, j, b.ToTree(), db, inputs)
    requires da[..4] == DomainTypeOf(Attest) && db[..4] == DomainTypeOf(Attest)
    requires IsSlashableAttestationData(a, b) || IsSlashableAttestationData(b, a)
    ensures OffendingVotes(cfg, emitted, i, j, inputs)
  {
    hide SignedRoot, AttestationData.ToTree, IsSlashableAttestationData;
  }

  lemma HeadersOffend(cfg: Config, emitted: seq<Emission>, i: nat, j: nat, a: BeaconBlockHeader, da: Domain,
                      b: BeaconBlockHeader, db: Domain, inputs: set<(Bytes32, Bytes32)>)
    requires SignedRoot(cfg, emitted, i, a.ToTree(), da, inputs) && SignedRoot(cfg, emitted, j, b.ToTree(), db, inputs)
    requires da[..4] == DomainTypeOf(Propose) && db[..4] == DomainTypeOf(Propose)
    requires IsDoubleProposal(a, b)
    ensures OffendingProposals(cfg, emitted, i, j, inputs)
  {
    hide SignedRoot, BeaconBlockHeader.ToTree, IsDoubleProposal;
  }

  /** Signatures on slashable roots are signatures on slashable requests, and the other way round. */
  lemma OffenceIff(cfg: Config, emitted: seq<Emission>, name: string, inputs: set<(Bytes32, Bytes32)>)
    requires CollisionFree(cfg.lib.hash, inputs) && Accounted(cfg, emitted, name, inputs)
    ensures ReleasesOffence(cfg, emitted, name, inputs) <==> ReleasesSlashable(cfg.lib.hash, emitted, name)
  {
    hide CollisionFree, Accounted, OffendingVotes, OffendingProposals, Slashable;
    if ReleasesOffence(cfg, emitted, name, inputs) {
      var i: nat, j: nat :|
        && OfOneKey(emitted, i, j) && emitted[i].release.keyName == name
        && (OffendingVotes(cfg, emitted, i, j, inputs) || OffendingProposals(cfg, emitted, i, j, inputs));
      OffenceIsSlashable(cfg, emitted, name, inputs, i, j);
    }
    if ReleasesSlashable(cfg.lib.hash, emitted, name) {
      var i, j :| 0 <= i < |emitted| && 0 <= j < |emitted| &&
                  emitted[i].release.keyName == name && emitted[j].release.keyName == name &&
                  Slashable(cfg.lib.hash, emitted[i].release.msg, emitted[j].release.msg);
      assert OfOneKey(emitted, i, j);
      SlashableIsOffence(cfg, emitted, name, inputs, i, j);
    }
  }

  /** What was hashed for the blocks and attestations among the messages is among the inputs. */
  ghost predicate HashedForAll(cfg: Config, asked: iset<BLSSignMsg>, inputs: set<(Bytes32, Bytes32)>) {
    forall m :: m in asked && CanBeSlashed(m) ==> HashedFor(cfg.lib.hash, m, Some(cfg.genesis)) <= inputs
  }

  lemma RunIsAccounted(cfg: Config, files: Files, keys: KeyFiles, name: string, asked: iset<BLSSignMsg>,
                       inputs: set<(Bytes32, Bytes32)>, events: seq<SplitEvent>)
    requires cfg.lib.order > 0 && Framed(files) && name in files && AsksOnly(events, name, asked)
    requires HashedForAll(cfg, asked, inputs)
    ensures Accounted(cfg, SplitRun(cfg, SplitStart(files, keys), events).base.emitted, name, inputs)
  {
    OverlapRunKeeps(cfg, files, keys, name, asked, events);
    hide SplitRun, HashedFor, MarkOf, CanBeSlashed, StoredEntry, Admits, FilesInv, PhaseBound, WindowBound, IsRootOf;
    hide AsksOnly, FileBound;
    var emitted := SplitRun(cfg, SplitStart(files, keys), events).base.emitted;
    forall i | 0 <= i < |emitted|
      ensures IsRootOf(cfg, emitted[i].release.msg, emitted[i].release.root)
      ensures emitted[i].release.keyName == name && CanBeSlashed(emitted[i].release.msg) ==>
                HashedFor(cfg.lib.hash, emitted[i].release.msg, Some(cfg.genesis)) <= inputs
    {
      assert Bound(cfg, MarkOf(files[name]), name, asked, emitted[i].release);
    }
  }

  /** The condition on roots: unless the hash collides on what is hashed, some run that is asked only for these
      messages under the key's name releases signatures of that key on the roots of slashable attestations or of two
      headers for one slot if and only if two of the messages are each admitted by the starting database and
      slashable together. */
  lemma OverlapOffendsIff(cfg: Config, files: Files, keys: KeyFiles, name: string, asked: iset<BLSSignMsg>,
                          inputs: set<(Bytes32, Bytes32)>)
    requires cfg.lib.order > 0 && Framed(files) && name in files && KeySigns(cfg.lib, keys, name)
    requires CollisionFree(cfg.lib.hash, inputs) && HashedForAll(cfg, asked, inputs)
    ensures (exists events :: AsksOnly(events, name, asked) &&
               ReleasesOffence(cfg, SplitRun(cfg, SplitStart(files, keys), events).base.emitted, name, inputs))
            <==> SlashablePairAdmitted(cfg.lib.hash, MarkOf(files[name]), asked)
  {
    hide SplitRun, ReleasesSlashable, ReleasesOffence, AsksOnly, MarkOf, SlashablePairAdmitted, KeySigns, Accounted;
    hide CollisionFree, HashedForAll;
    forall events | AsksOnly(events, name, asked)
      ensures var emitted := SplitRun(cfg, SplitStart(files, keys), events).base.emitted;
              ReleasesOffence(cfg, emitted, name, inputs) <==> ReleasesSlashable(cfg.lib.hash, emitted, name)
    {
      RunIsAccounted(cfg, files, keys, name, asked, inputs, events);
      OffenceIff(cfg, SplitRun(cfg, SplitStart(files, keys), events).base.emitted, name, inputs);
    }
    OverlapIsSlashableIff(cfg, files, keys, name, asked);
  }
}
