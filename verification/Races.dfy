/** Two requests for one key whose read-to-write windows overlap: both are signed whenever the database admits each
    of them alone, so that a run can release two different proposals for one slot. */
module Races {
  import opened Wrappers
  import opened Bytes
  import opened Ssz
  import opened SigningMessages
  import opened SigningRoots
  import opened SignedObjects
  import opened SlashingProtection
  import opened Library
  import opened Signer
  import opened SignerRuns
  import opened SignerSafety
  import opened SplitUpdates
  import opened Deposits

  // ---------------------------------------------------------------- overlapping windows

  /** Two updates that both read a database before either writes it: the two requests are slashable together
      exactly when no order of doing one after the other would have accepted both. */
  lemma OverlapConflictsIff(d: Data, x: Entry, y: Entry, growable: bool)
    requires Record(d, x, growable).Ok? && Record(d, y, growable).Ok?
    ensures Conflict(x, y) <==> (Record(Record(d, x, growable).value, y, growable).Err? &&
                                 Record(Record(d, y, growable).value, x, growable).Err?)
  {
    hide MarkOf, Record;
    RecordRefinesWatermark(d, x, growable);
    RecordRefinesWatermark(d, y, growable);
    RecordRefinesWatermark(Record(d, x, growable).value, y, growable);
    RecordRefinesWatermark(Record(d, y, growable).value, x, growable);
  }

  /** Even two requests that do not conflict lose a watermark when their updates overlap: if `y` is written
      last, the file covers both requests exactly when both are of one kind and `x` followed by `y` would
      have been accepted. */
  lemma OverlapIsHarmlessIff(d: Data, x: Entry, y: Entry, growable: bool)
    requires Record(d, x, growable).Ok? && Record(d, y, growable).Ok?
    ensures (!Conflict(x, y) && Below(x, MarkOf(Record(d, y, growable).value)))
            <==> (SameKind(x, y) && Record(Record(d, x, growable).value, y, growable).Ok?)
  {
    hide MarkOf, Record;
    RecordRefinesWatermark(d, x, growable);
    RecordRefinesWatermark(d, y, growable);
    RecordRefinesWatermark(Record(d, x, growable).value, y, growable);
  }

  // ---------------------------------------------------------------- a run that releases both

  function PhaseAt(s: SplitState, id: nat): Option<Phase> {
    if id in s.base.inFlight then Some(s.base.inFlight[id]) else None
  }

  function WindowAt(s: SplitState, id: nat): Option<Window> {
    if id in s.windows then Some(s.windows[id]) else None
  }

  /** From one state to the other only request `id` moved. */
  ghost predicate OnlyMoved(s: SplitState, s': SplitState, id: nat) {
    && s'.base.keys == s.base.keys
    && forall k: nat :: k != id ==> PhaseAt(s', k) == PhaseAt(s, k) && WindowAt(s', k) == WindowAt(s, k)
  }

  lemma Arrives(cfg: Config, s: SplitState, id: nat, name: string, msg: BLSSignMsg)
    requires cfg.lib.order > 0 && PhaseAt(s, id) == None
    ensures var s' := ApplySplit(cfg, s, Other(Arrive(id, name, msg)));
            && PhaseAt(s', id) == Some(Arrived(name, msg)) && WindowAt(s', id) == WindowAt(s, id)
            && OnlyMoved(s, s', id) && s'.base.files == s.base.files && s'.base.emitted == s.base.emitted
  {
    hide ApplyCheck, ApplyUpdate, ApplySign, ApplyDirect, FreshKey, PublicKeyHex, FromPkHex, StoreShareIn;
  }

  lemma IsChecked(cfg: Config, s: SplitState, id: nat, name: string, msg: BLSSignMsg)
    requires cfg.lib.order > 0 && PhaseAt(s, id) == Some(Arrived(name, msg))
    requires !msg.Deposit? && SanitizeBlsPkHex(name) == Ok(name)
    requires CheckDb(cfg.lib.hash, s.base.files, name, msg) == Ok(false)
    ensures var s' := ApplySplit(cfg, s, Other(Check(id)));
            var root := ToSigningRoot(cfg.lib.hash, msg, Some(cfg.genesis));
            && PhaseAt(s', id) == Some(Checked(name, msg, root)) && WindowAt(s', id) == WindowAt(s, id)
            && OnlyMoved(s, s', id) && s'.base.files == s.base.files && s'.base.emitted == s.base.emitted
  {
    hide CheckDb, SanitizeBlsPkHex, ToSigningRoot, ApplyUpdate, ApplySign, ApplyDirect, FreshKey, PublicKeyHex;
    hide FromPkHex, StoreShareIn;
  }

  lemma Reads(cfg: Config, s: SplitState, id: nat, name: string, msg: BLSSignMsg, root: Root, data: Data)
    requires cfg.lib.order > 0 && PhaseAt(s, id) == Some(Checked(name, msg, root)) && CanBeSlashed(msg)
    requires WindowAt(s, id) == None && ReadData(s.base.files, name) == Ok(data)
    ensures var s' := ApplySplit(cfg, s, Read(id));
            && PhaseAt(s', id) == PhaseAt(s, id) && WindowAt(s', id) == Some(Window(Strip0x(name), data))
            && OnlyMoved(s, s', id) && s'.base.files == s.base.files && s'.base.emitted == s.base.emitted
  {
    hide CanBeSlashed, Strip0x, ReadData, Apply;
  }

  lemma Writes(cfg: Config, s: SplitState, id: nat, name: string, msg: BLSSignMsg, root: Root, w: Window)
    requires cfg.lib.order > 0 && PhaseAt(s, id) == Some(Checked(name, msg, root)) && CanBeSlashed(msg)
    requires WindowAt(s, id) == Some(w) && Record(w.data, StoredEntry(cfg.lib.hash, msg), cfg.growable).Ok?
    ensures var s' := ApplySplit(cfg, s, Write(id));
            && PhaseAt(s', id) == Some(Updated(name, msg, root, |s.base.accepted|))
            && OnlyMoved(s, s', id) && s'.base.emitted == s.base.emitted
            && s'.base.files
               == WriteData(s.base.files, Record(w.data, StoredEntry(cfg.lib.hash, msg), cfg.growable).value)
  {
    hide CanBeSlashed, Strip0x, Record, StoredEntry, WriteData, Apply;
  }

  lemma Signs(cfg: Config, s: SplitState, id: nat, name: string, msg: BLSSignMsg, root: Root, ticket: nat)
    requires cfg.lib.order > 0 && PhaseAt(s, id) == Some(Updated(name, msg, root, ticket))
    requires SignWithSavedSk(cfg.lib, s.base.keys, name, root).Ok?
    ensures var s' := ApplySplit(cfg, s, Other(SignStep(id)));
            var signature := SignWithSavedSk(cfg.lib, s.base.keys, name, root).value;
            && OnlyMoved(s, s', id) && s'.base.files == s.base.files
            && s'.base.emitted == s.base.emitted + [Emission(Release(name, msg, root, signature), ticket)]
  {
    hide SignWithSavedSk, ApplyCheck, ApplyUpdate, ApplyDirect, FreshKey, PublicKeyHex, FromPkHex, StoreShareIn;
  }

  lemma {:induction false} SplitRunConcat(cfg: Config, s: SplitState, a: seq<SplitEvent>, b: seq<SplitEvent>)
    requires cfg.lib.order > 0
    ensures SplitRun(cfg, s, a + b) == SplitRun(cfg, SplitRun(cfg, s, a), b)
    decreases |b|
  {
    hide ApplySplit;
    if b == [] {
      assert a + b == a;
    } else {
      var n := |b| - 1;
      assert (a + b)[..|a| + n] == a + b[..n] && (a + b)[|a| + n] == b[n];
      SplitRunConcat(cfg, s, a, b[..n]);
    }
  }

  lemma Pair(cfg: Config, s: SplitState, x: SplitEvent, y: SplitEvent)
    requires cfg.lib.order > 0
    ensures SplitRun(cfg, s, [x, y]) == ApplySplit(cfg, ApplySplit(cfg, s, x), y)
  {
    hide ApplySplit;
    assert [x, y][..1] == [x] && [x][..0] == [];
    assert SplitRun(cfg, s, [x]) == ApplySplit(cfg, SplitRun(cfg, s, []), x);
  }

  lemma PairFirst(cfg: Config, s: SplitState, x: SplitEvent, y: SplitEvent, rest: seq<SplitEvent>)
    requires cfg.lib.order > 0
    ensures SplitRun(cfg, s, [x, y] + rest) == SplitRun(cfg, ApplySplit(cfg, ApplySplit(cfg, s, x), y), rest)
  {
    hide *;
    SplitRunConcat(cfg, s, [x, y], rest);
    Pair(cfg, s, x, y);
  }

  /** Where the requests 0 and 1 stand. */
  predicate Stand(s: SplitState, p: Option<Phase>, q: Option<Phase>, v: Option<Window>, w: Option<Window>) {
    PhaseAt(s, 0) == p && PhaseAt(s, 1) == q && WindowAt(s, 0) == v && WindowAt(s, 1) == w
  }

  lemma BothArrive(cfg: Config, s: SplitState, name: string, m: BLSSignMsg, n: BLSSignMsg)
    requires cfg.lib.order > 0 && Stand(s, None, None, None, None)
    ensures var s' := ApplySplit(cfg, ApplySplit(cfg, s, Other(Arrive(0, name, m))), Other(Arrive(1, name, n)));
            && Stand(s', Some(Arrived(name, m)), Some(Arrived(name, n)), None, None)
            && s'.base.files == s.base.files && s'.base.keys == s.base.keys && s'.base.emitted == s.base.emitted
  {
    hide ApplySplit, PhaseAt, WindowAt;
    Arrives(cfg, s, 0, name, m);
    Arrives(cfg, ApplySplit(cfg, s, Other(Arrive(0, name, m))), 1, name, n);
  }

  lemma BothChecked(cfg: Config, s: SplitState, name: string, m: BLSSignMsg, n: BLSSignMsg, a: Root, b: Root)
    requires cfg.lib.order > 0 && Stand(s, Some(Arrived(name, m)), Some(Arrived(name, n)), None, None)
    requires MayBeSigned(cfg, s.base, name, m) && MayBeSigned(cfg, s.base, name, n)
    requires a == ToSigningRoot(cfg.lib.hash, m, Some(cfg.genesis))
    requires b == ToSigningRoot(cfg.lib.hash, n, Some(cfg.genesis))
    ensures var s' := ApplySplit(cfg, ApplySplit(cfg, s, Other(Check(0))), Other(Check(1)));
            && Stand(s', Some(Checked(name, m, a)), Some(Checked(name, n, b)), None, None)
            && s'.base.files == s.base.files && s'.base.keys == s.base.keys && s'.base.emitted == s.base.emitted
  {
    AdmittedIsNotSlashable(cfg, s.base, name, m);
    AdmittedIsNotSlashable(cfg, s.base, name, n);
    assert SanitizeBlsPkHex(name) == Ok(name);
    hide ApplySplit, PhaseAt, WindowAt, MayBeSigned, ToSigningRoot, CheckDb, SanitizeBlsPkHex;
    IsChecked(cfg, s, 0, name, m);
    IsChecked(cfg, ApplySplit(cfg, s, Other(Check(0))), 1, name, n);
  }

  /** Both read the same. */
  lemma BothRead(cfg: Config, s: SplitState, name: string, m: BLSSignMsg, n: BLSSignMsg, a: Root, b: Root, data: Data)
    requires cfg.lib.order > 0 && CanBeSlashed(m) && CanBeSlashed(n) && ReadData(s.base.files, name) == Ok(data)
    requires Stand(s, Some(Checked(name, m, a)), Some(Checked(name, n, b)), None, None)
    ensures var s' := ApplySplit(cfg, ApplySplit(cfg, s, Read(0)), Read(1));
            var w := Some(Window(Strip0x(name), data));
            && Stand(s', Some(Checked(name, m, a)), Some(Checked(name, n, b)), w, w)
            && s'.base.keys == s.base.keys && s'.base.emitted == s.base.emitted
  {
    hide ApplySplit, PhaseAt, WindowAt, CanBeSlashed, ReadData, Strip0x;
    Reads(cfg, s, 0, name, m, a, data);
    Reads(cfg, ApplySplit(cfg, s, Read(0)), 1, name, n, b, data);
  }

  lemma BothWrite(cfg: Config, s: SplitState, name: string, m: BLSSignMsg, n: BLSSignMsg, a: Root, b: Root, w: Window)
    returns (t: nat, u: nat)
    requires cfg.lib.order > 0 && CanBeSlashed(m) && CanBeSlashed(n)
    requires Stand(s, Some(Checked(name, m, a)), Some(Checked(name, n, b)), Some(w), Some(w))
    requires Record(w.data, StoredEntry(cfg.lib.hash, m), cfg.growable).Ok?
    requires Record(w.data, StoredEntry(cfg.lib.hash, n), cfg.growable).Ok?
    ensures var s' := ApplySplit(cfg, ApplySplit(cfg, s, Write(0)), Write(1));
            && PhaseAt(s', 0) == Some(Updated(name, m, a, t)) && PhaseAt(s', 1) == Some(Updated(name, n, b, u))
            && s'.base.keys == s.base.keys && s'.base.emitted == s.base.emitted
            && FileName(Record(w.data, StoredEntry(cfg.lib.hash, n), cfg.growable).value) in s'.base.files
            && s'.base.files[FileName(Record(w.data, StoredEntry(cfg.lib.hash, n), cfg.growable).value)]
               == Record(w.data, StoredEntry(cfg.lib.hash, n), cfg.growable).value
  {
    hide ApplySplit, PhaseAt, WindowAt, CanBeSlashed, Record, StoredEntry;
    Writes(cfg, s, 0, name, m, a, w);
    var s' := ApplySplit(cfg, s, Write(0));
    Writes(cfg, s', 1, name, n, b, w);
    t, u := |s.base.accepted|, |s'.base.accepted|;
  }

  lemma BothSign(cfg: Config, s: SplitState, name: string, m: BLSSignMsg, n: BLSSignMsg, a: Root, b: Root,
                 t: nat, u: nat)
    requires cfg.lib.order > 0
    requires PhaseAt(s, 0) == Some(Updated(name, m, a, t)) && PhaseAt(s, 1) == Some(Updated(name, n, b, u))
    requires SignWithSavedSk(cfg.lib, s.base.keys, name, a).Ok? && SignWithSavedSk(cfg.lib, s.base.keys, name, b).Ok?
    ensures var s' := ApplySplit(cfg, ApplySplit(cfg, s, Other(SignStep(0))), Other(SignStep(1)));
            var x := Release(name, m, a, SignWithSavedSk(cfg.lib, s.base.keys, name, a).value);
            var y := Release(name, n, b, SignWithSavedSk(cfg.lib, s.base.keys, name, b).value);
            && s'.base.emitted == s.base.emitted + [Emission(x, t), Emission(y, u)]
            && s'.base.files == s.base.files
  {
    hide ApplySplit, PhaseAt, WindowAt, SignWithSavedSk;
    Signs(cfg, s, 0, name, m, a, t);
    Signs(cfg, ApplySplit(cfg, s, Other(SignStep(0))), 1, name, n, b, u);
  }

  /** Two requests for one key whose windows overlap. */
  function Race(name: string, m: BLSSignMsg, n: BLSSignMsg): seq<SplitEvent> {
    [Other(Arrive(0, name, m)), Other(Arrive(1, name, n))] + RaceFromCheck()
  }

  function RaceFromCheck(): seq<SplitEvent> {
    [Other(Check(0)), Other(Check(1))] + RaceFromRead()
  }

  function RaceFromRead(): seq<SplitEvent> {
    [Read(0), Read(1)] + RaceFromWrite()
  }

  function RaceFromWrite(): seq<SplitEvent> {
    [Write(0), Write(1)] + [Other(SignStep(0)), Other(SignStep(1))]
  }

  /** The request may be signed: the database on file admits it, and the key is there. */
  predicate MayBeSigned(cfg: Config, s: State, name: string, msg: BLSSignMsg)
    requires cfg.lib.order > 0
  {
    && CanBeSlashed(msg) && SanitizeBlsPkHex(name) == Ok(name)
    && ReadData(s.files, name).Ok?
    && Record(ReadData(s.files, name).value, StoredEntry(cfg.lib.hash, msg), cfg.growable).Ok?
    && SignWithSavedSk(cfg.lib, s.keys, name, ToSigningRoot(cfg.lib.hash, msg, Some(cfg.genesis))).Ok?
  }

  lemma AdmittedIsNotSlashable(cfg: Config, s: State, name: string, msg: BLSSignMsg)
    requires cfg.lib.order > 0 && MayBeSigned(cfg, s, name, msg)
    ensures CheckDb(cfg.lib.hash, s.files, name, msg) == Ok(false) && !msg.Deposit?
  {
    hide StoredEntry, Record, MarkOf, ToSigningRoot, SignWithSavedSk, ReadData;
    RecordRefinesWatermark(ReadData(s.files, name).value, StoredEntry(cfg.lib.hash, msg), cfg.growable);
  }

  /** Whatever the two requests are: if the database admits each of them alone, the race releases both, and leaves
      on file only what was written last. */
  lemma RaceReleasesBoth(cfg: Config, s: SplitState, name: string, m: BLSSignMsg, n: BLSSignMsg)
    returns (t: nat, u: nat)
    requires cfg.lib.order > 0
    requires Stand(s, None, None, None, None)
    requires MayBeSigned(cfg, s.base, name, m) && MayBeSigned(cfg, s.base, name, n)
    ensures var a := ToSigningRoot(cfg.lib.hash, m, Some(cfg.genesis));
            var b := ToSigningRoot(cfg.lib.hash, n, Some(cfg.genesis));
            var s' := SplitRun(cfg, s, Race(name, m, n));
            var last := Record(ReadData(s.base.files, name).value, StoredEntry(cfg.lib.hash, n), cfg.growable).value;
            var x := Release(name, m, a, SignWithSavedSk(cfg.lib, s.base.keys, name, a).value);
            var y := Release(name, n, b, SignWithSavedSk(cfg.lib, s.base.keys, name, b).value);
            && s'.base.emitted == s.base.emitted + [Emission(x, t), Emission(y, u)]
            && FileName(last) in s'.base.files && s'.base.files[FileName(last)] == last
  {
    var data := ReadData(s.base.files, name).value;
    var w := Window(Strip0x(name), data);
    var a := ToSigningRoot(cfg.lib.hash, m, Some(cfg.genesis));
    var b := ToSigningRoot(cfg.lib.hash, n, Some(cfg.genesis));
    SignableFacts(cfg, s.base, name, m, data, a);
    SignableFacts(cfg, s.base, name, n, data, b);
    var s2, s4, s6, s8 := RaceInPairs(cfg, s, name, m, n);
    hide *;
    BothArrive(cfg, s, name, m, n);
    MayStillBeSigned(cfg, s.base, s2.base, name, m);
    MayStillBeSigned(cfg, s.base, s2.base, name, n);
    BothChecked(cfg, s2, name, m, n, a, b);
    BothRead(cfg, s4, name, m, n, a, b, data);
    t, u := BothWrite(cfg, s6, name, m, n, a, b, w);
    BothSign(cfg, s8, name, m, n, a, b, t, u);
  }

  /** The states after each pair of steps. */
  lemma RaceInPairs(cfg: Config, s: SplitState, name: string, m: BLSSignMsg, n: BLSSignMsg)
    returns (s2: SplitState, s4: SplitState, s6: SplitState, s8: SplitState)
    requires cfg.lib.order > 0
    ensures s2 == ApplySplit(cfg, ApplySplit(cfg, s, Other(Arrive(0, name, m))), Other(Arrive(1, name, n)))
    ensures s4 == ApplySplit(cfg, ApplySplit(cfg, s2, Other(Check(0))), Other(Check(1)))
    ensures s6 == ApplySplit(cfg, ApplySplit(cfg, s4, Read(0)), Read(1))
    ensures s8 == ApplySplit(cfg, ApplySplit(cfg, s6, Write(0)), Write(1))
    ensures SplitRun(cfg, s, Race(name, m, n))
            == ApplySplit(cfg, ApplySplit(cfg, s8, Other(SignStep(0))), Other(SignStep(1)))
  {
    hide SplitRun, ApplySplit;
    PairFirst(cfg, s, Other(Arrive(0, name, m)), Other(Arrive(1, name, n)), RaceFromCheck());
    s2 := ApplySplit(cfg, ApplySplit(cfg, s, Other(Arrive(0, name, m))), Other(Arrive(1, name, n)));
    PairFirst(cfg, s2, Other(Check(0)), Other(Check(1)), RaceFromRead());
    s4 := ApplySplit(cfg, ApplySplit(cfg, s2, Other(Check(0))), Other(Check(1)));
    PairFirst(cfg, s4, Read(0), Read(1), RaceFromWrite());
    s6 := ApplySplit(cfg, ApplySplit(cfg, s4, Read(0)), Read(1));
    PairFirst(cfg, s6, Write(0), Write(1), [Other(SignStep(0)), Other(SignStep(1))]);
    s8 := ApplySplit(cfg, ApplySplit(cfg, s6, Write(0)), Write(1));
    Pair(cfg, s8, Other(SignStep(0)), Other(SignStep(1)));
  }

  lemma SignableFacts(cfg: Config, s: State, name: string, msg: BLSSignMsg, data: Data, root: Root)
    requires cfg.lib.order > 0 && MayBeSigned(cfg, s, name, msg)
    requires ReadData(s.files, name).Ok? ==> data == ReadData(s.files, name).value
    requires root == ToSigningRoot(cfg.lib.hash, msg, Some(cfg.genesis))
    ensures CanBeSlashed(msg) && ReadData(s.files, name) == Ok(data)
    ensures Record(data, StoredEntry(cfg.lib.hash, msg), cfg.growable).Ok?
    ensures SignWithSavedSk(cfg.lib, s.keys, name, root).Ok?
  {
    hide CanBeSlashed, ReadData, Record, StoredEntry, SignWithSavedSk, ToSigningRoot, SanitizeBlsPkHex;
  }

  lemma MayStillBeSigned(cfg: Config, s: State, s': State, name: string, msg: BLSSignMsg)
    requires cfg.lib.order > 0 && MayBeSigned(cfg, s, name, msg) && s'.files == s.files && s'.keys == s.keys
    ensures MayBeSigned(cfg, s', name, msg)
  {
    hide CanBeSlashed, ReadData, Record, StoredEntry, SignWithSavedSk, ToSigningRoot, SanitizeBlsPkHex;
  }

  /** Both requests are signed when one is handled after the other. */
  predicate SignedInTurn(cfg: Config, s: State, name: string, m: BLSSignMsg, n: BLSSignMsg)
    requires cfg.lib.order > 0
  {
    var first := Handle(cfg.lib, cfg.growable, cfg.genesis, s.files, s.keys, name, m);
    && first.outcome.Signed?
    && Handle(cfg.lib, cfg.growable, cfg.genesis, first.files, s.keys, name, n).outcome.Signed?
  }

  lemma SignedIffRecorded(cfg: Config, files: Files, keys: KeyFiles, name: string, msg: BLSSignMsg, data: Data)
    requires cfg.lib.order > 0 && CanBeSlashed(msg) && SanitizeBlsPkHex(name) == Ok(name)
    requires ReadData(files, name) == Ok(data)
    requires SignWithSavedSk(cfg.lib, keys, name, ToSigningRoot(cfg.lib.hash, msg, Some(cfg.genesis))).Ok?
    ensures Handle(cfg.lib, cfg.growable, cfg.genesis, files, keys, name, msg).outcome.Signed?
            <==> Record(data, StoredEntry(cfg.lib.hash, msg), cfg.growable).Ok?
  {
    RecordRefinesWatermark(data, StoredEntry(cfg.lib.hash, msg), cfg.growable);
    hide Record, StoredEntry, SignWithSavedSk, ToSigningRoot, MarkOf, Admits, ReadData, WriteData, SanitizeBlsPkHex;
  }

  /** Handled on its own, such a request is signed, and its file holds what was recorded. */
  lemma HandledAlone(cfg: Config, s: State, name: string, msg: BLSSignMsg)
    requires cfg.lib.order > 0 && Framed(s.files) && MayBeSigned(cfg, s, name, msg)
    ensures var e := Handle(cfg.lib, cfg.growable, cfg.genesis, s.files, s.keys, name, msg);
            var recorded := Record(ReadData(s.files, name).value, StoredEntry(cfg.lib.hash, msg), cfg.growable);
            && e.outcome.Signed? && ReadData(e.files, name) == recorded
  {
    var data := ReadData(s.files, name).value;
    SignableFacts(cfg, s, name, msg, data, ToSigningRoot(cfg.lib.hash, msg, Some(cfg.genesis)));
    assert SanitizeBlsPkHex(name) == Ok(name);
    hide MayBeSigned, Handle, Record, StoredEntry, SignWithSavedSk, ToSigningRoot, CanBeSlashed, WriteData, Framed;
    hide ReadData, SanitizeBlsPkHex, Strip0x;
    SignedIffRecorded(cfg, s.files, s.keys, name, msg, data);
    RecordedIsRead(cfg, s.files, s.keys, name, msg, data);
  }

  lemma RecordedIsRead(cfg: Config, files: Files, keys: KeyFiles, name: string, msg: BLSSignMsg, data: Data)
    requires cfg.lib.order > 0 && Framed(files) && CanBeSlashed(msg) && ReadData(files, name) == Ok(data)
    requires Handle(cfg.lib, cfg.growable, cfg.genesis, files, keys, name, msg).outcome.Signed?
    requires SanitizeBlsPkHex(name) == Ok(name)
    ensures ReadData(Handle(cfg.lib, cfg.growable, cfg.genesis, files, keys, name, msg).files, name)
            == Record(data, StoredEntry(cfg.lib.hash, msg), cfg.growable)
  {
    HandleMeaning(cfg.lib, cfg.growable, cfg.genesis, files, keys, name, msg);
    hide Handle, Record, StoredEntry, SignWithSavedSk, ToSigningRoot, CanBeSlashed, WriteData, MarkOf, Framed, Admits;
    RecordRefinesWatermark(data, StoredEntry(cfg.lib.hash, msg), cfg.growable);
    WriteBackIsFramed(files, name, Record(data, StoredEntry(cfg.lib.hash, msg), cfg.growable).value);
  }

  lemma SignedInTurnIff(cfg: Config, s: State, name: string, m: BLSSignMsg, n: BLSSignMsg)
    requires cfg.lib.order > 0 && Framed(s.files) && MayBeSigned(cfg, s, name, m) && MayBeSigned(cfg, s, name, n)
    ensures var recorded := Record(ReadData(s.files, name).value, StoredEntry(cfg.lib.hash, m), cfg.growable);
            && recorded.Ok?
            && (SignedInTurn(cfg, s, name, m, n)
                <==> Record(recorded.value, StoredEntry(cfg.lib.hash, n), cfg.growable).Ok?)
  {
    HandledAlone(cfg, s, name, m);
    AdmittedIsNotSlashable(cfg, s, name, n);
    var first := Handle(cfg.lib, cfg.growable, cfg.genesis, s.files, s.keys, name, m);
    var recorded := Record(ReadData(s.files, name).value, StoredEntry(cfg.lib.hash, m), cfg.growable).value;
    hide Handle, Record, StoredEntry, ToSigningRoot, MarkOf, Framed, ReadData, SignWithSavedSk, CanBeSlashed;
    SignedIffRecorded(cfg, first.files, s.keys, name, n, recorded);
  }

  lemma RaceConflictsIff(cfg: Config, s: State, name: string, m: BLSSignMsg, n: BLSSignMsg)
    requires cfg.lib.order > 0 && Framed(s.files) && MayBeSigned(cfg, s, name, m) && MayBeSigned(cfg, s, name, n)
    ensures Conflict(StoredEntry(cfg.lib.hash, m), StoredEntry(cfg.lib.hash, n))
            <==> (!SignedInTurn(cfg, s, name, m, n) && !SignedInTurn(cfg, s, name, n, m))
  {
    hide SignedInTurn, Record, StoredEntry, SignWithSavedSk, ToSigningRoot, Framed, ReadData, Conflict;
    SignedInTurnIff(cfg, s, name, m, n);
    SignedInTurnIff(cfg, s, name, n, m);
    OverlapConflictsIff(ReadData(s.files, name).value, StoredEntry(cfg.lib.hash, m), StoredEntry(cfg.lib.hash, n),
                        cfg.growable);
  }

  // ---------------------------------------------------------------- slashable requests

  /** Signatures on both are an offence: a double proposal, or a double or surround vote in either order. */
  predicate Slashable(h: Hash, m: BLSSignMsg, n: BLSSignMsg) {
    || (DutyOf(m) == Propose && DutyOf(n) == Propose && IsDoubleProposal(ProposedHeader(h, m), ProposedHeader(h, n)))
    || (DutyOf(m) == Attest && DutyOf(n) == Attest &&
        (IsSlashableAttestationData(VotedData(m), VotedData(n)) ||
         IsSlashableAttestationData(VotedData(n), VotedData(m))))
  }

  /** Both ask for the same header or the same vote, perhaps in different forms. */
  predicate SameObject(h: Hash, m: BLSSignMsg, n: BLSSignMsg) {
    DutyOf(m) == DutyOf(n) && ObjectOf(h, m) == ObjectOf(h, n)
  }

  lemma ObjectOfDuty(h: Hash, m: BLSSignMsg)
    ensures DutyOf(m) == Propose ==> ObjectOf(h, m) == HeaderObject(ProposedHeader(h, m))
    ensures DutyOf(m) == Attest ==> ObjectOf(h, m) == VoteObject(VotedData(m))
  {
  }

  /** Requests are slashable together exactly when their entries conflict and they are for different objects. */
  lemma SlashableIff(h: Hash, m: BLSSignMsg, n: BLSSignMsg)
    requires CanBeSlashed(m) && CanBeSlashed(n)
    ensures Slashable(h, m, n) <==> !SameObject(h, m, n) && Conflict(StoredEntry(h, m), StoredEntry(h, n))
  {
    SlashableDuty(m);
    SlashableDuty(n);
    ObjectOfDuty(h, m);
    ObjectOfDuty(h, n);
    hide DutyOf, CanBeSlashed, ObjectOf, StoredEntry, ProposedHeader, VotedData, ToSigningRoot;
    if DutyOf(m) == Propose { ProposalEntry(h, m); } else { VoteEntry(h, m); }
    if DutyOf(n) == Propose { ProposalEntry(h, n); } else { VoteEntry(h, n); }
  }

  /** What the race releases is slashable exactly when the two requests are for different objects and neither
      order of handling one after the other would have signed both. */
  lemma RaceIsSlashableIff(cfg: Config, s: State, name: string, m: BLSSignMsg, n: BLSSignMsg)
    requires cfg.lib.order > 0 && Framed(s.files) && MayBeSigned(cfg, s, name, m) && MayBeSigned(cfg, s, name, n)
    ensures Slashable(cfg.lib.hash, m, n)
            <==> (!SameObject(cfg.lib.hash, m, n) &&
                  !SignedInTurn(cfg, s, name, m, n) && !SignedInTurn(cfg, s, name, n, m))
  {
    assert CanBeSlashed(m) && CanBeSlashed(n);
    hide *;
    RaceConflictsIff(cfg, s, name, m, n);
    SlashableIff(cfg.lib.hash, m, n);
  }

  /** After the race the file covers the request that was written first, and the two do not conflict, exactly when
      both are of one kind and handling them one after the other, in the order of the writes, would have signed
      both.  In every other case a released signature is ahead of the database, or slashable. */
  lemma RaceIsHarmlessIff(cfg: Config, s: SplitState, name: string, m: BLSSignMsg, n: BLSSignMsg)
    requires cfg.lib.order > 0 && Framed(s.base.files) && Stand(s, None, None, None, None)
    requires MayBeSigned(cfg, s.base, name, m) && MayBeSigned(cfg, s.base, name, n)
    ensures var files := SplitRun(cfg, s, Race(name, m, n)).base.files;
            var x, y := StoredEntry(cfg.lib.hash, m), StoredEntry(cfg.lib.hash, n);
            && name in files && Below(y, MarkOf(files[name]))
            && ((!Conflict(x, y) && Below(x, MarkOf(files[name])))
                <==> (SameKind(x, y) && SignedInTurn(cfg, s.base, name, m, n)))
  {
    var data := ReadData(s.base.files, name).value;
    var x, y := StoredEntry(cfg.lib.hash, m), StoredEntry(cfg.lib.hash, n);
    SignableFacts(cfg, s.base, name, m, data, ToSigningRoot(cfg.lib.hash, m, Some(cfg.genesis)));
    SignableFacts(cfg, s.base, name, n, data, ToSigningRoot(cfg.lib.hash, n, Some(cfg.genesis)));
    RecordKeepsName(s.base.files, name, y, cfg.growable);
    assert SanitizeBlsPkHex(name) == Ok(name);
    assert Strip0x(name) == name;
    hide Strip0x, SplitRun, Race, MayBeSigned, SignedInTurn, Record, MarkOf, Conflict, StoredEntry, Framed, ReadData;
    hide ToSigningRoot, SignWithSavedSk, Stand, SanitizeBlsPkHex, Below;
    var _, _ := RaceReleasesBoth(cfg, s, name, m, n);
    SignedInTurnIff(cfg, s.base, name, m, n);
    OverlapIsHarmlessIff(data, x, y, cfg.growable);
    RecordedIsBelow(data, y, cfg.growable);
  }

  lemma RecordKeepsName(files: Files, name: string, e: Entry, growable: bool)
    requires Framed(files) && ReadData(files, name).Ok? && Record(ReadData(files, name).value, e, growable).Ok?
    ensures FileName(Record(ReadData(files, name).value, e, growable).value) == Strip0x(name)
  {
    RecordRefinesWatermark(ReadData(files, name).value, e, growable);
  }

  lemma RecordedIsBelow(d: Data, e: Entry, growable: bool)
    requires Record(d, e, growable).Ok?
    ensures Below(e, MarkOf(Record(d, e, growable).value))
  {
    hide MarkOf, Record;
    RecordRefinesWatermark(d, e, growable);
  }

  // ---------------------------------------------------------------- a double proposal from nothing

  /** From nothing: a key is generated, its database is created, and then two requests race. */
  function RaceFromNothing(poly: SecretKeySet, name: string, m: BLSSignMsg, n: BLSSignMsg): seq<SplitEvent> {
    [Other(GenerateKey(poly)), Other(CreateDatabase(name))] + Race(name, m, n)
  }

  /** The state after the key was generated and its database created. */
  lemma FreshStore(cfg: Config, poly: SecretKeySet, name: string)
    requires Lawful(cfg.lib) && IsKeySet(cfg.lib, poly)
    requires name == PublicKeyHex(cfg.lib, PublicKey(cfg.lib, PublicKeys(cfg.lib, poly)))
    ensures var s := SplitRun(cfg, SplitStart(map[], map[]), [Other(GenerateKey(poly)), Other(CreateDatabase(name))]);
            && s.windows == map[] && s.base.inFlight == map[] && s.base.emitted == []
            && name in s.base.files && s.base.files[name].signedBlocks == []
            && FetchBlsSk(cfg.lib, s.base.keys, name) == Ok(poly)
  {
    var s0 := SplitStart(map[], map[]);
    var point := PublicKey(cfg.lib, PublicKeys(cfg.lib, poly));
    assert FreshKey(cfg, s0.base, poly);
    Pair(cfg, s0, Other(GenerateKey(poly)), Other(CreateDatabase(name)));
    GeneratedState(cfg, s0.base, poly, name);
    KeyReadsBack(cfg.lib, map[], poly, name);
    hide SplitRun, PublicKeyHex, PublicKey, PublicKeys, Lawful, IsKeySet, Apply, FetchBlsSk, HexEncode, FreshKey;
    CreatedState(cfg, Apply(cfg, s0.base, GenerateKey(poly)), name, point);
  }

  /** Two signatures of one key, on the roots of these two headers under proposer domains. */
  predicate BothProposed(cfg: Config, emitted: seq<Emission>, m: BlockV2Request, n: BlockV2Request) {
    var h := cfg.lib.hash;
    var dm, dn := SignableBlockV2(h, m).domain, SignableBlockV2(h, n).domain;
    && |emitted| == 2 && OfOneKey(emitted, 0, 1)
    && dm[..4] == dn[..4] == DOMAIN_BEACON_PROPOSER
    && emitted[0].release.root == ComputeSigningRoot(h, m.blockHeader.ToTree(), dm)
    && emitted[1].release.root == ComputeSigningRoot(h, n.blockHeader.ToTree(), dn)
  }

  /** For every key and every two different headers of one slot above zero there is a run, with one pair of
      overlapping windows, that releases signatures of that key on the proposer roots of both. */
  lemma OverlapReleasesDoubleProposal(cfg: Config, poly: SecretKeySet, m: BlockV2Request, n: BlockV2Request)
    requires Lawful(cfg.lib) && IsKeySet(cfg.lib, poly)
    requires IsDoubleProposal(m.blockHeader, n.blockHeader) && m.blockHeader.slot > 0
    ensures var name := PublicKeyHex(cfg.lib, PublicKey(cfg.lib, PublicKeys(cfg.lib, poly)));
            var run := RaceFromNothing(poly, name, BlockV2(m), BlockV2(n));
            BothProposed(cfg, SplitRun(cfg, SplitStart(map[], map[]), run).base.emitted, m, n)
  {
    var name := PublicKeyHex(cfg.lib, PublicKey(cfg.lib, PublicKeys(cfg.lib, poly)));
    assert cfg.lib.order > 0 && n.blockHeader.slot > 0;
    hide *;
    var x, y := RaceFromNothingReleases(cfg, poly, name, m, n);
    TwoProposals(cfg, x, y, name, m, n);
  }

  lemma TwoProposals(cfg: Config, x: Emission, y: Emission, name: string, m: BlockV2Request, n: BlockV2Request)
    requires x.release.keyName == name && x.release.msg == BlockV2(m) &&
             x.release.root == ToSigningRoot(cfg.lib.hash, BlockV2(m), Some(cfg.genesis))
    requires y.release.keyName == name && y.release.msg == BlockV2(n) &&
             y.release.root == ToSigningRoot(cfg.lib.hash, BlockV2(n), Some(cfg.genesis))
    ensures BothProposed(cfg, [x, y], m, n)
  {
    HeaderRoot(cfg, m);
    HeaderRoot(cfg, n);
    hide ToSigningRoot, SignableBlockV2, ComputeSigningRoot, BeaconBlockHeader.ToTree;
  }

  lemma RaceFromNothingReleases(cfg: Config, poly: SecretKeySet, name: string, m: BlockV2Request, n: BlockV2Request)
    returns (x: Emission, y: Emission)
    requires Lawful(cfg.lib) && IsKeySet(cfg.lib, poly) && m.blockHeader.slot > 0 && n.blockHeader.slot > 0
    requires name == PublicKeyHex(cfg.lib, PublicKey(cfg.lib, PublicKeys(cfg.lib, poly)))
    ensures SplitRun(cfg, SplitStart(map[], map[]), RaceFromNothing(poly, name, BlockV2(m), BlockV2(n))).base.emitted
            == [x, y]
    ensures x.release.keyName == name && x.release.msg == BlockV2(m) &&
             x.release.root == ToSigningRoot(cfg.lib.hash, BlockV2(m), Some(cfg.genesis))
    ensures y.release.keyName == name && y.release.msg == BlockV2(n) &&
             y.release.root == ToSigningRoot(cfg.lib.hash, BlockV2(n), Some(cfg.genesis))
  {
    assert cfg.lib.order > 0;
    hide *;
    var s := SplitRun(cfg, SplitStart(map[], map[]), [Other(GenerateKey(poly)), Other(CreateDatabase(name))]);
    FreshReady(cfg, poly, name, m);
    FreshReady(cfg, poly, name, n);
    RaceAfter(cfg, poly, name, BlockV2(m), BlockV2(n));
    var t, u := RaceReleasesBoth(cfg, s, name, BlockV2(m), BlockV2(n));
    LastTwo(SplitRun(cfg, s, Race(name, BlockV2(m), BlockV2(n))).base.emitted, s.base.emitted);
    x := SplitRun(cfg, s, Race(name, BlockV2(m), BlockV2(n))).base.emitted[0];
    y := SplitRun(cfg, s, Race(name, BlockV2(m), BlockV2(n))).base.emitted[1];
  }

  lemma LastTwo(emitted: seq<Emission>, before: seq<Emission>)
    ensures before == [] && |emitted| == 2 ==> emitted == [emitted[0], emitted[1]]
  {
  }

  lemma FreshReady(cfg: Config, poly: SecretKeySet, name: string, m: BlockV2Request)
    requires Lawful(cfg.lib) && IsKeySet(cfg.lib, poly) && m.blockHeader.slot > 0
    requires name == PublicKeyHex(cfg.lib, PublicKey(cfg.lib, PublicKeys(cfg.lib, poly)))
    ensures var s := SplitRun(cfg, SplitStart(map[], map[]), [Other(GenerateKey(poly)), Other(CreateDatabase(name))]);
            && Stand(s, None, None, None, None) && s.base.emitted == []
            && MayBeSigned(cfg, s.base, name, BlockV2(m))
  {
    FreshStore(cfg, poly, name);
    var s := SplitRun(cfg, SplitStart(map[], map[]), [Other(GenerateKey(poly)), Other(CreateDatabase(name))]);
    hide SplitRun, MayBeSigned, PublicKeyHex, PublicKey, PublicKeys, Lawful, IsKeySet, FetchBlsSk;
    FreshAdmits(cfg, s.base, name, poly, m);
  }

  lemma RaceAfter(cfg: Config, poly: SecretKeySet, name: string, m: BLSSignMsg, n: BLSSignMsg)
    requires cfg.lib.order > 0
    ensures var s := SplitRun(cfg, SplitStart(map[], map[]), [Other(GenerateKey(poly)), Other(CreateDatabase(name))]);
            SplitRun(cfg, SplitStart(map[], map[]), RaceFromNothing(poly, name, m, n))
            == SplitRun(cfg, s, Race(name, m, n))
  {
    hide SplitRun, Race;
    SplitRunConcat(cfg, SplitStart(map[], map[]), [Other(GenerateKey(poly)), Other(CreateDatabase(name))],
                   Race(name, m, n));
  }

  lemma HeaderRoot(cfg: Config, m: BlockV2Request)
    ensures ToSigningRoot(cfg.lib.hash, BlockV2(m), Some(cfg.genesis))
            == ComputeSigningRoot(cfg.lib.hash, m.blockHeader.ToTree(), SignableBlockV2(cfg.lib.hash, m).domain)
  {
    hide ComputeSigningRoot, BeaconBlockHeader.ToTree, GetDomain;
  }

  lemma FreshAdmits(cfg: Config, s: State, name: string, poly: SecretKeySet, m: BlockV2Request)
    requires cfg.lib.order > 0 && m.blockHeader.slot > 0
    requires name == PublicKeyHex(cfg.lib, PublicKey(cfg.lib, PublicKeys(cfg.lib, poly)))
    requires name in s.files && s.files[name].signedBlocks == [] && FetchBlsSk(cfg.lib, s.keys, name) == Ok(poly)
    ensures MayBeSigned(cfg, s, name, BlockV2(m))
  {
    hide ToSigningRoot, PublicKeyHex, PublicKey, PublicKeys, FetchBlsSk, Sign, SecretKey;
  }
}
