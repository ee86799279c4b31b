/** The slashing protection database of one validator key: what it records, when it refuses, and what its
    refusals guarantee about everything it ever accepted, including what it no longer stores. */
module SlashingProtection {
  import opened Wrappers
  import opened Bytes
  import opened Ssz
  import opened SigningMessages

  datatype SignedBlockSlot = SignedBlockSlot(slot: Slot, signingRoot: Option<Root>)

  datatype SignedAttestationEpochs =
    SignedAttestationEpochs(sourceEpoch: Epoch, targetEpoch: Epoch, signingRoot: Option<Root>)

  /** The contents of a database file. */
  datatype Data = Data(
    pubkey: Bytes48, signedBlocks: seq<SignedBlockSlot>, signedAttestations: seq<SignedAttestationEpochs>)

  // ---------------------------------------------------------------- the latest slot and epochs

  /** The largest recorded slot, 0 if there is none. */
  function LatestSlot(blocks: seq<SignedBlockSlot>): (slot: Slot)
    ensures forall i :: 0 <= i < |blocks| ==> blocks[i].slot <= slot
    ensures blocks == [] ==> slot == 0
    ensures blocks != [] ==> exists i :: 0 <= i < |blocks| && blocks[i].slot == slot
  {
    if blocks == [] then 0 else
      var rest := LatestSlot(blocks[1..]);
      assert forall i :: 1 <= i < |blocks| ==> blocks[i] == blocks[1..][i - 1];
      if rest <= blocks[0].slot then blocks[0].slot else
        assert exists i :: 0 <= i < |blocks[1..]| && blocks[1..][i].slot == rest;
        rest
  }

  /** The largest recorded source epoch, 0 if there is none. */
  function LatestSource(attestations: seq<SignedAttestationEpochs>): (epoch: Epoch)
    ensures forall i :: 0 <= i < |attestations| ==> attestations[i].sourceEpoch <= epoch
    ensures attestations == [] ==> epoch == 0
    ensures attestations != [] ==> exists i :: 0 <= i < |attestations| && attestations[i].sourceEpoch == epoch
  {
    if attestations == [] then 0 else
      var rest := LatestSource(attestations[1..]);
      assert forall i :: 1 <= i < |attestations| ==> attestations[i] == attestations[1..][i - 1];
      if rest <= attestations[0].sourceEpoch then attestations[0].sourceEpoch else
        assert exists i :: 0 <= i < |attestations[1..]| && attestations[1..][i].sourceEpoch == rest;
        rest
  }

  /** The largest recorded target epoch, 0 if there is none. */
  function LatestTarget(attestations: seq<SignedAttestationEpochs>): (epoch: Epoch)
    ensures forall i :: 0 <= i < |attestations| ==> attestations[i].targetEpoch <= epoch
    ensures attestations == [] ==> epoch == 0
    ensures attestations != [] ==> exists i :: 0 <= i < |attestations| && attestations[i].targetEpoch == epoch
  {
    if attestations == [] then 0 else
      var rest := LatestTarget(attestations[1..]);
      assert forall i :: 1 <= i < |attestations| ==> attestations[i] == attestations[1..][i - 1];
      if rest <= attestations[0].targetEpoch then attestations[0].targetEpoch else
        assert exists i :: 0 <= i < |attestations[1..]| && attestations[1..][i].targetEpoch == rest;
        rest
  }

  // ---------------------------------------------------------------- recording, as a function of the contents

  /** What one request adds to the database. */
  datatype Entry = BlockEntry(block: SignedBlockSlot) | AttestationEntry(attestation: SignedAttestationEpochs)

  /** Appended when the database may grow or is empty, otherwise put in place of the first element. */
  function Put<T>(entries: seq<T>, e: T, growable: bool): seq<T> {
    if growable || entries == [] then entries + [e] else entries[0 := e]
  }

  function Record(d: Data, e: Entry, growable: bool): Result<Data> {
    match e
    case BlockEntry(b) =>
      if b.slot <= LatestSlot(d.signedBlocks) then Err(SlashableBlock)
      else Ok(d.(signedBlocks := Put(d.signedBlocks, b, growable)))
    case AttestationEntry(a) =>
      if a.sourceEpoch < LatestSource(d.signedAttestations) || a.targetEpoch <= LatestTarget(d.signedAttestations)
      then Err(SlashableAttestation)
      else Ok(d.(signedAttestations := Put(d.signedAttestations, a, growable)))
  }

  // ---------------------------------------------------------------- the database object

  class SlashingProtectionData {
    const pubkey: Bytes48
    var signedBlocks: seq<SignedBlockSlot>
    var signedAttestations: seq<SignedAttestationEpochs>

    function Contents(): Data
      reads this
    {
      Data(pubkey, signedBlocks, signedAttestations)
    }

    constructor (d: Data)
      ensures Contents() == d
    {
      pubkey, signedBlocks, signedAttestations := d.pubkey, d.signedBlocks, d.signedAttestations;
    }

    function GetLatestSignedBlockSlot(): Slot
      reads this
    {
      LatestSlot(signedBlocks)
    }

    function GetLatestSignedAttestationEpochs(): (Epoch, Epoch)
      reads this
    {
      (LatestSource(signedAttestations), LatestTarget(signedAttestations))
    }

    /** Refuses exactly what `NewBlock` would refuse to record. */
    predicate IsSlashableBlockSlot(slot: Slot)
      reads this
      ensures !IsSlashableBlockSlot(slot) <==>
              (slot > 0 && forall i :: 0 <= i < |signedBlocks| ==> signedBlocks[i].slot < slot)
      ensures IsSlashableBlockSlot(slot) <==> slot <= MarkOf(Contents()).slot
    {
      slot <= GetLatestSignedBlockSlot()
    }

    /** Refuses exactly what `NewAttestation` would refuse to record. */
    predicate IsSlashableAttestationEpochs(source: Epoch, target: Epoch)
      reads this
      ensures !IsSlashableAttestationEpochs(source, target) <==>
              (target > 0 &&
               forall i :: 0 <= i < |signedAttestations| ==>
                 signedAttestations[i].sourceEpoch <= source && signedAttestations[i].targetEpoch < target)
      ensures IsSlashableAttestationEpochs(source, target)
              <==> source < MarkOf(Contents()).source || target <= MarkOf(Contents()).target
    {
      var latest := GetLatestSignedAttestationEpochs();
      source < latest.0 || target <= latest.1
    }

    method NewBlock(block: SignedBlockSlot, growable: bool) returns (r: Result<()>)
      modifies this
      ensures r.Ok? <==>
              (block.slot > 0 && forall i :: 0 <= i < |old(signedBlocks)| ==> old(signedBlocks)[i].slot < block.slot)
      ensures Record(old(Contents()), BlockEntry(block), growable) == if r.Ok? then Ok(Contents()) else Err(r.error)
      ensures r.Err? ==> r.error == SlashableBlock
      ensures r.Ok? ==> Took(old(signedBlocks), signedBlocks, block, growable)
      ensures signedAttestations == old(signedAttestations)
      ensures r.Err? ==> Contents() == old(Contents())
    {
      if block.slot <= GetLatestSignedBlockSlot() {
        return Err(SlashableBlock);
      }
      if growable || signedBlocks == [] {
        signedBlocks := signedBlocks + [block];
      } else {
        signedBlocks := signedBlocks[0 := block];
      }
      return Ok(());
    }

    method NewAttestation(attest: SignedAttestationEpochs, growable: bool) returns (r: Result<()>)
      modifies this
      ensures r.Ok? <==>
              (attest.targetEpoch > 0 &&
               forall i :: 0 <= i < |old(signedAttestations)| ==>
                 old(signedAttestations)[i].sourceEpoch <= attest.sourceEpoch &&
                 old(signedAttestations)[i].targetEpoch < attest.targetEpoch)
      ensures Record(old(Contents()), AttestationEntry(attest), growable)
              == if r.Ok? then Ok(Contents()) else Err(r.error)
      ensures r.Err? ==> r.error == SlashableAttestation
      ensures r.Ok? ==> Took(old(signedAttestations), signedAttestations, attest, growable)
      ensures signedBlocks == old(signedBlocks)
      ensures r.Err? ==> Contents() == old(Contents())
    {
      var (prevSource, prevTarget) := GetLatestSignedAttestationEpochs();
      if attest.sourceEpoch < prevSource {
        return Err(SlashableAttestation);
      }
      if attest.targetEpoch <= prevTarget {
        return Err(SlashableAttestation);
      }
      if growable || signedAttestations == [] {
        signedAttestations := signedAttestations + [attest];
      } else {
        signedAttestations := signedAttestations[0 := attest];
      }
      return Ok(());
    }
  }

  // ---------------------------------------------------------------- refinement of a watermark

  /** All that the refusals depend on. */
  datatype Watermark = Watermark(slot: Slot, source: Epoch, target: Epoch)

  function MarkOf(d: Data): Watermark {
    Watermark(LatestSlot(d.signedBlocks), LatestSource(d.signedAttestations), LatestTarget(d.signedAttestations))
  }

  predicate Admits(w: Watermark, e: Entry) {
    match e
    case BlockEntry(b) => b.slot > w.slot
    case AttestationEntry(a) => a.sourceEpoch >= w.source && a.targetEpoch > w.target
  }

  function Advance(w: Watermark, e: Entry): Watermark {
    match e
    case BlockEntry(b) => w.(slot := b.slot)
    case AttestationEntry(a) => w.(source := a.sourceEpoch, target := a.targetEpoch)
  }

  predicate AtMost(v: Watermark, w: Watermark) {
    v.slot <= w.slot && v.source <= w.source && v.target <= w.target
  }

  /** `e` does not reach beyond the watermark. */
  predicate Below(e: Entry, w: Watermark) {
    match e
    case BlockEntry(b) => b.slot <= w.slot
    case AttestationEntry(a) => a.sourceEpoch <= w.source && a.targetEpoch <= w.target
  }

  /** In both modes recording accepts what the watermark admits and moves the watermark to the new entry,
      even where it overwrites an entry of a longer list. */
  lemma RecordRefinesWatermark(d: Data, e: Entry, growable: bool)
    ensures Record(d, e, growable).Ok? <==> Admits(MarkOf(d), e)
    ensures Record(d, e, growable).Ok? ==>
              var d' := Record(d, e, growable).value;
              d'.pubkey == d.pubkey && MarkOf(d') == Advance(MarkOf(d), e)
  {
    if Record(d, e, growable).Ok? {
      match e
      case BlockEntry(b) =>
        var bs := Put(d.signedBlocks, b, growable);
        var k := if growable then |bs| - 1 else 0;
        assert bs[k] == b;
      case AttestationEntry(a) =>
        var s := Put(d.signedAttestations, a, growable);
        var k := if growable then |s| - 1 else 0;
        assert s[k] == a;
    }
  }

  // ---------------------------------------------------------------- which entry is the newest

  /** Where the newest entry lies: at the end of a growing list, at index 0 otherwise. */
  function NewestIndex(length: nat, growable: bool): (k: nat)
    requires length > 0
    ensures k < length
  {
    if growable then length - 1 else 0
  }

  /** `e` is on file as the newest of its kind, with the highest slot or target. */
  predicate StoredAsNewest(d: Data, e: Entry, growable: bool) {
    match e
    case BlockEntry(b) =>
      && d.signedBlocks != []
      && d.signedBlocks[NewestIndex(|d.signedBlocks|, growable)] == b
      && b.slot == LatestSlot(d.signedBlocks)
    case AttestationEntry(a) =>
      && d.signedAttestations != []
      && d.signedAttestations[NewestIndex(|d.signedAttestations|, growable)] == a
      && a.targetEpoch == LatestTarget(d.signedAttestations)
  }

  predicate SameKind(x: Entry, y: Entry) {
    x.BlockEntry? <==> y.BlockEntry?
  }

  /** An accepted entry becomes the newest of its kind; the other kind is not disturbed. */
  lemma RecordStoresNewest(d: Data, e: Entry, growable: bool)
    requires Record(d, e, growable).Ok?
    ensures StoredAsNewest(Record(d, e, growable).value, e, growable)
    ensures forall x :: !SameKind(x, e) && StoredAsNewest(d, x, growable)
              ==> StoredAsNewest(Record(d, e, growable).value, x, growable)
  {
    RecordRefinesWatermark(d, e, growable);
  }

  /** How a list grows by one entry: at the end, or, once it has an entry and may not grow, at index 0 in the place
      of the entry there.  Every other entry stays where it is. */
  predicate Took<T(==)>(before: seq<T>, after: seq<T>, e: T, growable: bool) {
    && |after| == (if growable || |before| == 0 then |before| + 1 else |before|)
    && after[NewestIndex(|after|, growable)] == e
    && forall i :: 0 <= i < |before| && i != NewestIndex(|after|, growable) ==> after[i] == before[i]
  }

  /** An accepted entry goes into the list of its kind and changes nothing else. */
  lemma RecordKeepsTheRest(d: Data, e: Entry, growable: bool)
    requires Record(d, e, growable).Ok?
    ensures var d' := Record(d, e, growable).value;
            && d'.pubkey == d.pubkey
            && (match e
                case BlockEntry(b) =>
                  && Took(d.signedBlocks, d'.signedBlocks, b, growable)
                  && d'.signedAttestations == d.signedAttestations
                case AttestationEntry(a) =>
                  && Took(d.signedAttestations, d'.signedAttestations, a, growable)
                  && d'.signedBlocks == d.signedBlocks)
  {
  }

  // ---------------------------------------------------------------- histories

  /** The database after a sequence of requests; refused ones leave it as it is. */
  function Replay(start: Data, requests: seq<Entry>, growable: bool): Data {
    if requests == [] then start else
      var n := |requests| - 1;
      var d := Replay(start, requests[..n], growable);
      var r := Record(d, requests[n], growable);
      if r.Ok? then r.value else d
  }

  /** The requests accepted along the way, in order. */
  function Accepted(start: Data, requests: seq<Entry>, growable: bool): seq<Entry> {
    if requests == [] then [] else
      var n := |requests| - 1;
      var before := Accepted(start, requests[..n], growable);
      if Record(Replay(start, requests[..n], growable), requests[n], growable).Ok?
      then before + [requests[n]] else before
  }

  /** The requests a plain watermark would accept. */
  function AdmittedBy(w: Watermark, requests: seq<Entry>): (r: (Watermark, seq<Entry>)) {
    if requests == [] then (w, []) else
      var n := |requests| - 1;
      var (v, before) := AdmittedBy(w, requests[..n]);
      if Admits(v, requests[n]) then (Advance(v, requests[n]), before + [requests[n]]) else (v, before)
  }

  /** Either mode, from any database, behaves as the plain watermark does. */
  lemma {:induction false} ReplayIsWatermark(start: Data, requests: seq<Entry>, growable: bool)
    ensures AdmittedBy(MarkOf(start), requests)
            == (MarkOf(Replay(start, requests, growable)), Accepted(start, requests, growable))
  {
    if requests != [] {
      var n := |requests| - 1;
      ReplayIsWatermark(start, requests[..n], growable);
      RecordRefinesWatermark(Replay(start, requests[..n], growable), requests[n], growable);
    }
  }

  /** The growable and the one-slot database accept the same requests and report the same latest slot and
      epochs. */
  lemma ModesAgree(start: Data, requests: seq<Entry>)
    ensures Accepted(start, requests, true) == Accepted(start, requests, false)
    ensures MarkOf(Replay(start, requests, true)) == MarkOf(Replay(start, requests, false))
  {
    ReplayIsWatermark(start, requests, true);
    ReplayIsWatermark(start, requests, false);
  }

  function BlockEntries(blocks: seq<SignedBlockSlot>): seq<Entry> {
    seq(|blocks|, i requires 0 <= i < |blocks| => BlockEntry(blocks[i]))
  }

  function AttestationEntries(attestations: seq<SignedAttestationEpochs>): seq<Entry> {
    seq(|attestations|, i requires 0 <= i < |attestations| => AttestationEntry(attestations[i]))
  }

  function EntriesOf(d: Data): seq<Entry> {
    BlockEntries(d.signedBlocks) + AttestationEntries(d.signedAttestations)
  }

  /** Everything that was ever in the database: what it started with, then what it accepted. */
  function History(start: Data, requests: seq<Entry>, growable: bool): seq<Entry> {
    EntriesOf(start) + Accepted(start, requests, growable)
  }

  /** The offences of the consensus specification, read on what an entry records: two blocks for one slot,
      two votes for one target, or one vote surrounding the other. */
  predicate Conflict(x: Entry, y: Entry) {
    match (x, y)
    case (BlockEntry(b), BlockEntry(c)) => b.slot == c.slot
    case (AttestationEntry(a), AttestationEntry(b)) =>
      || a.targetEpoch == b.targetEpoch
      || (a.sourceEpoch < b.sourceEpoch && b.targetEpoch < a.targetEpoch)
      || (b.sourceEpoch < a.sourceEpoch && a.targetEpoch < b.targetEpoch)
    case _ => false
  }

  /** EIP-3076, section "Conditions": the requests a signer must refuse given a history. */
  ghost predicate MustRefuse(history: seq<Entry>, e: Entry) {
    || (exists x :: x in history && Conflict(x, e))
    || (e.BlockEntry? && (exists x :: x in history && x.BlockEntry?) &&
        forall x :: x in history && x.BlockEntry? ==> e.block.slot <= x.block.slot)
    || (e.AttestationEntry? && (exists x :: x in history && x.AttestationEntry?) &&
        forall x :: x in history && x.AttestationEntry? ==> e.attestation.sourceEpoch < x.attestation.sourceEpoch)
    || (e.AttestationEntry? && (exists x :: x in history && x.AttestationEntry?) &&
        forall x :: x in history && x.AttestationEntry? ==> e.attestation.targetEpoch <= x.attestation.targetEpoch)
  }

  /** The watermark bounds the whole history, also what was overwritten. */
  lemma {:induction false} HistoryBelowMark(start: Data, requests: seq<Entry>, growable: bool)
    ensures forall x :: x in History(start, requests, growable) ==> Below(x, MarkOf(Replay(start, requests, growable)))
  {
    if requests == [] {
      forall x | x in EntriesOf(start) ensures Below(x, MarkOf(start)) {
        assert x in BlockEntries(start.signedBlocks) || x in AttestationEntries(start.signedAttestations);
      }
    } else {
      var n := |requests| - 1;
      HistoryBelowMark(start, requests[..n], growable);
      RecordRefinesWatermark(Replay(start, requests[..n], growable), requests[n], growable);
      assert forall x :: x in History(start, requests, growable) ==>
                           x in History(start, requests[..n], growable) || x == requests[n];
    }
  }

  lemma AdmittedIsAllowed(history: seq<Entry>, w: Watermark, e: Entry)
    requires forall x :: x in history ==> Below(x, w)
    requires Admits(w, e)
    ensures !MustRefuse(history, e)
    ensures forall x :: x in history ==> !Conflict(x, e) && !Conflict(e, x)
  {
  }

  /** Whatever the starting database holds, no accepted request conflicts with anything before it, and each
      was allowed by every condition of EIP-3076 against the full history up to it. */
  lemma {:induction false} HistoryNeverConflicts(start: Data, requests: seq<Entry>, growable: bool)
    ensures var h := History(start, requests, growable);
            forall j :: |EntriesOf(start)| <= j < |h| ==>
              !MustRefuse(h[..j], h[j]) &&
              forall i :: 0 <= i < j ==> !Conflict(h[i], h[j]) && !Conflict(h[j], h[i])
  {
    if requests != [] {
      var n := |requests| - 1;
      var before, h := History(start, requests[..n], growable), History(start, requests, growable);
      HistoryNeverConflicts(start, requests[..n], growable);
      forall j | |EntriesOf(start)| <= j < |h|
        ensures !MustRefuse(h[..j], h[j]) &&
                forall i :: 0 <= i < j ==> !Conflict(h[i], h[j]) && !Conflict(h[j], h[i])
      {
        if j < |before| {
          assert h[..j] == before[..j] && h[j] == before[j];
        } else {
          var d := Replay(start, requests[..n], growable);
          HistoryBelowMark(start, requests[..n], growable);
          RecordRefinesWatermark(d, requests[n], growable);
          assert h[..j] == before && h[j] == requests[n];
          AdmittedIsAllowed(before, MarkOf(d), requests[n]);
        }
      }
    }
  }

  // ---------------------------------------------------------------- files

  /** A fresh database for the key with the given hexadecimal text. */
  function FromPkHex(pkHex: string): Result<Data> {
    var bytes :- HexDecode(Strip0x(pkHex));
    Ok(Data(Resize(bytes, 48), [], []))
  }

  function FileName(d: Data): (name: string)
    ensures |name| == 96 && Strip0x(name) == name
  {
    StripHexEncode(d.pubkey);
    HexEncode(d.pubkey)
  }

  type Files = map<string, Data>

  function ReadData(files: Files, pkHex: string): Result<Data> {
    var name := Strip0x(pkHex);
    if name in files then Ok(files[name]) else Err(NoSuchFile)
  }

  function WriteData(files: Files, d: Data): Files {
    files[FileName(d) := d]
  }

  /** Every database lies under the name of its own key. */
  ghost predicate Framed(files: Files) {
    forall name :: name in files ==> name == FileName(files[name])
  }

  /** A fresh database is written under the text it was made from exactly when that text is a full-length
      key in lower case. */
  lemma FromPkHexNamesItself(pkHex: string)
    requires FromPkHex(pkHex).Ok?
    ensures FileName(FromPkHex(pkHex).value) == Strip0x(pkHex)
            <==> |Strip0x(pkHex)| == 96 && IsLowerHex(Strip0x(pkHex))
  {
    var text := Strip0x(pkHex);
    HexCanonical(text);
    if |text| == 96 {
      assert Resize(HexDecode(text).value, 48) == HexDecode(text).value;
    }
  }

  /** Writing back an updated database goes to the file it was read from and touches no other. */
  lemma WriteBackIsFramed(files: Files, pkHex: string, d': Data)
    requires Framed(files) && ReadData(files, pkHex).Ok?
    requires d'.pubkey == ReadData(files, pkHex).value.pubkey
    ensures WriteData(files, d') == files[Strip0x(pkHex) := d']
    ensures Framed(WriteData(files, d'))
  {
  }

  /** Each file carries the key its name decodes to. */
  lemma NameDecodesToKey(files: Files, name: string)
    requires Framed(files) && name in files
    ensures HexDecode(name) == Ok(files[name].pubkey)
  {
    HexRoundTrip(files[name].pubkey);
  }
}
