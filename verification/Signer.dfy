/** The signing service: one request is checked against the slashing protection database, recorded in it,
    and only then signed. */
module Signer {
  import opened Wrappers
  import opened Bytes
  import opened Ssz
  import opened SigningMessages
  import opened SigningRoots
  import opened SlashingProtection
  import opened Library

  const BLS_PUB_KEY_BYTES := 48

  function SanitizeBlsPkHex(pkHex: string): Result<string> {
    var name := Strip0x(pkHex);
    if |name| != 2 * BLS_PUB_KEY_BYTES then Err(BadLength) else Ok(name)
  }

  /** What a request claims in the eyes of the slashing rules. */
  datatype Claim = Proposal(slot: Slot) | Vote(source: Epoch, target: Epoch) | Harmless

  function ClaimOf(msg: BLSSignMsg): (c: Claim)
    ensures CanBeSlashed(msg) <==> !c.Harmless?
  {
    match msg
    case Block(m) => Proposal(m.block.slot)
    case LowerBlock(m) => Proposal(m.block.slot)
    case BlockV2(m) => Proposal(m.blockHeader.slot)
    case LowerBlockV2(m) => Proposal(m.blockHeader.slot)
    case Attestation(m) => Vote(m.attestation.source.epoch, m.attestation.target.epoch)
    case LowerAttestation(m) => Vote(m.attestation.source.epoch, m.attestation.target.epoch)
    case _ => Harmless
  }

  /** The database entry for a block or attestation request. */
  function EntryByClaim(claim: Claim, root: Root): Entry
    requires !claim.Harmless?
  {
    match claim
    case Proposal(slot) => BlockEntry(SignedBlockSlot(slot, Some(root)))
    case Vote(source, target) => AttestationEntry(SignedAttestationEpochs(source, target, Some(root)))
  }

  function EntryOf(msg: BLSSignMsg, root: Root): Entry
    requires CanBeSlashed(msg)
  {
    EntryByClaim(ClaimOf(msg), root)
  }

  /** The entry with the root the database stores: computed without a configured genesis version. */
  function StoredEntry(h: Hash, msg: BLSSignMsg): Entry
    requires CanBeSlashed(msg)
  {
    EntryOf(msg, ToSigningRoot(h, msg, None))
  }

  /** The first look at the database. */
  function CheckDb(h: Hash, files: Files, pkHex: string, msg: BLSSignMsg): Result<bool> {
    var data :- ReadData(files, pkHex);
    Ok(CanBeSlashed(msg) && !Admits(MarkOf(data), StoredEntry(h, msg)))
  }

  /** Read, check again, record and write. */
  function UpdateDb(h: Hash, growable: bool, files: Files, pkHex: string, msg: BLSSignMsg): Result<Files> {
    var data :- ReadData(files, pkHex);
    if !CanBeSlashed(msg) then Err(NotSlashableKind) else
      var recorded :- Record(data, StoredEntry(h, msg), growable);
      Ok(WriteData(files, recorded))
  }

  /** The two looks at the database, by what the request claims. */
  lemma CheckByClaim(h: Hash, files: Files, pkHex: string, msg: BLSSignMsg)
    ensures CheckDb(h, files, pkHex, msg)
            == match ReadData(files, pkHex)
               case Err(e) => Err(e)
               case Ok(data) =>
                 match ClaimOf(msg)
                 case Proposal(slot) => Ok(slot <= MarkOf(data).slot)
                 case Vote(source, target) => Ok(source < MarkOf(data).source || target <= MarkOf(data).target)
                 case Harmless => Ok(false)
  {
    hide ToSigningRoot, ClaimOf, CanBeSlashed, MarkOf, ReadData;
  }

  lemma UpdateByClaim(h: Hash, growable: bool, files: Files, pkHex: string, msg: BLSSignMsg)
    ensures UpdateDb(h, growable, files, pkHex, msg)
            == match ReadData(files, pkHex)
               case Err(e) => Err(e)
               case Ok(data) =>
                 if ClaimOf(msg).Harmless? then Err(NotSlashableKind) else
                   match Record(data, EntryByClaim(ClaimOf(msg), ToSigningRoot(h, msg, None)), growable)
                   case Err(e) => Err(e)
                   case Ok(recorded) => Ok(WriteData(files, recorded))
  {
    hide ToSigningRoot, ClaimOf, CanBeSlashed, Record, ReadData, WriteData;
  }

  /** Signs with the key stored under `pkHex`, which must be the key's own lower-case text. */
  function SignWithSavedSk(lib: Lib, keys: KeyFiles, pkHex: string, root: Root): Result<nat>
    requires lib.order > 0
  {
    var poly :- FetchBlsSk(lib, keys, pkHex);
    if pkHex != PublicKeyHex(lib, PublicKey(lib, PublicKeys(lib, poly))) then Err(PublicKeyMismatch)
    else Ok(Sign(lib, SecretKey(lib, poly), root))
  }

  datatype Outcome = Signed(signature: nat) | BadRequest | Refused | Failed(error: Error)

  /** A signature that left the enclave: by which key, for which request, on which root, and the signature itself. */
  datatype Release = Release(keyName: string, msg: BLSSignMsg, root: Root, signature: nat)

  datatype Effect = Effect(outcome: Outcome, files: Files, releases: seq<Release>)

  /** The handling of one request without interference. */
  function Handle(lib: Lib, growable: bool, genesis: Version, files: Files, keys: KeyFiles,
                  pkHex: string, msg: BLSSignMsg): Effect
    requires lib.order > 0
  {
    var name := SanitizeBlsPkHex(pkHex);
    if msg.Deposit? || name.Err? then Effect(BadRequest, files, []) else
      var check := CheckDb(lib.hash, files, name.value, msg);
      if check.Err? then Effect(Failed(check.error), files, [])
      else if check.value then Effect(Refused, files, [])
      else
        var root := ToSigningRoot(lib.hash, msg, Some(genesis));
        var update := if CanBeSlashed(msg) then UpdateDb(lib.hash, growable, files, name.value, msg) else Ok(files);
        if update.Err? then Effect(Failed(update.error), files, []) else
          var signature := SignWithSavedSk(lib, keys, name.value, root);
          if signature.Err? then Effect(Failed(signature.error), update.value, [])
          else Effect(Signed(signature.value), update.value, [Release(name.value, msg, root, signature.value)])
  }

  class SigningService {
    const lib: Lib
    const growable: bool
    const genesisForkVersion: Version
    var slashing: Files
    var keys: KeyFiles
    ghost var released: seq<Release>

    constructor (lib: Lib, growable: bool, genesisForkVersion: Version, slashing: Files, keys: KeyFiles)
      ensures this.lib == lib && this.growable == growable && this.genesisForkVersion == genesisForkVersion
      ensures this.slashing == slashing && this.keys == keys && released == []
    {
      this.lib, this.growable, this.genesisForkVersion := lib, growable, genesisForkVersion;
      this.slashing, this.keys, this.released := slashing, keys, [];
    }

    method IsSlashable(pkHex: string, msg: BLSSignMsg) returns (r: Result<bool>)
      ensures r == CheckDb(lib.hash, slashing, pkHex, msg)
    {
      hide ToSigningRoot, ClaimOf, CanBeSlashed, MarkOf, ReadData, CheckDb, StoredEntry;
      hide SlashingProtectionData.Contents;
      CheckByClaim(lib.hash, slashing, pkHex, msg);
      var data :- ReadData(slashing, pkHex);
      var db := new SlashingProtectionData(data);
      match ClaimOf(msg)
      case Proposal(slot) => return Ok(db.IsSlashableBlockSlot(slot));
      case Vote(source, target) => return Ok(db.IsSlashableAttestationEpochs(source, target));
      case Harmless => return Ok(false);
    }

    method UpdateSlashProtectionDb(pkHex: string, msg: BLSSignMsg) returns (r: Result<()>)
      modifies this`slashing
      ensures r.Ok? ==> UpdateDb(lib.hash, growable, old(slashing), pkHex, msg) == Ok(slashing)
      ensures r.Err? ==> UpdateDb(lib.hash, growable, old(slashing), pkHex, msg) == Err(r.error)
      ensures r.Err? ==> slashing == old(slashing)
    {
      hide ToSigningRoot, ClaimOf, CanBeSlashed, Record, ReadData, WriteData, UpdateDb;
      hide SlashingProtectionData.Contents;
      UpdateByClaim(lib.hash, growable, slashing, pkHex, msg);
      var data :- ReadData(slashing, pkHex);
      var db := new SlashingProtectionData(data);
      var signingRoot := ToSigningRoot(lib.hash, msg, None);
      var recorded: Result<()>;
      match ClaimOf(msg) {
        case Proposal(slot) => recorded := db.NewBlock(SignedBlockSlot(slot, Some(signingRoot)), growable);
        case Vote(source, target) =>
          recorded := db.NewAttestation(SignedAttestationEpochs(source, target, Some(signingRoot)), growable);
        case Harmless => return Err(NotSlashableKind);
      }
      if recorded.Err? {
        return Err(recorded.error);
      }
      slashing := WriteData(slashing, db.Contents());
      return Ok(());
    }

    /** Checks, computes the root, records, signs. */
    method SignValidatorMessage(pkHex: string, msg: BLSSignMsg) returns (outcome: Outcome)
      requires lib.order > 0
      modifies this`slashing, this`released
      ensures var effect := Handle(lib, growable, genesisForkVersion, old(slashing), keys, pkHex, msg);
              outcome == effect.outcome && slashing == effect.files && released == old(released) + effect.releases
    {
      hide ToSigningRoot, CanBeSlashed, CheckDb, UpdateDb, SignWithSavedSk;
      if msg.Deposit? {
        return BadRequest;
      }
      var sanitized := SanitizeBlsPkHex(pkHex);
      if sanitized.Err? {
        return BadRequest;
      }
      var name := sanitized.value;
      var slashable := IsSlashable(name, msg);
      if slashable.Err? {
        return Failed(slashable.error);
      }
      if slashable.value {
        return Refused;
      }
      var signingRoot := ToSigningRoot(lib.hash, msg, Some(genesisForkVersion));
      if CanBeSlashed(msg) {
        var updated := UpdateSlashProtectionDb(name, msg);
        if updated.Err? {
          return Failed(updated.error);
        }
      }
      var signature := SignWithSavedSk(lib, keys, name, signingRoot);
      if signature.Err? {
        return Failed(signature.error);
      }
      released := released + [Release(name, msg, signingRoot, signature.value)];
      return Signed(signature.value);
    }
  }

  /** The exact conditions for each outcome of an undisturbed request, and its exact effect: a signature is
      released only if the database exists, admits the message and the named key is stored; whenever a block
      or attestation gets past the check the database moves to it, even if no signature follows. */
  lemma HandleMeaning(lib: Lib, growable: bool, genesis: Version, files: Files, keys: KeyFiles,
                      pkHex: string, msg: BLSSignMsg)
    requires lib.order > 0
    ensures var name := Strip0x(pkHex);
            var file := Strip0x(name);
            var e := Handle(lib, growable, genesis, files, keys, pkHex, msg);
            var wellFormed := !msg.Deposit? && |name| == 96;
            var admitted := wellFormed && file in files &&
                            (CanBeSlashed(msg) ==> Admits(MarkOf(files[file]), StoredEntry(lib.hash, msg)));
            var key := SignWithSavedSk(lib, keys, name, ToSigningRoot(lib.hash, msg, Some(genesis)));
            && (e.outcome.BadRequest? <==> !wellFormed)
            && (e.outcome.Refused? <==> wellFormed && file in files && !admitted)
            && (e.outcome.Signed? <==> admitted && key.Ok?)
            && (e.outcome.Signed? <==> e.releases != [])
            && (wellFormed && file !in files ==> e.outcome == Failed(NoSuchFile))
            && (admitted && key.Err? ==> e.outcome == Failed(key.error))
            && (admitted && CanBeSlashed(msg) ==>
                  var entry := StoredEntry(lib.hash, msg);
                  Record(files[file], entry, growable).Ok? &&
                  e.files == WriteData(files, Record(files[file], entry, growable).value))
            && (!(admitted && CanBeSlashed(msg)) ==> e.files == files)
  {
    hide ToSigningRoot, SignWithSavedSk, StoredEntry, Record, MarkOf, Admits, CanBeSlashed, WriteData, Strip0x;
    hide CheckDb, UpdateDb;
    LooksAgree(lib.hash, growable, files, Strip0x(pkHex), msg);
  }

  /** The two looks at the database decide alike when nothing happens between them. */
  lemma LooksAgree(h: Hash, growable: bool, files: Files, name: string, msg: BLSSignMsg)
    ensures var file, check, update := Strip0x(name), CheckDb(h, files, name, msg),
                                       UpdateDb(h, growable, files, name, msg);
            if file !in files then check == Err(NoSuchFile)
            else if !CanBeSlashed(msg) then check == Ok(false)
            else
              var entry := StoredEntry(h, msg);
              if !Admits(MarkOf(files[file]), entry) then check == Ok(true)
              else
                && check == Ok(false) && Record(files[file], entry, growable).Ok?
                && update == Ok(WriteData(files, Record(files[file], entry, growable).value))
  {
    hide StoredEntry, Record, MarkOf, Admits, CanBeSlashed, WriteData, Strip0x;
    var file := Strip0x(name);
    if file in files && CanBeSlashed(msg) {
      RecordRefinesWatermark(files[file], StoredEntry(h, msg), growable);
    }
  }
}
