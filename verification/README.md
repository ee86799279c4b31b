# Verified model of the secure signer

The enclave holds BLS keys of Ethereum validators.  It signs what a validator client asks it to sign, unless
that would be slashable; it generates keys, shares each of them among a committee of guardians and lets the
guardians check and keep their shares; and it lets enough guardians sign a voluntary exit together.  This
project models that behaviour in Dafny 4.11 and proves what it is meant to guarantee.

## What is modelled, and in which form

- `SlashingProtection`: the slashing protection database of one key, as a class with two mutable lists, and its
  files.  `Record` is the specification of `new_block` and `new_attestation`; a three-number watermark is the
  abstraction both storage modes refine.
- `Ssz`, `SigningMessages`, `SigningRoots`, `RootLayouts`, `SignedObjects`: Merkle trees of the signed containers,
  domains (the in-place byte loops of `compute_domain` are a method over an array), the signing roots of all 24
  request kinds, and what a signing root binds.
- `Signer`: the request handler as a class over the stored databases and keys, with the list of released
  signatures as ghost state.
- `Authenticity`: that every number released as a signature is one, under the key of its name on the recorded root.
- `SignerRuns`, `SignerSafety`: a transition system in which any number of requests are in flight, each at its
  own step (arrived, checked, updated), interleaved with key generation, custody writes, deposits and exits signed
  straight from the key store, and crashes between any two steps.  Files survive a crash, requests do not.
- `SplitUpdates`, `Races`, `OverlapSafety`: the same system with the update of the database taken apart into its
  read and its write, and exactly when that leads to an offence.
- `PrimeField`, `Polynomials`, `Threshold`, `Secrecy`: threshold keys as polynomials over a prime field, with
  Lagrange interpolation at zero worked out in full, including division by an inverse from the extended Euclidean
  algorithm, and why fewer shares than the threshold say nothing about the secret.
- `Library`, `LibraryWitness`: the calls into cryptographic libraries as a record of functions, the laws assumed
  of them, and a small library that satisfies all the laws.
- `RemoteAttestation`, `KeygenPayload`, `SessionEvidence`, `Custody`, `ExitProtocol`, `Deposits`: key generation,
  its payload, the bytes that are attested, the guardian's checks, the search for a share, the exit, and deposits
  signed on request.
- `BigInteger`, `Digits`: the decimal text form of 256-bit numbers.

## Assumptions

- The 64-byte hash of SSZ and the digest of the attestation are parameters.  No function into 32 bytes is
  injective, so nothing assumes that; theorems that need it ask that the hash does not collide *on the pairs
  hashed for the objects the theorem speaks about* (`Ssz.CollisionFree`).
- `Library.Lawful`: the groups have one prime order and a generator that is not neutral; encoders have matching
  decoders, and points have one encoding; ciphertexts open under the matching key and under no other.  A point is
  a number below the order, added modulo the order, and the pairing is multiplication: the public key of a secret
  is that multiple of the generator, and a signature is checked by comparing two pairings.
  `LibraryWitness.LawsAreConsistent` gives a library that satisfies all the laws.
- Fresh keys, encryption randomness, the agent's evidence, the registry's verdict and the success of the final
  approval signature are parameters.  A freshly generated key has a name not in use.
- A file write is atomic.
- The code takes no lock around the read and the write of a database.  `SignerSafety` treats an update as one step;
  `SplitUpdates` does not, and there safety does not hold of every run: `Races.OverlapReleasesDoubleProposal` gives
  one that releases a double proposal.  It holds of every run in which no two read-to-write windows of one file
  overlap, which a lock per key would ensure.  With overlaps the exact condition is on what is asked for: some run
  releases an offence of a key if and only if two of the messages asked for under its name are each admitted by the
  database the run starts from and slashable together (`OverlapSafety.OverlapIsSlashableIff`, on signing roots
  `OverlapSafety.OverlapOffendsIff`).
- Every database a run starts from lies under the name of its own key, and every stored key under its own name;
  both are shown to be kept by every step.

Where code and comments disagree, the model follows the code:

- The refusal of deposits matches only the upper-case request; a lower-case `deposit` request passes it and is
  signed.
- `generate_bls_keystore` signs the deposit for the requested fork version but always reports the genesis
  version, so its payload passes the deposit check exactly when genesis was requested.
- `aggregate_signature_shares` numbers shares by their place in the list, so it is right for in-order prefixes of
  the holders; for other lists `Threshold.PlaceNumberingIsRightIff` gives the exact condition.
- The 256-bit reader accepts only numbers of exactly four limbs; smaller ones are written but not read back.
- The signing root that is stored is computed without the configured genesis version, the signed one with it; they
  agree because only builder registrations depend on it.
- The `signingRoot` field of a request is ignored.

## Model

| member | source | states |
|---|---|---|
| BigInteger.ReaderAccepts | src/eth2/eth_types.rs:195-215 | the reader accepts a digit string exactly when its value lies in [2^192, 2^256), and the limbs then denote that value |
| BigInteger.WriteAfterRead | src/eth2/eth_types.rs:195-223 | writing what was read gives the same numeral without superfluous leading zeros, the same text exactly when it had none |
| BigInteger.ReadAfterWrite | src/eth2/eth_types.rs:195-223 | reading what was written gives the same four limbs if and only if the top limb is not zero; otherwise it is refused |
| BigInteger.LimbBytesValue | src/eth2/eth_types.rs:217-223 | the little-endian bytes of the limbs, which the writer converts, denote the same number as the limbs |
| Ssz.RootBindsTree | src/eth2/eth_signing.rs:12-19 | two trees of one shape with one root are equal unless the hash collides on what was hashed |
| Ssz.ContainerInjective | src/eth2/eth_types.rs:307-335 | a container's tree determines all its fields |
| Ssz.BytesTreeInjective | src/eth2/eth_types.rs:384-414 | byte vectors of one length have trees of one shape, different ones different trees |
| RootLayouts.AttestationDataRoot | src/eth2/eth_types.rs:309-320 | the root of attestation data, hash by hash from slot, index, block root, source and target |
| RootLayouts.BeaconBlockHeaderRoot | src/eth2/eth_types.rs:325-336 | the root of a header, hash by hash from its five fields |
| RootLayouts.BeaconBlockRoot | src/eth2/eth_types.rs:600-612 | the root of a full block, hash by hash, with the root of its body |
| RootLayouts.VoluntaryExitRoot | src/eth2/eth_types.rs:425-430 | the root of an exit is the hash of epoch and index |
| RootLayouts.DepositMessageRoot | src/eth2/eth_types.rs:384-394 | the root of a deposit message, hash by hash from key, credentials and amount |
| RootLayouts.DepositDataRoot | src/eth2/eth_types.rs:399-413 | the root of a deposit with its signature, hash by hash from key, credentials, amount and the three chunks of the signature |
| RootLayouts.AggregateRoot | src/eth2/eth_types.rs:459-473 | the root of an aggregate from bit list, attestation data and signature |
| RootLayouts.AggregateAndProofRoot | src/eth2/eth_types.rs:633-643 | the root of an aggregate and proof from aggregator, aggregate and selection proof |
| RootLayouts.ContributionRoot | src/eth2/eth_types.rs:668-690 | the root of a sync committee contribution from its five fields |
| RootLayouts.ContributionAndProofRoot | src/eth2/eth_types.rs:696-706 | the root of a contribution and proof from aggregator, contribution and selection proof |
| RootLayouts.SelectionDataRoot | src/eth2/eth_types.rs:710-715 | the root of the selection data is the hash of slot and subcommittee |
| RootLayouts.RegistrationRoot | src/eth2/eth_types.rs:445-458 | the root of a builder registration from fee recipient, gas limit, timestamp and key |
| RootLayouts.UintChunkBytes | src/eth2/eth_types.rs:292-335 | a number is hashed as its eight bytes, least significant first, followed by zeros |
| RootLayouts.DomainBytes | src/eth2/eth_signing.rs:59-75 | a domain is the type followed by 28 bytes of the hash of the padded version and the validators root; without a version that of genesis, without a root zeros |
| RootLayouts.DomainInForce | src/eth2/eth_signing.rs:40-56 | the domain at an epoch is for the previous version before the fork's epoch and for the current one from it on; without an epoch for the current one |
| RootLayouts.VoteSigningRoot | src/eth2/eth_signing.rs:220-228 | an attestation, under either tag, is signed as one hash of its root and the attester domain of the fork in force at the target epoch |
| RootLayouts.ProposalSigningRoot | src/eth2/eth_signing.rs:209-218 | a header, under either tag, is signed as one hash of its root and the proposer domain of the fork in force at the slot's epoch |
| RootLayouts.BlockSigningRoot | src/eth2/eth_signing.rs:200-208 | the same for a full block |
| RootLayouts.RandaoSigningRoot | src/eth2/eth_signing.rs:229-237 | a randao reveal, under either tag, is signed as one hash of the epoch and the randao domain of the fork in force at that epoch |
| RootLayouts.AggregateSigningRoot | src/eth2/eth_signing.rs:238-245 | an aggregate and proof is signed under the fork in force at the epoch of the aggregate's slot |
| RootLayouts.AggregationSlotSigningRoot | src/eth2/eth_signing.rs:246-251 | an aggregation slot is signed as the slot itself under the fork in force at its epoch |
| RootLayouts.DepositSigningRoot | src/eth2/eth_signing.rs:252-257 | a deposit is signed under the requested version over a zero validators root |
| RootLayouts.ExitSigningRoot | src/eth2/eth_signing.rs:258-266 | an exit is signed as one hash of epoch and index under the fork in force at the exit's epoch |
| RootLayouts.SyncMessageSigningRoot | src/eth2/eth_signing.rs:267-272 | a sync committee message is signed as the bare block root under the fork in force at the slot's epoch |
| RootLayouts.SelectionProofSigningRoot | src/eth2/eth_signing.rs:273-283 | a sync committee selection is signed as slot and subcommittee under the fork in force at the slot's epoch |
| RootLayouts.ContributionSigningRoot | src/eth2/eth_signing.rs:284-295 | a contribution and proof is signed under the fork in force at the epoch of the contribution's slot |
| RootLayouts.RegistrationSigningRoot | src/eth2/eth_signing.rs:296-301 | a builder registration is signed under the configured version, or that of genesis, over a zero validators root |
| SigningRoots.ComputeDomain | src/eth2/eth_signing.rs:59-75 | the two in-place loops leave exactly the four type bytes followed by the first 28 bytes of the fork data root |
| SigningRoots.SigningRootIsTreeRoot | src/eth2/eth_signing.rs:12-19 | the signing root is the root of the object's tree joined with the domain, one hash of object root and domain |
| SigningRoots.DomainTypesDistinct | src/eth2/eth_types.rs:54-65 | the domain types of different duties differ |
| SigningRoots.DomainCarriesDuty | src/eth2/eth_signing.rs:197-303 | the domain of each of the 24 request kinds begins with the domain type of its duty |
| SigningRoots.DutiesNeverShareARoot | src/eth2/eth_signing.rs:197-303 | requests of different duties never have equal signing roots, for any fork infos and fields |
| SigningRoots.ObjectRootsCoincide | src/eth2/eth_signing.rs:209-272 | without the domain they could: a randao epoch and an aggregation slot, or a header and a sync committee block root, are the same object |
| SigningRoots.HeaderSummarizesBlock | src/eth2/eth_types.rs:602-612 | a block and the header with its body's root have the same root |
| SigningRoots.BlockAndHeaderAgree | src/eth2/eth_signing.rs:200-218 | a full block and its header, in the two block request forms, under any of the four tags and one fork info, have the same signing root |
| SigningRoots.GenesisVersionIrrelevant | src/eth2/eth_signing.rs:197-303 | the genesis version argument matters for registrations only |
| SigningRoots.SigningRootBinds | src/eth2/eth_signing.rs:197-303 | whatever request has the root of some object under some domain is a request of that domain's duty for an object with that root |
| SigningRoots.AttestationRootBinds | src/eth2/eth_signing.rs:220-228 | a request of any kind with the root of attestation data under an attester domain is the attestation request for exactly that data |
| SigningRoots.ProposalRootBinds | src/eth2/eth_signing.rs:200-218 | a request of any kind with the root of a header under a proposer domain is a block request that proposes exactly that header |
| SignedObjects.ObjectTrees | src/eth2/eth_types.rs:292-714 | under one duty, different objects have different trees, field by field through every signed container |
| SignedObjects.EqualRootsMeanEqualObjects | src/eth2/eth_signing.rs:197-303 | for all 24 kinds: two requests with one signing root are for one duty, under one domain, and for one object in every field |
| SlashingProtection.SlashingProtectionData.IsSlashableBlockSlot | src/eth2/slash_protection.rs:61-64 | lets exactly the slots pass that `NewBlock` accepts: above zero and above every stored slot |
| SlashingProtection.SlashingProtectionData.IsSlashableAttestationEpochs | src/eth2/slash_protection.rs:100-103 | lets exactly the votes pass that `NewAttestation` accepts: a target above zero and above every stored one, a source not below any stored one |
| SlashingProtection.SlashingProtectionData.NewBlock | src/eth2/slash_protection.rs:68-78 | accepts exactly a slot above zero and above every stored slot; the block goes to the end, or in place of the first one if the list may not grow, and every other entry stays; otherwise nothing changes |
| SlashingProtection.SlashingProtectionData.NewAttestation | src/eth2/slash_protection.rs:107-128 | accepts exactly a vote whose source is at least, and whose target is above, every stored one; it is put where `NewBlock` puts a block, and every other entry stays; otherwise nothing changes |
| SlashingProtection.LatestSlot | src/eth2/slash_protection.rs:54-59 | the latest slot is an upper bound of all stored slots, one of them unless it is zero |
| SlashingProtection.LatestSource | src/eth2/slash_protection.rs:80-98 | the same for source epochs |
| SlashingProtection.LatestTarget | src/eth2/slash_protection.rs:80-98 | the same for target epochs |
| SlashingProtection.RecordRefinesWatermark | src/eth2/slash_protection.rs:68-128 | in both storage modes recording accepts exactly what the watermark admits and moves the watermark to the entry, even where it overwrites one of many entries |
| SlashingProtection.RecordStoresNewest | src/eth2/slash_protection.rs:68-128 | an accepted entry becomes the newest of its kind, with the highest slot or target; the other kind is undisturbed |
| SlashingProtection.RecordKeepsTheRest | src/eth2/slash_protection.rs:68-128 | in both modes an accepted entry adds or replaces one entry of its own list and leaves all others, the other list and the key as they were |
| SlashingProtection.ReplayIsWatermark | src/eth2/slash_protection.rs:54-128 | over any request sequence from any database, either mode accepts what a plain watermark accepts and ends at the same watermark |
| SlashingProtection.ModesAgree | src/eth2/slash_protection.rs:54-128 | growable and one-slot databases accept the same requests and report the same latest slot and epochs |
| SlashingProtection.HistoryBelowMark | src/eth2/slash_protection.rs:80-128 | the watermark bounds all starting and all accepted entries, also those overwritten |
| SlashingProtection.HistoryNeverConflicts | src/eth2/slash_protection.rs:80-128 | from any database, no accepted entry conflicts by double proposal, double vote or surround (either way) with anything before it, and each satisfied every condition of EIP-3076 against the full history |
| SlashingProtection.FromPkHexNamesItself | src/eth2/slash_protection.rs:47-52 | a new database lands under the text it was made from if and only if that text is a full-length lower-case key |
| SlashingProtection.WriteBackIsFramed | src/eth2/slash_protection.rs:130-150 | a database read and written back goes to the file it came from and changes no other |
| SlashingProtection.NameDecodesToKey | src/eth2/slash_protection.rs:130-150 | the database under a name carries the key that the name decodes to |
| Signer.SigningService.IsSlashable | src/enclave/shared/mod.rs:102-133 | the answer of the first check, for every request kind and for a missing database |
| Signer.SigningService.UpdateSlashProtectionDb | src/enclave/shared/mod.rs:134-177 | the whole new store, the entry with its root included, or the error with the store unchanged |
| Signer.SigningService.SignValidatorMessage | src/enclave/shared/mod.rs:15-100 | outcome, new store and released signatures, with their numbers, of a request |
| Signer.CheckByClaim | src/enclave/shared/mod.rs:102-133 | the check depends only on the slot or epochs of the request and the watermark on file |
| Signer.HandleMeaning | src/enclave/shared/mod.rs:15-100 | exact conditions for every outcome: bad request, refused, signed, and failed for want of a database or a key; a signature only if the database exists and admits the message and the key is stored under its own text; the database moves whenever the message was admitted, even if signing then fails |
| Authenticity.AnswerVerifies | src/enclave/shared/mod.rs:68-99 | the number in the answer to a request is the one released signature; it verifies, under the key whose text is the requested name, on the request's signing root |
| SignerRuns.UpdateMeaning | src/enclave/shared/mod.rs:134-177 | an update changes exactly one file, the one it read, and moves its watermark to the message |
| SignerRuns.StepKeeps | src/enclave/shared/mod.rs:46-99 | every step of any request, crash, key generation, custody write or direct signature keeps the invariant |
| SignerRuns.RunKeeps | src/enclave/shared/mod.rs:46-99 | the invariant holds after every run from any framed store: files lie under their keys' names, only move forward, cover every acceptance, and each release owns its own acceptance |
| SignerRuns.DirectKeeps | src/eth2/eth_signing.rs:92-148 | a deposit or exit signed straight from the key store keeps the invariant |
| SignerSafety.EmittedNeverConflict | src/enclave/shared/mod.rs:134-170 | with any interleaving and crashes, no two released block or attestation signatures of one key conflict, although checks may be stale |
| SignerSafety.EmittedRespectStart | src/enclave/shared/mod.rs:46-99 | no released signature conflicts with an entry of the database the run started from |
| SignerSafety.NoSlashableVotes | src/enclave/shared/mod.rs:46-99 | over every run, deposits and exits signed directly included, no key releases signatures on the roots of two attestations that are a double or surround vote, whatever request kinds were used |
| SignerSafety.NoDoubleProposals | src/enclave/shared/mod.rs:46-99 | over every run, deposits and exits signed directly included, no key releases signatures on the roots of two different headers for one slot, also when full blocks and headers are mixed |
| SignerSafety.PersistedBeforeReleased | src/enclave/shared/mod.rs:72-86 | in every reachable state the stored slot and epochs cover every signature ever released |
| SignerSafety.NoStepLowers | src/enclave/shared/mod.rs:72-86 | no step removes a database or lowers its slot or epochs |
| SignerSafety.StoredRootIsSignedRoot | src/enclave/shared/mod.rs:68-85 | the newest entry on file for a key is the block's slot, or the vote's epochs, with exactly the root that was signed, and has the highest slot or target |
| SignerSafety.HandlerIsARun | src/enclave/shared/mod.rs:15-100 | handling a request without interference is its four steps in a row |
| Authenticity.RunIsAuthentic | src/enclave/shared/mod.rs:46-99 | in every run every released number verifies under the key of its name on the root recorded for it, deposits and exits included |
| Authenticity.SplitRunIsAuthentic | src/enclave/shared/mod.rs:134-170 | so too with reads and writes apart, whatever overlaps |
| Authenticity.NoSlashableVoteSignatures | src/enclave/shared/mod.rs:46-99 | over every run no two released numbers verify under one key as signatures on attestations that are a double or surround vote |
| Authenticity.NoDoubleProposalSignatures | src/enclave/shared/mod.rs:46-99 | nor on two different headers for one slot |
| SplitUpdates.SeparateRunIsAtomic | src/enclave/shared/mod.rs:134-170 | with read and write apart, a run in which no two windows of one file overlap is a run with updates in one step |
| SplitUpdates.NoSlashableVotesUnlessOverlap | src/enclave/shared/mod.rs:134-170 | in such a run no key releases signatures on the roots of slashable attestations |
| SplitUpdates.NoDoubleProposalsUnlessOverlap | src/enclave/shared/mod.rs:134-170 | nor on two different headers for one slot |
| Races.RaceReleasesBoth | src/enclave/shared/mod.rs:15-100 | two requests whose windows overlap are both signed whenever the database admits each of them alone, and only what was written last is on file |
| Races.RaceIsSlashableIff | src/enclave/shared/mod.rs:134-170 | what such a race releases is a double proposal or slashable votes exactly when the two requests are for different objects and neither order of handling them in turn would sign both |
| Races.RaceIsHarmlessIff | src/enclave/shared/mod.rs:72-86 | after the race the database covers both released signatures, and they do not conflict, exactly when both requests are of one kind and handling them in the order of the writes would sign both |
| Races.OverlapReleasesDoubleProposal | src/enclave/shared/mod.rs:15-100 | for every key and any two different headers of one slot above zero, a run from an empty store with overlapping windows releases that key's signatures on the proposer roots of both |
| OverlapSafety.OverlapRunKeeps | src/enclave/shared/mod.rs:134-170 | in every run, however windows overlap, files stay under their names, the key's database and every open window on it stay at or above the start, and every updated or released block or attestation of the key was asked for and admitted by the start |
| OverlapSafety.OverlapRespectsStart | src/enclave/shared/mod.rs:72-86 | whatever overlaps, no database is lost or falls below where it started, and no release conflicts with an entry its key started with |
| OverlapSafety.OverlapIsSlashableIff | src/enclave/shared/mod.rs:134-170 | over all runs with any overlaps: some run that is asked only for given messages under a key's name releases two slashable messages of that key if and only if two of them are each admitted by the starting database and slashable together |
| OverlapSafety.OffenceIff | src/enclave/shared/mod.rs:68-99 | signatures on slashable attestation or header roots, whatever they were requested as, are signatures on slashable requests, and the other way round |
| OverlapSafety.OverlapOffendsIff | src/enclave/shared/mod.rs:134-170 | the same condition for signatures on the roots of slashable attestations or of two headers for one slot |
| PrimeField.InverseCorrect | src/crypto/bls_keys.rs:138-151 | the inverse used in interpolation is one, for everything not divisible by the prime |
| Polynomials.ValueAtZero | src/crypto/bls_keys.rs:138-151 | a polynomial with at most n coefficients has at zero the weighted sum of its values at 1, ..., n |
| Threshold.LagrangeIsWeight | src/crypto/bls_keys.rs:138-151 | modulo a prime, the Lagrange value of a position is its integer weight |
| Threshold.InterpolationAtZero | src/crypto/bls_keys.rs:138-151 | enough samples at 1, ..., n determine the value at zero, for every polynomial |
| Threshold.PublicShareIsPoint | src/crypto/bls_keys.rs:104-118 | public shares and the group key, computed from the published key set alone, are the points of the secret shares and of the group secret |
| Threshold.VerifiesIff | src/enclave/validator/mod.rs:42-48 | under the point of a secret exactly one signature verifies, the one made with that secret |
| Threshold.ShareVerifies | src/crypto/bls_keys.rs:104-118 | a signature made with share i verifies by pairings under the public share i computed from the key set |
| Threshold.GroupSignatureVerifies | src/crypto/bls_keys.rs:78-80 | so does the group secret's signature under the group key of the key set |
| Threshold.AggregateIsGroupSignature | src/crypto/bls_keys.rs:104-151 | shares of any in-order prefix aggregate to exactly the group signature when there are at least threshold many, and are refused otherwise |
| Threshold.AggregateOfListed | src/crypto/bls_keys.rs:138-151 | for any list of holders, of any length, the aggregate is the group signature if and only if there are enough and numbering the first ones by place recovers the secret |
| Threshold.PlaceNumberingIsRightIff | src/crypto/bls_keys.rs:138-151 | it is so for every key of a given threshold if and only if the list is that long and the weighted power sums of its first points vanish up to the degree |
| Threshold.TwoHolders | src/crypto/bls_keys.rs:138-151 | for two holders the condition is that the second point is twice the first |
| Secrecy.SharesHideSecret | src/crypto/bls_keys.rs:25-30 | for fewer holders than the key has coefficients and any claimed secret there is a key of the same size with that secret and the same shares at these holders |
| RemoteAttestation.BuildValidatorRemoteAttestationPayload | src/enclave/shared/mod.rs:179-226 | the loop hashes key set, group key, signature, deposit root, then per entry the decoded share, public share and guardian key, then the degree, and pads to 64 bytes; the first undecodable share fails |
| RemoteAttestation.CommittedLayout | src/enclave/shared/mod.rs:179-226 | what is hashed, place by place: key set, group key, signature, deposit root, per entry share, public share and guardian, and the degree as eight bytes, most significant first |
| RemoteAttestation.PaddedDigestIsExact | src/enclave/shared/mod.rs:186-226 | for arbitrary texts the digest exists exactly when every share text paired with a guardian is hexadecimal, and commits to the decoded shares in order |
| RemoteAttestation.CommitmentBinds | src/enclave/shared/mod.rs:179-226 | the hashed bytes determine keys, signature, root, every share and every guardian, for shares of equal widths |
| KeygenPayload.EncryptShares | src/enclave/validator/mod.rs:61-76 | entry i holds share i for guardian i |
| KeygenPayload.RecipientEntry | src/enclave/validator/mod.rs:61-76 | entry i names guardian i and the public key of share i, and opens to share i for whoever has the guardian's key and for no one else |
| KeygenPayload.PayloadDeposit | src/eth2/eth_signing.rs:123-148 | the signature in a payload verifies under the group key on the deposit of 32 ETH with the given credentials for the requested version, hash by hash, and the data root is that of the same deposit with this signature |
| KeygenPayload.ValidatorEnclave.AttestFreshBlsKey | src/enclave/validator/mod.rs:51-136 | the published payload, and that exactly the key's file and its empty database are written, even when the agent fails |
| KeygenPayload.FreshDatabase | src/eth2/slash_protection.rs:47-52 | the database made from a key's text is for that key and lies under that text |
| KeygenPayload.GenerateBlsKeystore | src/client/keygen.rs:18-78 | the payload of the client-side producer: signed for the requested version, reported for genesis, without evidence |
| SessionEvidence.RebuiltIsAttested | src/enclave/guardian/mod.rs:116-148 | for every key generation the guardian rebuilds from the published text exactly the attested bytes, through all encodings; without evidence it refuses |
| SessionEvidence.AttestedPayloadExists | src/enclave/validator/mod.rs:95-108 | the validator can always build the attested bytes |
| SessionEvidence.AttestedSessionIsVerified | src/enclave/guardian/mod.rs:116-206 | the session check of a produced payload succeeds exactly when the evidence is there and the registry accepts it for the attested bytes |
| SessionEvidence.SessionCheckIsExact | src/enclave/guardian/mod.rs:116-206 | the session check of an arbitrary payload succeeds exactly when the three fields are there, every text decodes to its part of a commitment, and the registry accepts the evidence for that commitment; the registry's error is passed on, and without the fields the session is rejected |
| SessionEvidence.AttestedPayloadBinds | src/enclave/shared/mod.rs:179-226 | two key generations with one attested payload have the same key set, deposit, guardians and ciphertexts, unless the digest collides, if a ciphertext's length depends on the plaintext's only |
| Custody.PayloadReadsBack | src/enclave/types.rs:148-171 | key set, credentials and deposit signature read back from a payload are those written |
| Custody.DepositCheckOfPayload | src/enclave/guardian/mod.rs:245-264 | for a produced payload the deposit check comes down to whether the signatures for the signed and the reported fork version are equal |
| Custody.DepositCheckIsExact | src/enclave/guardian/mod.rs:245-264 | for an arbitrary payload the deposit check succeeds exactly when key set, credentials and signature can be read, the signature verifies under the group key on the deposit root spelled from the read key, credentials, amount and reported version, and the data root text is that of the deposit with this signature; a readable deposit is refused for the first of the two that fails |
| Custody.EnclaveDepositPasses | src/enclave/guardian/mod.rs:245-264 | the validator enclave's payload always passes the deposit check |
| Custody.DepositRootNamesFork | src/enclave/types.rs:173-190 | the deposit's signing root determines the fork version |
| Custody.KeystoreDepositPassesIff | src/client/keygen.rs:50-77 | the client-side producer's payload passes the deposit check exactly when the genesis version was requested |
| Custody.VerifyCustody | src/enclave/guardian/mod.rs:266-295 | the search loop, with its skips and early return, finds what the specification of the search says |
| Custody.CustodyIsExact | src/enclave/guardian/mod.rs:266-295 | for any payload: success exactly when the key set parses, the claimed key is the group key and some entry opens to a secret of its own index's public share; the result is that secret of the first such entry; the error says what was missing |
| Custody.OpensOwnEntries | src/enclave/types.rs:209-224 | in a produced payload a guardian can open exactly the entries made for its own key, and gets that index's share |
| Custody.CustodyIsComplete | src/enclave/guardian/mod.rs:266-295 | every listed guardian obtains the share at its first position in the list |
| Custody.StrangerFindsNothing | src/enclave/guardian/mod.rs:266-295 | a key not in the list obtains nothing |
| Custody.GuardianEnclave.VerifyAndSignCustodyReceived | src/enclave/guardian/mod.rs:59-105 | the share is stored under its public key exactly when the guardian key exists, the session is sound if asked for, the deposit is sound and a share is found; otherwise the store is unchanged and the request fails for the first check that failed |
| Custody.ListedGuardianAccepts | src/enclave/guardian/mod.rs:59-105 | a listed guardian accepts the validator enclave's payload; with the session check exactly when the registry accepts the evidence for the attested bytes |
| ExitProtocol.SignVemSignsExitRoot | src/enclave/guardian/mod.rs:353-375 | what is signed is the exit at epoch 0 under the exit domain of the fork in force at epoch 0, hash by hash |
| Library.WrittenKeyIsRead | src/io/key_management.rs:26-66 | a key that was written is read back under its name, with or without prefix, and no other file is touched |
| ExitProtocol.RunKeepsKeys | src/crypto/bls_keys.rs:33-40 | in every reachable state every stored secret lies under the text of its own public key, and none is ever removed |
| ExitProtocol.ExitIsExact | src/enclave/guardian/mod.rs:333-351 | in a store where every key lies under its own name an exit request succeeds exactly when the key set parses and the asked share is stored; the answer decodes to a signature on the exit root that verifies under the public share |
| ExitProtocol.CustodyThenExit | src/enclave/guardian/mod.rs:81-88 | after custody succeeds at index i, in every later state an exit request for i yields a signature that verifies by pairings under public share i of the payload's key set on the epoch-0 exit root |
| ExitProtocol.RepeatedGuardianAnswersIff | src/enclave/guardian/mod.rs:333-351 | a guardian listed twice has custody of its first share only; the exit request for its second place is refused unless it came by that share otherwise or the two shares are one number |
| ExitProtocol.CustodyToExit | src/enclave/guardian/mod.rs:333-375 | the whole protocol: the answers of an in-order prefix of guardians aggregate to the group secret's signature on the exit root if there are at least threshold many, and are refused otherwise; that signature and no other verifies under the group key of the payload |
| ExitProtocol.ExitIsAStep | src/enclave/guardian/mod.rs:333-375 | every answered exit request is a direct signature of the transition system, on the exit root |
| Deposits.SignDepositIsExact | src/eth2/eth_signing.rs:78-121 | a deposit is signed on request exactly when the key it names is stored; the answer repeats the deposit, its signature verifies under that key on the deposit's root, hash by hash, and its two roots are those of the deposit without and with this signature |
| Deposits.SignDepositIsAStep | src/enclave/secure_signer/handlers/validator_deposit.rs:6-47 | every answered deposit request is a direct signature of the transition system under the key it names |
| Deposits.KeygenIsARun | src/enclave/validator/mod.rs:81-93 | key generation of a fresh key is a run: store the key, create the database, sign the deposit; it leaves the files that `AttestFreshBlsKey` leaves, and releases the payload's signature, on the deposit root spelled hash by hash |

## Left out

- HTTP routers, request and response plumbing, clients and command lines; the outcome of a request is kept.
- Serialization with serde and the file system; databases and keys are maps with atomic writes.
- Elliptic curves, pairings, envelope encryption, keccak and sha256; they are functions with stated laws.  The source of the libraries is not part of this model.
- The attestation agent, the parsing of the session fields, the registry call and the workload check; they are one function parameter.
- The digest that a guardian signs to approve custody; only the outcome of that signature is a parameter.
- The encrypted keystore written by the client-side producer, and the import of keystores.
- Merkleization of block bodies and bit lists: a body is an arbitrary tree, a bit list is its root.
- Sign and underscore forms of decimal numbers that the big-integer parser may accept.
- The degree of a key set without any point, which the attested bytes end with: the model refuses such a set when it rebuilds them.
- Lists of key names, the interchange file's metadata and the guardians' own key rotation.
- A lower bound on releases (that a request in flight is eventually signed): only safety is stated for runs.
- SlashingProtection.HistoryNeverConflicts: says nothing about pairs of starting entries, because those come from outside.
- Custody.KeystoreDepositPassesIff: asks for a secret other than zero and that hash and hash-to-curve keep the two versions apart, because otherwise two versions can have one signature.
- Threshold.AggregateIsGroupSignature: asks that the key has at most as many coefficients as the field has elements, because otherwise two positions are the same point.
- RemoteAttestation.CommitmentBinds: asks for equal share widths, because the hashed bytes carry no lengths; for two key generations `SessionEvidence.AttestedPayloadBinds` asks only that a ciphertext's length depends on the plaintext's length.
- Authenticity.NoSlashableVoteSignatures: asks that the point is not neutral and that a released root and the vote's root are hashed to one point of the curve only if they are equal, because otherwise one number is a signature on both.
- Authenticity.NoDoubleProposalSignatures: asks the same for headers.
- RemoteAttestation.CommittedLayout: asks that the key has at most 2^64 coefficients, because the degree is written as eight bytes.
- Secrecy.SharesHideSecret: asks that no holder's point is zero in the field, because the share there is the secret itself.
