/** The roots of everything that is signed, spelled out hash by hash from the fields: what Merkleization gives for
    byte vectors and for containers of two to five fields, and then one hash of object root and domain. */
module RootLayouts {
  import opened Wrappers
  import opened Bytes
  import opened Digits
  import opened Ssz
  import opened SigningMessages
  import opened SigningRoots

  function ZeroChunk(): Bytes32 {
    Zeros(32)
  }

  lemma PackOne(f: Tree)
    ensures Pack([f], 0) == f && Pack([], 0) == Leaf(ZeroChunk())
  {
  }

  lemma PackTwo(f: seq<Tree>)
    requires |f| == 2
    ensures Pack(f, 1) == Node(f[0], f[1])
  {
    assert Pow(2, 0) == 1;
    assert f[..1] == [f[0]] && f[1..] == [f[1]];
    PackOne(f[0]);
    PackOne(f[1]);
  }

  lemma PackShort(f: seq<Tree>)
    ensures |f| == 0 ==> Pack(f, 1) == Node(Leaf(ZeroChunk()), Leaf(ZeroChunk()))
    ensures |f| == 1 ==> Pack(f, 1) == Node(f[0], Leaf(ZeroChunk()))
  {
    assert Pow(2, 0) == 1;
    if |f| == 1 {
      assert f == [f[0]];
      PackOne(f[0]);
    }
    PackOne(Leaf(ZeroChunk()));
  }

  /** Two fields: one hash. */
  lemma TwoFields(h: Hash, f: seq<Tree>)
    requires |f| == 2
    ensures HashTreeRoot(h, Container(f)) == h(HashTreeRoot(h, f[0]), HashTreeRoot(h, f[1]))
  {
    assert Depth(2) == 1 + Depth(1);
    PackTwo(f);
  }

  /** Three fields: two levels, filled up with one zero chunk. */
  lemma ThreeFields(h: Hash, f: seq<Tree>)
    requires |f| == 3
    ensures HashTreeRoot(h, Container(f))
            == h(h(HashTreeRoot(h, f[0]), HashTreeRoot(h, f[1])), h(HashTreeRoot(h, f[2]), ZeroChunk()))
  {
    assert Depth(3) == 1 + Depth(2) == 2 + Depth(1);
    assert Pow(2, 1) == 2 * Pow(2, 0);
    PackTwo(f[..2]);
    PackShort(f[2..]);
    assert Container(f) == Node(Pack(f[..2], 1), Pack(f[2..], 1));
    assert HashTreeRoot(h, Pack(f[2..], 1)) == h(HashTreeRoot(h, f[2]), ZeroChunk());
  }

  /** Five fields: three levels, filled up with three zero chunks. */
  lemma FiveFields(h: Hash, f: seq<Tree>)
    requires |f| == 5
    ensures var z := ZeroChunk();
            HashTreeRoot(h, Container(f))
            == h(h(h(HashTreeRoot(h, f[0]), HashTreeRoot(h, f[1])), h(HashTreeRoot(h, f[2]), HashTreeRoot(h, f[3]))),
                 h(h(HashTreeRoot(h, f[4]), z), h(z, z)))
  {
    assert Depth(5) == 1 + Depth(3) == 2 + Depth(2) == 3 + Depth(1);
    assert Pow(2, 1) == 2 * Pow(2, 0) && Pow(2, 2) == 2 * Pow(2, 1);
    PackTwo(f[..4][..2]);
    PackTwo(f[..4][2..]);
    PackShort(f[4..]);
    PackShort([]);
    assert Pack(f[..4], 2) == Node(Pack(f[..4][..2], 1), Pack(f[..4][2..], 1));
    assert Pack(f[4..], 2) == Node(Pack(f[4..], 1), Pack([], 1));
    assert Container(f) == Node(Pack(f[..4], 2), Pack(f[4..], 2));
    var z := ZeroChunk();
    assert HashTreeRoot(h, Pack([], 1)) == h(z, z) && HashTreeRoot(h, Pack(f[4..], 1)) == h(HashTreeRoot(h, f[4]), z);
    assert HashTreeRoot(h, Pack(f[4..], 2)) == h(HashTreeRoot(h, Pack(f[4..], 1)), h(z, z));
    assert HashTreeRoot(h, Pack(f[..4][..2], 1)) == h(HashTreeRoot(h, f[0]), HashTreeRoot(h, f[1]));
    assert HashTreeRoot(h, Pack(f[..4][2..], 1)) == h(HashTreeRoot(h, f[2]), HashTreeRoot(h, f[3]));
  }

  /** Four fields: two levels. */
  lemma FourFields(h: Hash, f: seq<Tree>)
    requires |f| == 4
    ensures HashTreeRoot(h, Container(f))
            == h(h(HashTreeRoot(h, f[0]), HashTreeRoot(h, f[1])), h(HashTreeRoot(h, f[2]), HashTreeRoot(h, f[3])))
  {
    assert Depth(4) == 1 + Depth(2) == 2 + Depth(1);
    assert Pow(2, 1) == 2 * Pow(2, 0);
    PackTwo(f[..2]);
    PackTwo(f[2..]);
    assert Container(f) == Node(Pack(f[..2], 1), Pack(f[2..], 1));
  }

  // ---------------------------------------------------------------- basic objects

  /** A number: its eight bytes, least significant first, then zeros. */
  lemma UintChunkBytes(n: uint64)
    ensures Value(UintChunk(n)[..8], 256) == n
    ensures forall k :: 8 <= k < 32 ==> UintChunk(n)[k] == 0
  {
    var bytes := LittleEndian(n, 8);
    assert UintChunk(n)[..8] == bytes;
    EightBytes();
    LittleEndianValue(n, 8);
  }

  /** A vector of at most 32 bytes is one chunk. */
  lemma ShortBytes(h: Hash, b: seq<byte>)
    requires |b| <= 32
    ensures HashTreeRoot(h, BytesTree(b)) == b + Zeros(32 - |b|)
  {
    OneField(Chunks(b));
  }

  /** A public key is two chunks. */
  function KeyRoot(h: Hash, key: Bytes48): Root {
    h(key[..32], key[32..] + Zeros(16))
  }

  lemma KeyBytes(h: Hash, key: Bytes48)
    ensures HashTreeRoot(h, BytesTree(key)) == KeyRoot(h, key)
  {
    assert Chunks(key[32..]) == [Leaf(key[32..] + Zeros(16))];
    assert Chunks(key) == [Leaf(key[..32]), Leaf(key[32..] + Zeros(16))];
    TwoFields(h, Chunks(key));
  }

  /** A signature is three chunks. */
  function SignatureRoot(h: Hash, s: Bytes96): Root {
    h(h(s[..32], s[32..64]), h(s[64..], ZeroChunk()))
  }

  lemma SignatureBytes(h: Hash, s: Bytes96)
    ensures HashTreeRoot(h, BytesTree(s)) == SignatureRoot(h, s)
  {
    var rest := s[32..];
    assert rest[..32] == s[32..64] && rest[32..] == s[64..] && s[64..] + Zeros(0) == s[64..];
    assert Chunks(s[64..]) == [Leaf(s[64..])];
    assert Chunks(rest) == [Leaf(s[32..64])] + Chunks(s[64..]);
    assert Chunks(s) == [Leaf(s[..32])] + Chunks(rest);
    assert Chunks(s) == [Leaf(s[..32]), Leaf(s[32..64]), Leaf(s[64..])];
    hide Chunks, Container;
    ThreeFields(h, Chunks(s));
  }

  lemma OneField(f: seq<Tree>)
    requires |f| == 1
    ensures Container(f) == f[0]
  {
  }

  // ---------------------------------------------------------------- signed objects

  lemma CheckpointRoot(h: Hash, c: Checkpoint)
    ensures HashTreeRoot(h, c.ToTree()) == h(UintChunk(c.epoch), c.root)
  {
    TwoFields(h, [UintTree(c.epoch), Leaf(c.root)]);
  }

  /** Slot, index, block root, source and target, in this order. */
  lemma AttestationDataRoot(h: Hash, a: AttestationData)
    ensures var z := ZeroChunk();
            HashTreeRoot(h, a.ToTree())
            == h(h(h(UintChunk(a.slot), UintChunk(a.index)),
                   h(a.beaconBlockRoot, h(UintChunk(a.source.epoch), a.source.root))),
                 h(h(h(UintChunk(a.target.epoch), a.target.root), z), h(z, z)))
  {
    hide Container, Checkpoint.ToTree, UintChunk;
    CheckpointRoot(h, a.source);
    CheckpointRoot(h, a.target);
    FiveFields(h, [UintTree(a.slot), UintTree(a.index), Leaf(a.beaconBlockRoot), a.source.ToTree(),
                   a.target.ToTree()]);
  }

  /** Slot, proposer, parent root, state root and body root, in this order. */
  lemma BeaconBlockHeaderRoot(h: Hash, b: BeaconBlockHeader)
    ensures var z := ZeroChunk();
            HashTreeRoot(h, b.ToTree())
            == h(h(h(UintChunk(b.slot), UintChunk(b.proposerIndex)), h(b.parentRoot, b.stateRoot)),
                 h(h(b.bodyRoot, z), h(z, z)))
  {
    hide Container, UintChunk;
    FiveFields(h, [UintTree(b.slot), UintTree(b.proposerIndex), Leaf(b.parentRoot), Leaf(b.stateRoot),
                   Leaf(b.bodyRoot)]);
  }

  /** The same for a full block, with the root of its body. */
  lemma BeaconBlockRoot(h: Hash, b: BeaconBlock)
    ensures var z := ZeroChunk();
            HashTreeRoot(h, b.ToTree())
            == h(h(h(UintChunk(b.slot), UintChunk(b.proposerIndex)), h(b.parentRoot, b.stateRoot)),
                 h(h(HashTreeRoot(h, b.body), z), h(z, z)))
  {
    hide Container, UintChunk;
    FiveFields(h, [UintTree(b.slot), UintTree(b.proposerIndex), Leaf(b.parentRoot), Leaf(b.stateRoot), b.body]);
  }

  /** Epoch and validator index. */
  lemma VoluntaryExitRoot(h: Hash, e: VoluntaryExit)
    ensures HashTreeRoot(h, e.ToTree()) == h(UintChunk(e.epoch), UintChunk(e.validatorIndex))
  {
    TwoFields(h, [UintTree(e.epoch), UintTree(e.validatorIndex)]);
  }

  /** Key, credentials and amount; the 48 key bytes take two chunks. */
  lemma DepositMessageRoot(h: Hash, d: DepositMessage)
    ensures HashTreeRoot(h, d.ToTree())
            == h(h(KeyRoot(h, d.pubkey), d.withdrawalCredentials),
                 h(UintChunk(d.amount), ZeroChunk()))
  {
    hide Container, UintChunk, BytesTree;
    KeyBytes(h, d.pubkey);
    ThreeFields(h, [BytesTree(d.pubkey), Leaf(d.withdrawalCredentials), UintTree(d.amount)]);
  }

  /** Bit list, attestation data and signature. */
  lemma AggregateRoot(h: Hash, a: Aggregate)
    ensures var z := ZeroChunk();
            HashTreeRoot(h, a.ToTree())
            == h(h(a.aggregationBitsRoot, HashTreeRoot(h, a.data.ToTree())), h(SignatureRoot(h, a.signature), z))
  {
    hide Container, BytesTree, AttestationData.ToTree;
    SignatureBytes(h, a.signature);
    ThreeFields(h, [Leaf(a.aggregationBitsRoot), a.data.ToTree(), BytesTree(a.signature)]);
  }

  /** Aggregator, aggregate and selection proof. */
  lemma AggregateAndProofRoot(h: Hash, a: AggregateAndProof)
    ensures var z := ZeroChunk();
            HashTreeRoot(h, a.ToTree())
            == h(h(UintChunk(a.aggregatorIndex), HashTreeRoot(h, a.aggregate.ToTree())),
                 h(SignatureRoot(h, a.selectionProof), z))
  {
    hide Container, BytesTree, Aggregate.ToTree, UintChunk;
    SignatureBytes(h, a.selectionProof);
    ThreeFields(h, [UintTree(a.aggregatorIndex), a.aggregate.ToTree(), BytesTree(a.selectionProof)]);
  }

  /** Slot, block root, subcommittee, bits and signature. */
  lemma ContributionRoot(h: Hash, c: SyncCommitteeContribution)
    ensures var z := ZeroChunk();
            HashTreeRoot(h, c.ToTree())
            == h(h(h(UintChunk(c.slot), c.beaconBlockRoot),
                   h(UintChunk(c.subcommitteeIndex), c.aggregationBits + Zeros(16))),
                 h(h(SignatureRoot(h, c.signature), z), h(z, z)))
  {
    hide Container, BytesTree, UintChunk;
    ShortBytes(h, c.aggregationBits);
    SignatureBytes(h, c.signature);
    FiveFields(h, [UintTree(c.slot), Leaf(c.beaconBlockRoot), UintTree(c.subcommitteeIndex),
                   BytesTree(c.aggregationBits), BytesTree(c.signature)]);
  }

  /** Aggregator, contribution and selection proof. */
  lemma ContributionAndProofRoot(h: Hash, c: ContributionAndProof)
    ensures var z := ZeroChunk();
            HashTreeRoot(h, c.ToTree())
            == h(h(UintChunk(c.aggregatorIndex), HashTreeRoot(h, c.contribution.ToTree())),
                 h(SignatureRoot(h, c.selectionProof), z))
  {
    hide Container, BytesTree, SyncCommitteeContribution.ToTree, UintChunk;
    SignatureBytes(h, c.selectionProof);
    ThreeFields(h, [UintTree(c.aggregatorIndex), c.contribution.ToTree(), BytesTree(c.selectionProof)]);
  }

  /** Slot and subcommittee. */
  lemma SelectionDataRoot(h: Hash, d: SyncAggregatorSelectionData)
    ensures HashTreeRoot(h, d.ToTree()) == h(UintChunk(d.slot), UintChunk(d.subcommitteeIndex))
  {
    TwoFields(h, [UintTree(d.slot), UintTree(d.subcommitteeIndex)]);
  }

  /** Fee recipient, gas limit, timestamp and key. */
  lemma RegistrationRoot(h: Hash, r: ValidatorRegistration)
    ensures HashTreeRoot(h, r.ToTree())
            == h(h(r.feeRecipient + Zeros(12), UintChunk(r.gasLimit)),
                 h(UintChunk(r.timestamp), KeyRoot(h, r.pubkey)))
  {
    hide Container, BytesTree, UintChunk;
    ShortBytes(h, r.feeRecipient);
    KeyBytes(h, r.pubkey);
    FourFields(h, [BytesTree(r.feeRecipient), UintTree(r.gasLimit), UintTree(r.timestamp), BytesTree(r.pubkey)]);
  }

  // ---------------------------------------------------------------- domains and signing roots

  /** A domain: the type, then 28 bytes of the hash of the version and the chain. */
  function DomainOf(h: Hash, domainType: DomainType, version: Version, chain: Root): Domain {
    domainType + h(version + Zeros(28), chain)[..28]
  }

  /** Without a version a domain is for that of genesis, without a chain for 32 zero bytes. */
  lemma DomainBytes(h: Hash, domainType: DomainType, version: Option<Version>, validatorsRoot: Option<Root>)
    ensures var v: Version := if version.Some? then version.value else [0, 0, 0, 0];
            var chain: Root := if validatorsRoot.Some? then validatorsRoot.value else Zeros(32);
            DomainFor(h, domainType, version, validatorsRoot) == DomainOf(h, domainType, v, chain)
  {
    hide Container, BytesTree;
    var v := UnwrapOr(version, GENESIS_FORK_VERSION);
    ShortBytes(h, v);
    TwoFields(h, [BytesTree(v), Leaf(UnwrapOr(validatorsRoot, Zeros(32)))]);
  }

  /** The version in force at an epoch. */
  function VersionAt(fork: Fork, epoch: Epoch): Version {
    if epoch < fork.epoch then fork.previousVersion else fork.currentVersion
  }

  /** The domain of a fork at an epoch; without an epoch, at the fork's own. */
  lemma DomainInForce(h: Hash, forkInfo: ForkInfo, domainType: DomainType, epoch: Option<Epoch>)
    ensures var fork := forkInfo.fork;
            var version := if epoch.Some? then VersionAt(fork, epoch.value) else fork.currentVersion;
            GetDomain(h, forkInfo, domainType, epoch)
            == DomainOf(h, domainType, version, forkInfo.genesisValidatorsRoot)
  {
    hide DomainFor, DomainOf;
    var fork := forkInfo.fork;
    var version := if epoch.Some? then VersionAt(fork, epoch.value) else fork.currentVersion;
    DomainBytes(h, domainType, Some(version), Some(forkInfo.genesisValidatorsRoot));
  }

  /** An object signed under the fork in force at an epoch. */
  lemma ForkSigningRoot(h: Hash, content: Tree, forkInfo: ForkInfo, domainType: DomainType, epoch: Epoch)
    ensures ComputeSigningRoot(h, content, GetDomain(h, forkInfo, domainType, Some(epoch)))
            == h(HashTreeRoot(h, content),
                 DomainOf(h, domainType, VersionAt(forkInfo.fork, epoch), forkInfo.genesisValidatorsRoot))
  {
    hide GetDomain, ComputeSigningRoot, HashTreeRoot, DomainOf;
    SigningRootIsTreeRoot(h, content, GetDomain(h, forkInfo, domainType, Some(epoch)));
    DomainInForce(h, forkInfo, domainType, Some(epoch));
  }

  /** An object signed for no chain in particular. */
  lemma ChainlessSigningRoot(h: Hash, content: Tree, domainType: DomainType, version: Option<Version>)
    ensures var v: Version := if version.Some? then version.value else [0, 0, 0, 0];
            ComputeSigningRoot(h, content, DomainFor(h, domainType, version, None))
            == h(HashTreeRoot(h, content), DomainOf(h, domainType, v, Zeros(32)))
  {
    hide DomainFor, ComputeSigningRoot, HashTreeRoot, DomainOf;
    SigningRootIsTreeRoot(h, content, DomainFor(h, domainType, version, None));
    DomainBytes(h, domainType, version, None);
  }

  /** What an attester signs, under either tag: the data's root and the attester domain of the fork at the target
      epoch. */
  lemma VoteSigningRoot(h: Hash, m: AttestationRequest, genesis: Option<Version>)
    ensures ToSigningRoot(h, LowerAttestation(m), genesis) == ToSigningRoot(h, Attestation(m), genesis)
    ensures var on, epoch := m.forkInfo, m.attestation.target.epoch;
            ToSigningRoot(h, Attestation(m), genesis)
            == h(HashTreeRoot(h, m.attestation.ToTree()),
                 DomainOf(h, [1, 0, 0, 0], VersionAt(on.fork, epoch), on.genesisValidatorsRoot))
  {
    hide DomainFor, GetDomain, DomainOf, ComputeSigningRoot, AttestationData.ToTree, HashTreeRoot, UintChunk;
    ForkSigningRoot(h, m.attestation.ToTree(), m.forkInfo, DOMAIN_BEACON_ATTESTER, m.attestation.target.epoch);
  }

  /** What a proposer signs: the header's root and the proposer domain of the fork at the slot's epoch. */
  lemma ProposalSigningRoot(h: Hash, m: BlockV2Request, genesis: Option<Version>)
    ensures ToSigningRoot(h, LowerBlockV2(m), genesis) == ToSigningRoot(h, BlockV2(m), genesis)
    ensures var on, epoch := m.forkInfo, m.blockHeader.slot / 32;
            ToSigningRoot(h, BlockV2(m), genesis)
            == h(HashTreeRoot(h, m.blockHeader.ToTree()),
                 DomainOf(h, [0, 0, 0, 0], VersionAt(on.fork, epoch), on.genesisValidatorsRoot))
  {
    hide DomainFor, GetDomain, DomainOf, ComputeSigningRoot, BeaconBlockHeader.ToTree, HashTreeRoot, UintChunk;
    ForkSigningRoot(h, m.blockHeader.ToTree(), m.forkInfo, DOMAIN_BEACON_PROPOSER, m.blockHeader.slot / 32);
  }

  /** The same for a full block. */
  lemma BlockSigningRoot(h: Hash, m: BlockRequest, genesis: Option<Version>)
    ensures ToSigningRoot(h, LowerBlock(m), genesis) == ToSigningRoot(h, Block(m), genesis)
    ensures var on, epoch := m.forkInfo, m.block.slot / 32;
            ToSigningRoot(h, Block(m), genesis)
            == h(HashTreeRoot(h, m.block.ToTree()),
                 DomainOf(h, [0, 0, 0, 0], VersionAt(on.fork, epoch), on.genesisValidatorsRoot))
  {
    hide DomainFor, GetDomain, DomainOf, ComputeSigningRoot, BeaconBlock.ToTree, HashTreeRoot, UintChunk;
    ForkSigningRoot(h, m.block.ToTree(), m.forkInfo, DOMAIN_BEACON_PROPOSER, m.block.slot / 32);
  }

  /** A randao reveal: the epoch, under the fork at that epoch. */
  lemma RandaoSigningRoot(h: Hash, m: RandaoRevealRequest, genesis: Option<Version>)
    ensures ToSigningRoot(h, LowerRandaoReveal(m), genesis) == ToSigningRoot(h, RandaoReveal(m), genesis)
    ensures var on, epoch := m.forkInfo, m.epoch;
            ToSigningRoot(h, RandaoReveal(m), genesis)
            == h(UintChunk(m.epoch),
                 DomainOf(h, [2, 0, 0, 0], VersionAt(on.fork, epoch), on.genesisValidatorsRoot))
  {
    hide DomainFor, GetDomain, DomainOf, ComputeSigningRoot, UintChunk, Zeros;
    ForkSigningRoot(h, UintTree(m.epoch), m.forkInfo, DOMAIN_RANDAO, m.epoch);
  }

  /** An aggregate and proof, under the fork at the epoch of the aggregate's slot. */
  lemma AggregateSigningRoot(h: Hash, m: AggregateAndProofRequest, genesis: Option<Version>)
    ensures ToSigningRoot(h, LowerAggregateAndProof(m), genesis) == ToSigningRoot(h, AggregateAndProofMsg(m), genesis)
    ensures var on, epoch := m.forkInfo, m.aggregateAndProof.aggregate.data.slot / 32;
            ToSigningRoot(h, AggregateAndProofMsg(m), genesis)
            == h(HashTreeRoot(h, m.aggregateAndProof.ToTree()),
                 DomainOf(h, [6, 0, 0, 0], VersionAt(on.fork, epoch), on.genesisValidatorsRoot))
  {
    hide DomainFor, GetDomain, DomainOf, ComputeSigningRoot, AggregateAndProof.ToTree, HashTreeRoot, UintChunk;
    ForkSigningRoot(h, m.aggregateAndProof.ToTree(), m.forkInfo, DOMAIN_AGGREGATE_AND_PROOF,
                    m.aggregateAndProof.aggregate.data.slot / 32);
  }

  /** The slot an aggregator is selected for, under the fork at its epoch. */
  lemma AggregationSlotSigningRoot(h: Hash, m: AggregationSlotRequest, genesis: Option<Version>)
    ensures ToSigningRoot(h, LowerAggregationSlot(m), genesis) == ToSigningRoot(h, AggregationSlot(m), genesis)
    ensures var on, epoch := m.forkInfo, m.slot / 32;
            ToSigningRoot(h, AggregationSlot(m), genesis)
            == h(UintChunk(m.slot),
                 DomainOf(h, [5, 0, 0, 0], VersionAt(on.fork, epoch), on.genesisValidatorsRoot))
  {
    hide DomainFor, GetDomain, DomainOf, ComputeSigningRoot, UintChunk, Zeros;
    ForkSigningRoot(h, UintTree(m.slot), m.forkInfo, DOMAIN_SELECTION_PROOF, m.slot / 32);
  }

  /** What a deposit signs: key, credentials and amount, under the deposit domain of a version and no chain. */
  function DepositToSign(h: Hash, key: Bytes48, credentials: Bytes32, amount: uint64, version: Version): Root {
    h(h(h(KeyRoot(h, key), credentials), h(UintChunk(amount), Zeros(32))),
      DomainOf(h, [3, 0, 0, 0], version, Zeros(32)))
  }

  /** The root of a deposit together with its signature. */
  function DepositToSend(h: Hash, key: Bytes48, credentials: Bytes32, amount: uint64, signature: Bytes96): Root {
    h(h(KeyRoot(h, key), credentials),
      h(UintChunk(amount), SignatureRoot(h, signature)))
  }

  /** Key, credentials, amount and signature. */
  lemma DepositDataRoot(h: Hash, d: DepositData)
    ensures HashTreeRoot(h, d.ToTree())
            == DepositToSend(h, d.pubkey, d.withdrawalCredentials, d.amount, d.signature)
  {
    hide Container, UintChunk, BytesTree;
    KeyBytes(h, d.pubkey);
    SignatureBytes(h, d.signature);
    FourFields(h, [BytesTree(d.pubkey), Leaf(d.withdrawalCredentials), UintTree(d.amount), BytesTree(d.signature)]);
  }

  lemma DepositContentRoot(h: Hash, d: DepositMessage, version: Version)
    ensures ComputeSigningRoot(h, d.ToTree(), DomainFor(h, DOMAIN_DEPOSIT, Some(version), None))
            == DepositToSign(h, d.pubkey, d.withdrawalCredentials, d.amount, version)
  {
    hide DomainFor, DomainOf, ComputeSigningRoot, DepositMessage.ToTree, HashTreeRoot, UintChunk;
    ChainlessSigningRoot(h, d.ToTree(), DOMAIN_DEPOSIT, Some(version));
    DepositMessageRoot(h, d);
  }

  /** A deposit request, whichever tag it has. */
  lemma DepositSigningRoot(h: Hash, m: DepositRequest, genesis: Option<Version>)
    ensures ToSigningRoot(h, LowerDeposit(m), genesis) == ToSigningRoot(h, Deposit(m), genesis)
    ensures var d := m.deposit;
            ToSigningRoot(h, Deposit(m), genesis)
            == DepositToSign(h, d.pubkey, d.withdrawalCredentials, d.amount, m.genesisForkVersion)
  {
    DepositContentRoot(h, m.deposit, m.genesisForkVersion);
    hide DomainFor, DomainOf, ComputeSigningRoot, DepositMessage.ToTree, DepositToSign;
  }

  /** An exit: epoch and validator, under the fork at the exit's epoch. */
  lemma ExitSigningRoot(h: Hash, m: VoluntaryExitRequest, genesis: Option<Version>)
    ensures ToSigningRoot(h, LowerVoluntaryExit(m), genesis) == ToSigningRoot(h, VoluntaryExitMsg(m), genesis)
    ensures var on, epoch := m.forkInfo, m.voluntaryExit.epoch;
            ToSigningRoot(h, VoluntaryExitMsg(m), genesis)
            == h(h(UintChunk(m.voluntaryExit.epoch), UintChunk(m.voluntaryExit.validatorIndex)),
                 DomainOf(h, [4, 0, 0, 0], VersionAt(on.fork, epoch), on.genesisValidatorsRoot))
  {
    hide DomainFor, GetDomain, DomainOf, ComputeSigningRoot, VoluntaryExit.ToTree, HashTreeRoot, UintChunk;
    VoluntaryExitRoot(h, m.voluntaryExit);
    ForkSigningRoot(h, m.voluntaryExit.ToTree(), m.forkInfo, DOMAIN_VOLUNTARY_EXIT, m.voluntaryExit.epoch);
  }

  /** A sync committee message: the block root itself, under the fork at the slot's epoch. */
  lemma SyncMessageSigningRoot(h: Hash, m: SyncCommitteeMessageRequest, genesis: Option<Version>)
    ensures ToSigningRoot(h, LowerSyncCommitteeMessage(m), genesis)
            == ToSigningRoot(h, SyncCommitteeMessage(m), genesis)
    ensures var on, epoch := m.forkInfo, m.slot / 32;
            ToSigningRoot(h, SyncCommitteeMessage(m), genesis)
            == h(m.beaconBlockRoot,
                 DomainOf(h, [7, 0, 0, 0], VersionAt(on.fork, epoch), on.genesisValidatorsRoot))
  {
    hide DomainFor, GetDomain, DomainOf, ComputeSigningRoot, UintChunk, Zeros;
    ForkSigningRoot(h, Leaf(m.beaconBlockRoot), m.forkInfo, DOMAIN_SYNC_COMMITTEE, m.slot / 32);
  }

  /** The selection of a sync committee aggregator: slot and subcommittee, under the fork at the slot's epoch. */
  lemma SelectionProofSigningRoot(h: Hash, m: SyncCommitteeSelectionProofRequest, genesis: Option<Version>)
    ensures ToSigningRoot(h, LowerSyncCommitteeSelectionProof(m), genesis)
            == ToSigningRoot(h, SyncCommitteeSelectionProof(m), genesis)
    ensures var on, epoch := m.forkInfo, m.selectionData.slot / 32;
            ToSigningRoot(h, SyncCommitteeSelectionProof(m), genesis)
            == h(h(UintChunk(m.selectionData.slot), UintChunk(m.selectionData.subcommitteeIndex)),
                 DomainOf(h, [8, 0, 0, 0], VersionAt(on.fork, epoch), on.genesisValidatorsRoot))
  {
    hide DomainFor, GetDomain, DomainOf, ComputeSigningRoot, SyncAggregatorSelectionData.ToTree, HashTreeRoot;
    hide UintChunk;
    SelectionDataRoot(h, m.selectionData);
    ForkSigningRoot(h, m.selectionData.ToTree(), m.forkInfo, DOMAIN_SYNC_COMMITTEE_SELECTION_PROOF,
                    m.selectionData.slot / 32);
  }

  /** A contribution and proof, under the fork at the epoch of the contribution's slot. */
  lemma ContributionSigningRoot(h: Hash, m: ContributionAndProofRequest, genesis: Option<Version>)
    ensures ToSigningRoot(h, LowerSyncCommitteeContributionAndProof(m), genesis)
            == ToSigningRoot(h, SyncCommitteeContributionAndProof(m), genesis)
    ensures var on, epoch := m.forkInfo, m.contributionAndProof.contribution.slot / 32;
            ToSigningRoot(h, SyncCommitteeContributionAndProof(m), genesis)
            == h(HashTreeRoot(h, m.contributionAndProof.ToTree()),
                 DomainOf(h, [9, 0, 0, 0], VersionAt(on.fork, epoch), on.genesisValidatorsRoot))
  {
    hide DomainFor, GetDomain, DomainOf, ComputeSigningRoot, ContributionAndProof.ToTree, HashTreeRoot, UintChunk;
    ForkSigningRoot(h, m.contributionAndProof.ToTree(), m.forkInfo, DOMAIN_CONTRIBUTION_AND_PROOF,
                    m.contributionAndProof.contribution.slot / 32);
  }

  /** A builder registration: for the configured version, or that of genesis, and no chain. */
  lemma RegistrationSigningRoot(h: Hash, m: ValidatorRegistrationRequest, genesis: Option<Version>)
    ensures ToSigningRoot(h, LowerValidatorRegistration(m), genesis)
            == ToSigningRoot(h, ValidatorRegistrationMsg(m), genesis)
    ensures var v: Version := if genesis.Some? then genesis.value else [0, 0, 0, 0];
            ToSigningRoot(h, ValidatorRegistrationMsg(m), genesis)
            == h(HashTreeRoot(h, m.registration.ToTree()),
                 DomainOf(h, [0, 0, 0, 1], v, Zeros(32)))
  {
    hide DomainFor, GetDomain, DomainOf, ComputeSigningRoot, ValidatorRegistration.ToTree, HashTreeRoot, UintChunk;
    ChainlessSigningRoot(h, m.registration.ToTree(), DOMAIN_APPLICATION_BUILDER, genesis);
  }
}
