/** Domains and signing roots: what is hashed for each kind of request, and why roots of different
    duties never coincide. */
module SigningRoots {
  import opened Wrappers
  import opened Bytes
  import opened Digits
  import opened Ssz
  import opened SigningMessages

  // ---------------------------------------------------------------- domains

  function ComputeForkDataRoot(h: Hash, currentVersion: Version, genesisValidatorsRoot: Root): Root {
    HashTreeRoot(h, Container([BytesTree(currentVersion), Leaf(genesisValidatorsRoot)]))
  }

  function UnwrapOr<T>(o: Option<T>, default: T): T {
    if o.Some? then o.value else default
  }

  /** The domain: the four type bytes, then the first 28 bytes of the fork data root. */
  function DomainFor(h: Hash, domainType: DomainType, forkVersion: Option<Version>,
                     genesisValidatorsRoot: Option<Root>): (d: Domain)
    ensures d[..4] == domainType
  {
    var version := UnwrapOr(forkVersion, GENESIS_FORK_VERSION);
    var validatorsRoot := UnwrapOr(genesisValidatorsRoot, Zeros(32));
    domainType + ComputeForkDataRoot(h, version, validatorsRoot)[..28]
  }

  /** Fills the domain byte by byte, first the type and then the prefix of the fork data root. */
  method ComputeDomain(h: Hash, domainType: DomainType, forkVersion: Option<Version>,
                       genesisValidatorsRoot: Option<Root>) returns (d: array<byte>)
    ensures fresh(d) && d[..] == DomainFor(h, domainType, forkVersion, genesisValidatorsRoot)
  {
    var version := UnwrapOr(forkVersion, GENESIS_FORK_VERSION);
    var validatorsRoot := UnwrapOr(genesisValidatorsRoot, Zeros(32));
    var forkDataRoot := ComputeForkDataRoot(h, version, validatorsRoot);
    d := new byte[32](i => 0);
    for i := 0 to |domainType|
      invariant d[..i] == domainType[..i]
    {
      d[i] := domainType[i];
    }
    for i := 4 to 32
      invariant d[..4] == domainType
      invariant d[4..i] == forkDataRoot[..i - 4]
    {
      d[i] := forkDataRoot[i - 4];
    }
    assert d[..] == d[..4] + d[4..32];
  }

  function ComputeEpochAtSlot(slot: Slot): Epoch {
    slot / SLOTS_PER_EPOCH
  }

  function GetDomain(h: Hash, forkInfo: ForkInfo, domainType: DomainType, epoch: Option<Epoch>): (d: Domain)
    ensures d[..4] == domainType
  {
    var at := UnwrapOr(epoch, forkInfo.fork.epoch);
    var forkVersion :=
      if at < forkInfo.fork.epoch then forkInfo.fork.previousVersion else forkInfo.fork.currentVersion;
    DomainFor(h, domainType, Some(forkVersion), Some(forkInfo.genesisValidatorsRoot))
  }

  // ---------------------------------------------------------------- signing roots

  function ComputeSigningRoot(h: Hash, content: Tree, domain: Domain): Root {
    HashTreeRoot(h, Container([Leaf(HashTreeRoot(h, content)), Leaf(domain)]))
  }

  /** The object signed together with its domain, as one tree. */
  function SigningTree(content: Tree, domain: Domain): Tree {
    Node(content, Leaf(domain))
  }

  /** The signing root is the root of the signing tree: one hash of object root and domain. */
  lemma SigningRootIsTreeRoot(h: Hash, content: Tree, domain: Domain)
    ensures ComputeSigningRoot(h, content, domain) == HashTreeRoot(h, SigningTree(content, domain))
    ensures ComputeSigningRoot(h, content, domain) == h(HashTreeRoot(h, content), domain)
  {
    var fields := [Leaf(HashTreeRoot(h, content)), Leaf(domain)];
    assert Depth(|fields|) == 1 + Depth(1) == 1;
    assert Pow(2, 0) == 1;
    assert Pack(fields, 1) == Node(Pack(fields[..1], 0), Pack(fields[1..], 0)) == Node(fields[0], fields[1]);
    assert HashTreeRoot(h, Node(fields[0], fields[1])) == h(fields[0].chunk, fields[1].chunk);
  }

  /** What a request signs: the object and the domain. */
  datatype Signable = Signable(content: Tree, domain: Domain)

  function SignableBlock(h: Hash, m: BlockRequest): (s: Signable)
    ensures s.domain[..4] == DOMAIN_BEACON_PROPOSER
  {
    Signable(m.block.ToTree(),
           GetDomain(h, m.forkInfo, DOMAIN_BEACON_PROPOSER, Some(ComputeEpochAtSlot(m.block.slot))))
  }

  function SignableBlockV2(h: Hash, m: BlockV2Request): (s: Signable)
    ensures s.domain[..4] == DOMAIN_BEACON_PROPOSER
  {
    Signable(m.blockHeader.ToTree(),
           GetDomain(h, m.forkInfo, DOMAIN_BEACON_PROPOSER, Some(ComputeEpochAtSlot(m.blockHeader.slot))))
  }

  function SignableAttestation(h: Hash, m: AttestationRequest): (s: Signable)
    ensures s.domain[..4] == DOMAIN_BEACON_ATTESTER
  {
    Signable(m.attestation.ToTree(),
           GetDomain(h, m.forkInfo, DOMAIN_BEACON_ATTESTER, Some(m.attestation.target.epoch)))
  }

  function SignableRandao(h: Hash, m: RandaoRevealRequest): (s: Signable)
    ensures s.domain[..4] == DOMAIN_RANDAO
  {
    Signable(UintTree(m.epoch), GetDomain(h, m.forkInfo, DOMAIN_RANDAO, Some(m.epoch)))
  }

  function SignableAggregateAndProof(h: Hash, m: AggregateAndProofRequest): (s: Signable)
    ensures s.domain[..4] == DOMAIN_AGGREGATE_AND_PROOF
  {
    var epoch := ComputeEpochAtSlot(m.aggregateAndProof.aggregate.data.slot);
    Signable(m.aggregateAndProof.ToTree(), GetDomain(h, m.forkInfo, DOMAIN_AGGREGATE_AND_PROOF, Some(epoch)))
  }

  function SignableAggregationSlot(h: Hash, m: AggregationSlotRequest): (s: Signable)
    ensures s.domain[..4] == DOMAIN_SELECTION_PROOF
  {
    Signable(UintTree(m.slot), GetDomain(h, m.forkInfo, DOMAIN_SELECTION_PROOF, Some(ComputeEpochAtSlot(m.slot))))
  }

  function SignableDeposit(h: Hash, m: DepositRequest): (s: Signable)
    ensures s.domain[..4] == DOMAIN_DEPOSIT
  {
    Signable(m.deposit.ToTree(), DomainFor(h, DOMAIN_DEPOSIT, Some(m.genesisForkVersion), None))
  }

  function SignableVoluntaryExit(h: Hash, m: VoluntaryExitRequest): (s: Signable)
    ensures s.domain[..4] == DOMAIN_VOLUNTARY_EXIT
  {
    Signable(m.voluntaryExit.ToTree(), GetDomain(h, m.forkInfo, DOMAIN_VOLUNTARY_EXIT, Some(m.voluntaryExit.epoch)))
  }

  function SignableSyncCommitteeMessage(h: Hash, m: SyncCommitteeMessageRequest): (s: Signable)
    ensures s.domain[..4] == DOMAIN_SYNC_COMMITTEE
  {
    Signable(Leaf(m.beaconBlockRoot),
           GetDomain(h, m.forkInfo, DOMAIN_SYNC_COMMITTEE, Some(ComputeEpochAtSlot(m.slot))))
  }

  function SignableSelectionProof(h: Hash, m: SyncCommitteeSelectionProofRequest): (s: Signable)
    ensures s.domain[..4] == DOMAIN_SYNC_COMMITTEE_SELECTION_PROOF
  {
    var epoch := ComputeEpochAtSlot(m.selectionData.slot);
    Signable(m.selectionData.ToTree(), GetDomain(h, m.forkInfo, DOMAIN_SYNC_COMMITTEE_SELECTION_PROOF, Some(epoch)))
  }

  function SignableContribution(h: Hash, m: ContributionAndProofRequest): (s: Signable)
    ensures s.domain[..4] == DOMAIN_CONTRIBUTION_AND_PROOF
  {
    var epoch := ComputeEpochAtSlot(m.contributionAndProof.contribution.slot);
    Signable(m.contributionAndProof.ToTree(), GetDomain(h, m.forkInfo, DOMAIN_CONTRIBUTION_AND_PROOF, Some(epoch)))
  }

  function SignableRegistration(h: Hash, m: ValidatorRegistrationRequest, genesisForkVersion: Option<Version>)
    : (s: Signable)
    ensures s.domain[..4] == DOMAIN_APPLICATION_BUILDER
  {
    Signable(m.registration.ToTree(), DomainFor(h, DOMAIN_APPLICATION_BUILDER, genesisForkVersion, None))
  }

  function SignableOf(h: Hash, msg: BLSSignMsg, genesisForkVersion: Option<Version>): Signable {
    match msg
    case Block(m) => SignableBlock(h, m)
    case LowerBlock(m) => SignableBlock(h, m)
    case BlockV2(m) => SignableBlockV2(h, m)
    case LowerBlockV2(m) => SignableBlockV2(h, m)
    case Attestation(m) => SignableAttestation(h, m)
    case LowerAttestation(m) => SignableAttestation(h, m)
    case RandaoReveal(m) => SignableRandao(h, m)
    case LowerRandaoReveal(m) => SignableRandao(h, m)
    case AggregateAndProofMsg(m) => SignableAggregateAndProof(h, m)
    case LowerAggregateAndProof(m) => SignableAggregateAndProof(h, m)
    case AggregationSlot(m) => SignableAggregationSlot(h, m)
    case LowerAggregationSlot(m) => SignableAggregationSlot(h, m)
    case Deposit(m) => SignableDeposit(h, m)
    case LowerDeposit(m) => SignableDeposit(h, m)
    case VoluntaryExitMsg(m) => SignableVoluntaryExit(h, m)
    case LowerVoluntaryExit(m) => SignableVoluntaryExit(h, m)
    case SyncCommitteeMessage(m) => SignableSyncCommitteeMessage(h, m)
    case LowerSyncCommitteeMessage(m) => SignableSyncCommitteeMessage(h, m)
    case SyncCommitteeSelectionProof(m) => SignableSelectionProof(h, m)
    case LowerSyncCommitteeSelectionProof(m) => SignableSelectionProof(h, m)
    case SyncCommitteeContributionAndProof(m) => SignableContribution(h, m)
    case LowerSyncCommitteeContributionAndProof(m) => SignableContribution(h, m)
    case ValidatorRegistrationMsg(m) => SignableRegistration(h, m, genesisForkVersion)
    case LowerValidatorRegistration(m) => SignableRegistration(h, m, genesisForkVersion)
  }

  function ToSigningRoot(h: Hash, msg: BLSSignMsg, genesisForkVersion: Option<Version>): Root {
    var signed := SignableOf(h, msg, genesisForkVersion);
    ComputeSigningRoot(h, signed.content, signed.domain)
  }

  predicate CanBeSlashed(msg: BLSSignMsg) {
    msg.Block? || msg.LowerBlock? || msg.BlockV2? || msg.LowerBlockV2? || msg.Attestation? || msg.LowerAttestation?
  }

  // ---------------------------------------------------------------- domain separation

  /** The duty a request performs, whatever its tag: the two block forms are one duty. */
  datatype Duty =
    | Propose | Attest | RevealRandao | AggregateProof | SelectAggregator | MakeDeposit | Exit
    | SyncMessage | SelectSyncAggregator | SyncContribution | RegisterValidator

  function DutyOf(msg: BLSSignMsg): Duty {
    match msg
    case Block(_) => Propose
    case LowerBlock(_) => Propose
    case BlockV2(_) => Propose
    case LowerBlockV2(_) => Propose
    case Attestation(_) => Attest
    case LowerAttestation(_) => Attest
    case RandaoReveal(_) => RevealRandao
    case LowerRandaoReveal(_) => RevealRandao
    case AggregateAndProofMsg(_) => AggregateProof
    case LowerAggregateAndProof(_) => AggregateProof
    case AggregationSlot(_) => SelectAggregator
    case LowerAggregationSlot(_) => SelectAggregator
    case Deposit(_) => MakeDeposit
    case LowerDeposit(_) => MakeDeposit
    case VoluntaryExitMsg(_) => Exit
    case LowerVoluntaryExit(_) => Exit
    case SyncCommitteeMessage(_) => SyncMessage
    case LowerSyncCommitteeMessage(_) => SyncMessage
    case SyncCommitteeSelectionProof(_) => SelectSyncAggregator
    case LowerSyncCommitteeSelectionProof(_) => SelectSyncAggregator
    case SyncCommitteeContributionAndProof(_) => SyncContribution
    case LowerSyncCommitteeContributionAndProof(_) => SyncContribution
    case ValidatorRegistrationMsg(_) => RegisterValidator
    case LowerValidatorRegistration(_) => RegisterValidator
  }

  function DomainTypeOf(duty: Duty): DomainType {
    match duty
    case Propose => DOMAIN_BEACON_PROPOSER
    case Attest => DOMAIN_BEACON_ATTESTER
    case RevealRandao => DOMAIN_RANDAO
    case AggregateProof => DOMAIN_AGGREGATE_AND_PROOF
    case SelectAggregator => DOMAIN_SELECTION_PROOF
    case MakeDeposit => DOMAIN_DEPOSIT
    case Exit => DOMAIN_VOLUNTARY_EXIT
    case SyncMessage => DOMAIN_SYNC_COMMITTEE
    case SelectSyncAggregator => DOMAIN_SYNC_COMMITTEE_SELECTION_PROOF
    case SyncContribution => DOMAIN_CONTRIBUTION_AND_PROOF
    case RegisterValidator => DOMAIN_APPLICATION_BUILDER
  }

  /** Domain types are pairwise distinct: the first and the last byte tell the duties apart. */
  lemma DomainTypesDistinct(a: Duty, b: Duty)
    requires DomainTypeOf(a) == DomainTypeOf(b)
    ensures a == b
  {
    assert DomainTypeOf(a)[0] == DomainTypeOf(b)[0] && DomainTypeOf(a)[3] == DomainTypeOf(b)[3];
  }

  /** Every request is signed under the domain type of its duty. */
  lemma DomainCarriesDuty(h: Hash, msg: BLSSignMsg, genesisForkVersion: Option<Version>)
    ensures SignableOf(h, msg, genesisForkVersion).domain[..4] == DomainTypeOf(DutyOf(msg))
  {
    var s := SignableOf(h, msg, genesisForkVersion);
    match DutyOf(msg)
    case Propose =>
    case Attest =>
    case RevealRandao =>
    case AggregateProof =>
    case SelectAggregator =>
    case MakeDeposit =>
    case Exit =>
    case SyncMessage =>
    case SelectSyncAggregator =>
    case SyncContribution =>
    case RegisterValidator =>
  }

  /** The one pair whose hash is the signing root. */
  function RootInput(h: Hash, s: Signable): (Bytes32, Bytes32) {
    (HashTreeRoot(h, s.content), s.domain)
  }

  /** Requests of different duties have different signing roots, for any fork infos and fields. */
  lemma DutiesNeverShareARoot(h: Hash, a: BLSSignMsg, ga: Option<Version>, b: BLSSignMsg, gb: Option<Version>)
    requires DutyOf(a) != DutyOf(b)
    requires CollisionFree(h, {RootInput(h, SignableOf(h, a, ga)), RootInput(h, SignableOf(h, b, gb))})
    ensures ToSigningRoot(h, a, ga) != ToSigningRoot(h, b, gb)
  {
    hide SignableOf, ComputeSigningRoot, DutyOf, DomainTypeOf, HashTreeRoot;
    var x, y := SignableOf(h, a, ga), SignableOf(h, b, gb);
    SigningRootIsTreeRoot(h, x.content, x.domain);
    SigningRootIsTreeRoot(h, y.content, y.domain);
    DomainCarriesDuty(h, a, ga);
    DomainCarriesDuty(h, b, gb);
    if ToSigningRoot(h, a, ga) == ToSigningRoot(h, b, gb) {
      assert RootInput(h, x) == RootInput(h, y);
      DomainTypesDistinct(DutyOf(a), DutyOf(b));
    }
  }

  /** The domain is what separates them: the same object root can occur under several duties. */
  lemma ObjectRootsCoincide(h: Hash, fork: ForkInfo, n: uint64, header: BeaconBlockHeader)
    ensures SignableOf(h, RandaoReveal(RandaoRevealRequest(fork, n)), None).content
            == SignableOf(h, AggregationSlot(AggregationSlotRequest(fork, n)), None).content
    ensures HashTreeRoot(h, SignableOf(h, BlockV2(BlockV2Request(fork, "", header)), None).content)
            == HashTreeRoot(h, SignableOf(h, SyncCommitteeMessage(
                 SyncCommitteeMessageRequest(fork, n, HashTreeRoot(h, header.ToTree()))), None).content)
  {
    hide Container, UintTree, GetDomain;
  }

  // ---------------------------------------------------------------- blocks and headers

  /** A container's root depends on its fields only through their roots. */
  lemma {:induction false} PackRoots(h: Hash, f: seq<Tree>, g: seq<Tree>, depth: nat)
    requires |f| == |g| && forall i :: 0 <= i < |f| ==> HashTreeRoot(h, f[i]) == HashTreeRoot(h, g[i])
    ensures HashTreeRoot(h, Pack(f, depth)) == HashTreeRoot(h, Pack(g, depth))
    decreases depth
  {
    if depth > 0 {
      var half := Pow(2, depth - 1);
      if |f| <= half {
        PackRoots(h, f, g, depth - 1);
      } else {
        PackRoots(h, f[..half], g[..half], depth - 1);
        PackRoots(h, f[half..], g[half..], depth - 1);
      }
    }
  }

  /** A block and its header have the same root. */
  lemma HeaderSummarizesBlock(h: Hash, block: BeaconBlock)
    ensures HashTreeRoot(h, block.ToTree()) == HashTreeRoot(h, block.Header(h).ToTree())
  {
    var header := block.Header(h);
    PackRoots(h,
              [UintTree(block.slot), UintTree(block.proposerIndex), Leaf(block.parentRoot),
               Leaf(block.stateRoot), block.body],
              [UintTree(header.slot), UintTree(header.proposerIndex), Leaf(header.parentRoot),
               Leaf(header.stateRoot), Leaf(header.bodyRoot)],
              Depth(5));
  }

  /** A full block and its header, sent as the two request forms under any of the four tags, get the same
      signing root. */
  lemma BlockAndHeaderAgree(h: Hash, fork: ForkInfo, block: BeaconBlock, version: string,
                            ga: Option<Version>, gb: Option<Version>)
    ensures var full, header := BlockRequest(fork, block), BlockV2Request(fork, version, block.Header(h));
            && ToSigningRoot(h, Block(full), ga) == ToSigningRoot(h, BlockV2(header), gb)
            && ToSigningRoot(h, LowerBlock(full), ga) == ToSigningRoot(h, Block(full), gb)
            && ToSigningRoot(h, LowerBlockV2(header), ga) == ToSigningRoot(h, BlockV2(header), gb)
  {
    hide GetDomain, ComputeEpochAtSlot, BeaconBlock.ToTree, BeaconBlockHeader.ToTree;
    HeaderSummarizesBlock(h, block);
    hide HashTreeRoot;
  }

  /** Only registrations depend on the configured genesis version. */
  lemma GenesisVersionIrrelevant(h: Hash, msg: BLSSignMsg, ga: Option<Version>, gb: Option<Version>)
    requires DutyOf(msg) != RegisterValidator
    ensures ToSigningRoot(h, msg, ga) == ToSigningRoot(h, msg, gb)
  {
  }

  // ---------------------------------------------------------------- what a signing root binds

  /** The object of a request with a full block replaced by its header. */
  function SummaryOf(h: Hash, msg: BLSSignMsg, genesisForkVersion: Option<Version>): Tree {
    match msg
    case Block(m) => m.block.Header(h).ToTree()
    case LowerBlock(m) => m.block.Header(h).ToTree()
    case _ => SignableOf(h, msg, genesisForkVersion).content
  }

  /** The pairs hashed for the signing root of a request, below the level of a block body. */
  function HashedFor(h: Hash, msg: BLSSignMsg, genesisForkVersion: Option<Version>): set<(Bytes32, Bytes32)> {
    HashInputs(h, SigningTree(SummaryOf(h, msg, genesisForkVersion), SignableOf(h, msg, genesisForkVersion).domain))
  }

  lemma SummaryHasTheRoot(h: Hash, msg: BLSSignMsg, genesisForkVersion: Option<Version>)
    ensures ToSigningRoot(h, msg, genesisForkVersion)
            == HashTreeRoot(h, SigningTree(SummaryOf(h, msg, genesisForkVersion),
                                           SignableOf(h, msg, genesisForkVersion).domain))
  {
    hide GetDomain, DomainFor, ComputeSigningRoot, Container, Pack;
    var signed := SignableOf(h, msg, genesisForkVersion);
    SigningRootIsTreeRoot(h, signed.content, signed.domain);
    match msg
    case Block(m) => HeaderSummarizesBlock(h, m.block);
    case LowerBlock(m) => HeaderSummarizesBlock(h, m.block);
    case _ =>
  }

  /** Equal attestation trees hold equal attestations, and all of them have one shape. */
  lemma AttestationTrees(a: AttestationData, b: AttestationData)
    ensures SameShape(a.ToTree(), b.ToTree())
    ensures a.ToTree() == b.ToTree() ==> a == b
  {
    hide Pack, Depth, UintTree, Checkpoint.ToTree;
    CheckpointTrees(a.source, b.source);
    CheckpointTrees(a.target, b.target);
    UintTrees(a.slot, b.slot);
    UintTrees(a.index, b.index);
    var f := [UintTree(a.slot), UintTree(a.index), Leaf(a.beaconBlockRoot), a.source.ToTree(), a.target.ToTree()];
    var g := [UintTree(b.slot), UintTree(b.index), Leaf(b.beaconBlockRoot), b.source.ToTree(), b.target.ToTree()];
    PackSameShape(f, g, Depth(5));
    if a.ToTree() == b.ToTree() {
      ContainerInjective(f, g);
      assert f[0] == g[0] && f[1] == g[1] && f[2] == g[2] && f[3] == g[3] && f[4] == g[4];
    }
  }

  lemma UintTrees(m: uint64, n: uint64)
    ensures SameShape(UintTree(m), UintTree(n))
    ensures UintTree(m) == UintTree(n) ==> m == n
  {
    hide UintChunk;
    if UintTree(m) == UintTree(n) {
      UintTreeInjective(m, n);
    }
  }

  lemma CheckpointTrees(a: Checkpoint, b: Checkpoint)
    ensures SameShape(a.ToTree(), b.ToTree())
    ensures a.ToTree() == b.ToTree() ==> a == b
  {
    hide Pack, Depth, UintTree;
    UintTrees(a.epoch, b.epoch);
    var f, g := [UintTree(a.epoch), Leaf(a.root)], [UintTree(b.epoch), Leaf(b.root)];
    PackSameShape(f, g, Depth(2));
    if a.ToTree() == b.ToTree() {
      ContainerInjective(f, g);
      assert f[0] == g[0] && f[1] == g[1];
    }
  }

  lemma HeaderTrees(a: BeaconBlockHeader, b: BeaconBlockHeader)
    ensures SameShape(a.ToTree(), b.ToTree())
    ensures a.ToTree() == b.ToTree() ==> a == b
  {
    hide Pack, Depth, UintTree;
    UintTrees(a.slot, b.slot);
    UintTrees(a.proposerIndex, b.proposerIndex);
    var f := [UintTree(a.slot), UintTree(a.proposerIndex), Leaf(a.parentRoot), Leaf(a.stateRoot), Leaf(a.bodyRoot)];
    var g := [UintTree(b.slot), UintTree(b.proposerIndex), Leaf(b.parentRoot), Leaf(b.stateRoot), Leaf(b.bodyRoot)];
    PackSameShape(f, g, Depth(5));
    if a.ToTree() == b.ToTree() {
      ContainerInjective(f, g);
      assert f[0] == g[0] && f[1] == g[1] && f[2] == g[2] && f[3] == g[3] && f[4] == g[4];
    }
  }

  /** The header proposed by a block request of either form. */
  function ProposedHeader(h: Hash, msg: BLSSignMsg): BeaconBlockHeader
    requires DutyOf(msg) == Propose
  {
    match msg
    case Block(m) => m.block.Header(h)
    case LowerBlock(m) => m.block.Header(h)
    case BlockV2(m) => m.blockHeader
    case LowerBlockV2(m) => m.blockHeader
  }

  /** The attestation data voted for by an attestation request. */
  function VotedData(msg: BLSSignMsg): AttestationData
    requires DutyOf(msg) == Attest
  {
    match msg
    case Attestation(m) => m.attestation
    case LowerAttestation(m) => m.attestation
  }

  lemma AttestationSummary(h: Hash, msg: BLSSignMsg, g: Option<Version>)
    requires DutyOf(msg) == Attest
    ensures SummaryOf(h, msg, g) == VotedData(msg).ToTree()
  {
    hide Container, GetDomain, AttestationData.ToTree;
    match msg
    case Attestation(m) => assert SummaryOf(h, msg, g) == SignableAttestation(h, m).content;
    case LowerAttestation(m) => assert SummaryOf(h, msg, g) == SignableAttestation(h, m).content;
  }

  lemma ProposalSummary(h: Hash, msg: BLSSignMsg, g: Option<Version>)
    requires DutyOf(msg) == Propose
    ensures SummaryOf(h, msg, g) == ProposedHeader(h, msg).ToTree()
  {
    hide Container, GetDomain, BeaconBlockHeader.ToTree;
    match msg
    case Block(m) =>
    case LowerBlock(m) =>
    case BlockV2(m) => assert SummaryOf(h, msg, g) == SignableBlockV2(h, m).content;
    case LowerBlockV2(m) => assert SummaryOf(h, msg, g) == SignableBlockV2(h, m).content;
  }

  /** A request with the signing root of some other object and domain is signed under that domain, and its
      object has that object's root. */
  lemma SigningRootBinds(h: Hash, msg: BLSSignMsg, g: Option<Version>, content: Tree, domain: Domain,
                         inputs: set<(Bytes32, Bytes32)>)
    requires ToSigningRoot(h, msg, g) == ComputeSigningRoot(h, content, domain)
    requires HashedFor(h, msg, g) <= inputs && HashInputs(h, SigningTree(content, domain)) <= inputs
    requires CollisionFree(h, inputs)
    ensures HashTreeRoot(h, SummaryOf(h, msg, g)) == HashTreeRoot(h, content)
    ensures DomainTypeOf(DutyOf(msg)) == domain[..4]
    ensures HashInputs(h, SummaryOf(h, msg, g)) <= inputs && HashInputs(h, content) <= inputs
  {
    hide SummaryOf, SignableOf, DutyOf, ToSigningRoot, ComputeSigningRoot;
    var summary, under := SummaryOf(h, msg, g), SignableOf(h, msg, g).domain;
    SummaryHasTheRoot(h, msg, g);
    SigningRootIsTreeRoot(h, content, domain);
    var x, y := (HashTreeRoot(h, summary), under), (HashTreeRoot(h, content), domain);
    assert x in HashedFor(h, msg, g) && y in HashInputs(h, SigningTree(content, domain));
    assert x == y;
    DomainCarriesDuty(h, msg, g);
  }

  /** If the root of some request is also the root of an attestation under an attester domain, then the
      request is the attestation request for exactly that data. */
  lemma AttestationRootBinds(h: Hash, msg: BLSSignMsg, g: Option<Version>, data: AttestationData, domain: Domain,
                             inputs: set<(Bytes32, Bytes32)>)
    requires domain[..4] == DOMAIN_BEACON_ATTESTER
    requires ToSigningRoot(h, msg, g) == ComputeSigningRoot(h, data.ToTree(), domain)
    requires HashedFor(h, msg, g) <= inputs && HashInputs(h, SigningTree(data.ToTree(), domain)) <= inputs
    requires CollisionFree(h, inputs)
    ensures DutyOf(msg) == Attest && VotedData(msg) == data
  {
    hide SummaryOf, DutyOf, ToSigningRoot, ComputeSigningRoot, VotedData, AttestationData.ToTree, HashedFor;
    SigningRootBinds(h, msg, g, data.ToTree(), domain, inputs);
    DomainTypesDistinct(DutyOf(msg), Attest);
    AttestationSummary(h, msg, g);
    AttestationTrees(VotedData(msg), data);
    RootBindsTree(h, VotedData(msg).ToTree(), data.ToTree(), inputs);
  }

  /** The same for blocks: a root that is also the root of a header under a proposer domain belongs to a
      block request, of either form, that proposes exactly that header. */
  lemma ProposalRootBinds(h: Hash, msg: BLSSignMsg, g: Option<Version>, header: BeaconBlockHeader, domain: Domain,
                          inputs: set<(Bytes32, Bytes32)>)
    requires domain[..4] == DOMAIN_BEACON_PROPOSER
    requires ToSigningRoot(h, msg, g) == ComputeSigningRoot(h, header.ToTree(), domain)
    requires HashedFor(h, msg, g) <= inputs && HashInputs(h, SigningTree(header.ToTree(), domain)) <= inputs
    requires CollisionFree(h, inputs)
    ensures DutyOf(msg) == Propose && ProposedHeader(h, msg) == header
  {
    hide SummaryOf, DutyOf, ToSigningRoot, ComputeSigningRoot, ProposedHeader, BeaconBlockHeader.ToTree, HashedFor;
    SigningRootBinds(h, msg, g, header.ToTree(), domain, inputs);
    DomainTypesDistinct(DutyOf(msg), Propose);
    ProposalSummary(h, msg, g);
    HeaderTrees(ProposedHeader(h, msg), header);
    RootBindsTree(h, ProposedHeader(h, msg).ToTree(), header.ToTree(), inputs);
  }
}
