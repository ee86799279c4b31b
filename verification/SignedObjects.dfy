/** What a signing root binds, for every kind of request: the duty, the domain, and every field of the object. */
module SignedObjects {
  import opened Wrappers
  import opened Bytes
  import opened Ssz
  import opened SigningMessages
  import opened SigningRoots

  /** What is signed under a duty; a full block counts as its header. */
  datatype SignedObject =
    | HeaderObject(header: BeaconBlockHeader)
    | VoteObject(data: AttestationData)
    | EpochObject(epoch: Epoch)
    | SlotObject(slot: Slot)
    | RootObject(root: Root)
    | AggregateObject(aggregate: AggregateAndProof)
    | DepositObject(deposit: DepositMessage)
    | ExitObject(exit: VoluntaryExit)
    | SelectionObject(selection: SyncAggregatorSelectionData)
    | ContributionObject(contribution: ContributionAndProof)
    | RegistrationObject(registration: ValidatorRegistration)
  {
    function ToTree(): Tree {
      match this
      case HeaderObject(x) => x.ToTree()
      case VoteObject(x) => x.ToTree()
      case EpochObject(x) => UintTree(x)
      case SlotObject(x) => UintTree(x)
      case RootObject(x) => Leaf(x)
      case AggregateObject(x) => x.ToTree()
      case DepositObject(x) => x.ToTree()
      case ExitObject(x) => x.ToTree()
      case SelectionObject(x) => x.ToTree()
      case ContributionObject(x) => x.ToTree()
      case RegistrationObject(x) => x.ToTree()
    }

    predicate IsFor(duty: Duty) {
      match duty
      case Propose => HeaderObject?
      case Attest => VoteObject?
      case RevealRandao => EpochObject?
      case AggregateProof => AggregateObject?
      case SelectAggregator => SlotObject?
      case MakeDeposit => DepositObject?
      case Exit => ExitObject?
      case SyncMessage => RootObject?
      case SelectSyncAggregator => SelectionObject?
      case SyncContribution => ContributionObject?
      case RegisterValidator => RegistrationObject?
    }
  }

  function ObjectOf(h: Hash, msg: BLSSignMsg): (x: SignedObject)
    ensures x.IsFor(DutyOf(msg))
  {
    match msg
    case Block(m) => HeaderObject(m.block.Header(h))
    case LowerBlock(m) => HeaderObject(m.block.Header(h))
    case BlockV2(m) => HeaderObject(m.blockHeader)
    case LowerBlockV2(m) => HeaderObject(m.blockHeader)
    case Attestation(m) => VoteObject(m.attestation)
    case LowerAttestation(m) => VoteObject(m.attestation)
    case RandaoReveal(m) => EpochObject(m.epoch)
    case LowerRandaoReveal(m) => EpochObject(m.epoch)
    case AggregateAndProofMsg(m) => AggregateObject(m.aggregateAndProof)
    case LowerAggregateAndProof(m) => AggregateObject(m.aggregateAndProof)
    case AggregationSlot(m) => SlotObject(m.slot)
    case LowerAggregationSlot(m) => SlotObject(m.slot)
    case Deposit(m) => DepositObject(m.deposit)
    case LowerDeposit(m) => DepositObject(m.deposit)
    case VoluntaryExitMsg(m) => ExitObject(m.voluntaryExit)
    case LowerVoluntaryExit(m) => ExitObject(m.voluntaryExit)
    case SyncCommitteeMessage(m) => RootObject(m.beaconBlockRoot)
    case LowerSyncCommitteeMessage(m) => RootObject(m.beaconBlockRoot)
    case SyncCommitteeSelectionProof(m) => SelectionObject(m.selectionData)
    case LowerSyncCommitteeSelectionProof(m) => SelectionObject(m.selectionData)
    case SyncCommitteeContributionAndProof(m) => ContributionObject(m.contributionAndProof)
    case LowerSyncCommitteeContributionAndProof(m) => ContributionObject(m.contributionAndProof)
    case ValidatorRegistrationMsg(m) => RegistrationObject(m.registration)
    case LowerValidatorRegistration(m) => RegistrationObject(m.registration)
  }

  lemma SummaryIsObject(h: Hash, msg: BLSSignMsg, g: Option<Version>)
    ensures SummaryOf(h, msg, g) == ObjectOf(h, msg).ToTree()
  {
    hide Container, GetDomain, DomainFor, UintTree, BytesTree, DutyOf;
  }

  // ---------------------------------------------------------------- trees determine objects

  /** Trees of one shape, and equal only if `same` holds. */
  predicate Distinguish(a: Tree, b: Tree, same: bool) {
    SameShape(a, b) && (a == b ==> same)
  }

  lemma ContainerTrees(f: seq<Tree>, g: seq<Tree>)
    requires SameShapes(f, g)
    ensures Distinguish(Container(f), Container(g), f == g)
  {
    PackSameShape(f, g, Depth(|f|));
    if Container(f) == Container(g) {
      ContainerInjective(f, g);
    }
  }

  lemma AggregateTrees(a: Aggregate, b: Aggregate)
    ensures Distinguish(a.ToTree(), b.ToTree(), a == b)
  {
    hide Container, AttestationData.ToTree, BytesTree;
    AttestationTrees(a.data, b.data);
    BytesTreeInjective(a.signature, b.signature);
    var f := [Leaf(a.aggregationBitsRoot), a.data.ToTree(), BytesTree(a.signature)];
    var g := [Leaf(b.aggregationBitsRoot), b.data.ToTree(), BytesTree(b.signature)];
    ContainerTrees(f, g);
    assert f == g ==> f[0] == g[0] && f[1] == g[1] && f[2] == g[2];
  }

  lemma AggregateAndProofTrees(a: AggregateAndProof, b: AggregateAndProof)
    ensures Distinguish(a.ToTree(), b.ToTree(), a == b)
  {
    hide Container, Aggregate.ToTree, BytesTree, UintTree;
    UintTrees(a.aggregatorIndex, b.aggregatorIndex);
    AggregateTrees(a.aggregate, b.aggregate);
    BytesTreeInjective(a.selectionProof, b.selectionProof);
    var f := [UintTree(a.aggregatorIndex), a.aggregate.ToTree(), BytesTree(a.selectionProof)];
    var g := [UintTree(b.aggregatorIndex), b.aggregate.ToTree(), BytesTree(b.selectionProof)];
    ContainerTrees(f, g);
    assert f == g ==> f[0] == g[0] && f[1] == g[1] && f[2] == g[2];
  }

  lemma DepositMessageTrees(a: DepositMessage, b: DepositMessage)
    ensures Distinguish(a.ToTree(), b.ToTree(), a == b)
  {
    hide Container, BytesTree, UintTree;
    UintTrees(a.amount, b.amount);
    BytesTreeInjective(a.pubkey, b.pubkey);
    var f := [BytesTree(a.pubkey), Leaf(a.withdrawalCredentials), UintTree(a.amount)];
    var g := [BytesTree(b.pubkey), Leaf(b.withdrawalCredentials), UintTree(b.amount)];
    ContainerTrees(f, g);
    assert f == g ==> f[0] == g[0] && f[1] == g[1] && f[2] == g[2];
  }

  lemma VoluntaryExitTrees(a: VoluntaryExit, b: VoluntaryExit)
    ensures Distinguish(a.ToTree(), b.ToTree(), a == b)
  {
    hide Container, UintTree;
    UintTrees(a.epoch, b.epoch);
    UintTrees(a.validatorIndex, b.validatorIndex);
    var f := [UintTree(a.epoch), UintTree(a.validatorIndex)];
    var g := [UintTree(b.epoch), UintTree(b.validatorIndex)];
    ContainerTrees(f, g);
    assert f == g ==> f[0] == g[0] && f[1] == g[1];
  }

  lemma SelectionDataTrees(a: SyncAggregatorSelectionData, b: SyncAggregatorSelectionData)
    ensures Distinguish(a.ToTree(), b.ToTree(), a == b)
  {
    hide Container, UintTree;
    UintTrees(a.slot, b.slot);
    UintTrees(a.subcommitteeIndex, b.subcommitteeIndex);
    var f := [UintTree(a.slot), UintTree(a.subcommitteeIndex)];
    var g := [UintTree(b.slot), UintTree(b.subcommitteeIndex)];
    ContainerTrees(f, g);
    assert f == g ==> f[0] == g[0] && f[1] == g[1];
  }

  lemma ContributionTrees(a: SyncCommitteeContribution, b: SyncCommitteeContribution)
    ensures Distinguish(a.ToTree(), b.ToTree(), a == b)
  {
    hide Container, BytesTree, UintTree;
    UintTrees(a.slot, b.slot);
    UintTrees(a.subcommitteeIndex, b.subcommitteeIndex);
    BytesTreeInjective(a.aggregationBits, b.aggregationBits);
    BytesTreeInjective(a.signature, b.signature);
    var f := [UintTree(a.slot), Leaf(a.beaconBlockRoot), UintTree(a.subcommitteeIndex),
              BytesTree(a.aggregationBits), BytesTree(a.signature)];
    var g := [UintTree(b.slot), Leaf(b.beaconBlockRoot), UintTree(b.subcommitteeIndex),
              BytesTree(b.aggregationBits), BytesTree(b.signature)];
    ContainerTrees(f, g);
    assert f == g ==> f[0] == g[0] && f[1] == g[1] && f[2] == g[2] && f[3] == g[3] && f[4] == g[4];
  }

  lemma ContributionAndProofTrees(a: ContributionAndProof, b: ContributionAndProof)
    ensures Distinguish(a.ToTree(), b.ToTree(), a == b)
  {
    hide Container, SyncCommitteeContribution.ToTree, BytesTree, UintTree;
    UintTrees(a.aggregatorIndex, b.aggregatorIndex);
    ContributionTrees(a.contribution, b.contribution);
    BytesTreeInjective(a.selectionProof, b.selectionProof);
    var f := [UintTree(a.aggregatorIndex), a.contribution.ToTree(), BytesTree(a.selectionProof)];
    var g := [UintTree(b.aggregatorIndex), b.contribution.ToTree(), BytesTree(b.selectionProof)];
    ContainerTrees(f, g);
    assert f == g ==> f[0] == g[0] && f[1] == g[1] && f[2] == g[2];
  }

  lemma RegistrationTrees(a: ValidatorRegistration, b: ValidatorRegistration)
    ensures Distinguish(a.ToTree(), b.ToTree(), a == b)
  {
    hide Container, BytesTree, UintTree;
    UintTrees(a.gasLimit, b.gasLimit);
    UintTrees(a.timestamp, b.timestamp);
    BytesTreeInjective(a.feeRecipient, b.feeRecipient);
    BytesTreeInjective(a.pubkey, b.pubkey);
    var f := [BytesTree(a.feeRecipient), UintTree(a.gasLimit), UintTree(a.timestamp), BytesTree(a.pubkey)];
    var g := [BytesTree(b.feeRecipient), UintTree(b.gasLimit), UintTree(b.timestamp), BytesTree(b.pubkey)];
    ContainerTrees(f, g);
    assert f == g ==> f[0] == g[0] && f[1] == g[1] && f[2] == g[2] && f[3] == g[3];
  }

  /** Under one duty, different objects have different trees of one shape. */
  lemma ObjectTrees(duty: Duty, x: SignedObject, y: SignedObject)
    requires x.IsFor(duty) && y.IsFor(duty)
    ensures Distinguish(x.ToTree(), y.ToTree(), x == y)
  {
    hide Container, UintTree, BytesTree, BeaconBlockHeader.ToTree, AttestationData.ToTree, AggregateAndProof.ToTree;
    hide DepositMessage.ToTree, VoluntaryExit.ToTree, SyncAggregatorSelectionData.ToTree;
    hide ContributionAndProof.ToTree, ValidatorRegistration.ToTree;
    match duty
    case Propose => HeaderTrees(x.header, y.header);
    case Attest => AttestationTrees(x.data, y.data);
    case RevealRandao => UintTrees(x.epoch, y.epoch);
    case AggregateProof => AggregateAndProofTrees(x.aggregate, y.aggregate);
    case SelectAggregator => UintTrees(x.slot, y.slot);
    case MakeDeposit => DepositMessageTrees(x.deposit, y.deposit);
    case Exit => VoluntaryExitTrees(x.exit, y.exit);
    case SyncMessage =>
    case SelectSyncAggregator => SelectionDataTrees(x.selection, y.selection);
    case SyncContribution => ContributionAndProofTrees(x.contribution, y.contribution);
    case RegisterValidator => RegistrationTrees(x.registration, y.registration);
  }

  // ---------------------------------------------------------------- signing roots determine requests

  /** Two requests of any kinds with one signing root are for one duty, under one domain, and for one object. */
  lemma EqualRootsMeanEqualObjects(h: Hash, a: BLSSignMsg, ga: Option<Version>, b: BLSSignMsg, gb: Option<Version>,
                                   inputs: set<(Bytes32, Bytes32)>)
    requires ToSigningRoot(h, a, ga) == ToSigningRoot(h, b, gb)
    requires HashedFor(h, a, ga) <= inputs && HashedFor(h, b, gb) <= inputs && CollisionFree(h, inputs)
    ensures DutyOf(a) == DutyOf(b) && ObjectOf(h, a) == ObjectOf(h, b)
    ensures SignableOf(h, a, ga).domain == SignableOf(h, b, gb).domain
  {
    hide SummaryOf, SignableOf, DutyOf, DomainTypeOf, ToSigningRoot, ObjectOf, SignedObject.ToTree, SignedObject.IsFor;
    var x, y := SummaryOf(h, a, ga), SummaryOf(h, b, gb);
    var p, q := (HashTreeRoot(h, x), SignableOf(h, a, ga).domain), (HashTreeRoot(h, y), SignableOf(h, b, gb).domain);
    SummaryHasTheRoot(h, a, ga);
    SummaryHasTheRoot(h, b, gb);
    assert p in HashedFor(h, a, ga) && q in HashedFor(h, b, gb);
    assert p == q;
    DomainCarriesDuty(h, a, ga);
    DomainCarriesDuty(h, b, gb);
    DomainTypesDistinct(DutyOf(a), DutyOf(b));
    SummaryIsObject(h, a, ga);
    SummaryIsObject(h, b, gb);
    ObjectTrees(DutyOf(a), ObjectOf(h, a), ObjectOf(h, b));
    assert HashInputs(h, x) <= inputs && HashInputs(h, y) <= inputs;
    RootBindsTree(h, x, y, inputs);
  }
}
