/** The objects a validator signs, and the requests that carry them. */
module SigningMessages {
  import opened Bytes
  import opened Ssz

  type Slot = uint64
  type Epoch = uint64
  type Version = Bytes4
  type DomainType = Bytes4
  type Domain = Bytes32

  const DOMAIN_BEACON_PROPOSER: DomainType := [0, 0, 0, 0]
  const DOMAIN_BEACON_ATTESTER: DomainType := [1, 0, 0, 0]
  const DOMAIN_RANDAO: DomainType := [2, 0, 0, 0]
  const DOMAIN_DEPOSIT: DomainType := [3, 0, 0, 0]
  const DOMAIN_VOLUNTARY_EXIT: DomainType := [4, 0, 0, 0]
  const DOMAIN_SELECTION_PROOF: DomainType := [5, 0, 0, 0]
  const DOMAIN_AGGREGATE_AND_PROOF: DomainType := [6, 0, 0, 0]
  const DOMAIN_SYNC_COMMITTEE: DomainType := [7, 0, 0, 0]
  const DOMAIN_SYNC_COMMITTEE_SELECTION_PROOF: DomainType := [8, 0, 0, 0]
  const DOMAIN_CONTRIBUTION_AND_PROOF: DomainType := [9, 0, 0, 0]
  const DOMAIN_APPLICATION_BUILDER: DomainType := [0, 0, 0, 1]

  const GENESIS_FORK_VERSION: Version := [0, 0, 0, 0]
  const SLOTS_PER_EPOCH := 32
  const FULL_DEPOSIT_AMOUNT: uint64 := 32_000_000_000

  datatype Fork = Fork(previousVersion: Version, currentVersion: Version, epoch: Epoch)
  datatype ForkInfo = ForkInfo(fork: Fork, genesisValidatorsRoot: Root)

  // ---------------------------------------------------------------- signed objects

  datatype Checkpoint = Checkpoint(epoch: Epoch, root: Root) {
    function ToTree(): Tree {
      Container([UintTree(epoch), Leaf(root)])
    }
  }

  datatype AttestationData = AttestationData(
    slot: Slot, index: uint64, beaconBlockRoot: Root, source: Checkpoint, target: Checkpoint)
  {
    function ToTree(): Tree {
      Container([UintTree(slot), UintTree(index), Leaf(beaconBlockRoot), source.ToTree(), target.ToTree()])
    }
  }

  datatype BeaconBlockHeader = BeaconBlockHeader(
    slot: Slot, proposerIndex: uint64, parentRoot: Root, stateRoot: Root, bodyRoot: Root)
  {
    function ToTree(): Tree {
      Container([UintTree(slot), UintTree(proposerIndex), Leaf(parentRoot), Leaf(stateRoot), Leaf(bodyRoot)])
    }
  }

  /** A full block.  Its body is an arbitrary tree: which objects make up the body does not matter to
      the signer. */
  datatype BeaconBlock = BeaconBlock(
    slot: Slot, proposerIndex: uint64, parentRoot: Root, stateRoot: Root, body: Tree)
  {
    function ToTree(): Tree {
      Container([UintTree(slot), UintTree(proposerIndex), Leaf(parentRoot), Leaf(stateRoot), body])
    }

    /** The header that summarizes this block. */
    function Header(h: Hash): BeaconBlockHeader {
      BeaconBlockHeader(slot, proposerIndex, parentRoot, stateRoot, HashTreeRoot(h, body))
    }
  }

  /** An aggregate; its bit list is represented by the root of that list. */
  datatype Aggregate = Aggregate(aggregationBitsRoot: Root, data: AttestationData, signature: Bytes96) {
    function ToTree(): Tree {
      Container([Leaf(aggregationBitsRoot), data.ToTree(), BytesTree(signature)])
    }
  }

  datatype AggregateAndProof = AggregateAndProof(
    aggregatorIndex: uint64, aggregate: Aggregate, selectionProof: Bytes96)
  {
    function ToTree(): Tree {
      Container([UintTree(aggregatorIndex), aggregate.ToTree(), BytesTree(selectionProof)])
    }
  }

  datatype DepositMessage = DepositMessage(pubkey: Bytes48, withdrawalCredentials: Bytes32, amount: uint64) {
    function ToTree(): Tree {
      Container([BytesTree(pubkey), Leaf(withdrawalCredentials), UintTree(amount)])
    }
  }

  datatype DepositData = DepositData(
    pubkey: Bytes48, withdrawalCredentials: Bytes32, amount: uint64, signature: Bytes96)
  {
    function ToTree(): Tree {
      Container([BytesTree(pubkey), Leaf(withdrawalCredentials), UintTree(amount), BytesTree(signature)])
    }
  }

  datatype VoluntaryExit = VoluntaryExit(epoch: Epoch, validatorIndex: uint64) {
    function ToTree(): Tree {
      Container([UintTree(epoch), UintTree(validatorIndex)])
    }
  }

  datatype SyncAggregatorSelectionData = SyncAggregatorSelectionData(slot: Slot, subcommitteeIndex: uint64) {
    function ToTree(): Tree {
      Container([UintTree(slot), UintTree(subcommitteeIndex)])
    }
  }

  datatype SyncCommitteeContribution = SyncCommitteeContribution(
    slot: Slot, beaconBlockRoot: Root, subcommitteeIndex: uint64, aggregationBits: Bytes16, signature: Bytes96)
  {
    function ToTree(): Tree {
      Container([UintTree(slot), Leaf(beaconBlockRoot), UintTree(subcommitteeIndex),
                 BytesTree(aggregationBits), BytesTree(signature)])
    }
  }

  datatype ContributionAndProof = ContributionAndProof(
    aggregatorIndex: uint64, contribution: SyncCommitteeContribution, selectionProof: Bytes96)
  {
    function ToTree(): Tree {
      Container([UintTree(aggregatorIndex), contribution.ToTree(), BytesTree(selectionProof)])
    }
  }

  datatype ValidatorRegistration = ValidatorRegistration(
    feeRecipient: Bytes20, gasLimit: uint64, timestamp: uint64, pubkey: Bytes48)
  {
    function ToTree(): Tree {
      Container([BytesTree(feeRecipient), UintTree(gasLimit), UintTree(timestamp), BytesTree(pubkey)])
    }
  }

  // ---------------------------------------------------------------- requests

  datatype BlockRequest = BlockRequest(forkInfo: ForkInfo, block: BeaconBlock)
  datatype BlockV2Request = BlockV2Request(forkInfo: ForkInfo, version: string, blockHeader: BeaconBlockHeader)
  datatype AttestationRequest = AttestationRequest(forkInfo: ForkInfo, attestation: AttestationData)
  datatype RandaoRevealRequest = RandaoRevealRequest(forkInfo: ForkInfo, epoch: Epoch)
  datatype AggregateAndProofRequest =
    AggregateAndProofRequest(forkInfo: ForkInfo, aggregateAndProof: AggregateAndProof)
  datatype AggregationSlotRequest = AggregationSlotRequest(forkInfo: ForkInfo, slot: Slot)
  datatype DepositRequest = DepositRequest(deposit: DepositMessage, genesisForkVersion: Version)
  datatype VoluntaryExitRequest = VoluntaryExitRequest(forkInfo: ForkInfo, voluntaryExit: VoluntaryExit)
  datatype SyncCommitteeMessageRequest =
    SyncCommitteeMessageRequest(forkInfo: ForkInfo, slot: Slot, beaconBlockRoot: Root)
  datatype SyncCommitteeSelectionProofRequest =
    SyncCommitteeSelectionProofRequest(forkInfo: ForkInfo, selectionData: SyncAggregatorSelectionData)
  datatype ContributionAndProofRequest =
    ContributionAndProofRequest(forkInfo: ForkInfo, contributionAndProof: ContributionAndProof)
  datatype ValidatorRegistrationRequest = ValidatorRegistrationRequest(registration: ValidatorRegistration)

  /** A signing request.  Each kind has an upper-case and a lower-case tag on the wire; the two are
      distinct variants. */
  datatype BLSSignMsg =
    | Block(upperBlock: BlockRequest)
    | BlockV2(upperBlockV2: BlockV2Request)
    | Attestation(upperAttestation: AttestationRequest)
    | RandaoReveal(upperRandao: RandaoRevealRequest)
    | AggregateAndProofMsg(upperAggregateAndProof: AggregateAndProofRequest)
    | AggregationSlot(upperAggregationSlot: AggregationSlotRequest)
    | Deposit(upperDeposit: DepositRequest)
    | VoluntaryExitMsg(upperExit: VoluntaryExitRequest)
    | SyncCommitteeMessage(upperSyncMessage: SyncCommitteeMessageRequest)
    | SyncCommitteeSelectionProof(upperSelectionProof: SyncCommitteeSelectionProofRequest)
    | SyncCommitteeContributionAndProof(upperContribution: ContributionAndProofRequest)
    | ValidatorRegistrationMsg(upperRegistration: ValidatorRegistrationRequest)
    | LowerBlock(lowerBlock: BlockRequest)
    | LowerBlockV2(lowerBlockV2: BlockV2Request)
    | LowerAttestation(lowerAttestation: AttestationRequest)
    | LowerRandaoReveal(lowerRandao: RandaoRevealRequest)
    | LowerAggregateAndProof(lowerAggregateAndProof: AggregateAndProofRequest)
    | LowerAggregationSlot(lowerAggregationSlot: AggregationSlotRequest)
    | LowerDeposit(lowerDeposit: DepositRequest)
    | LowerVoluntaryExit(lowerExit: VoluntaryExitRequest)
    | LowerSyncCommitteeMessage(lowerSyncMessage: SyncCommitteeMessageRequest)
    | LowerSyncCommitteeSelectionProof(lowerSelectionProof: SyncCommitteeSelectionProofRequest)
    | LowerSyncCommitteeContributionAndProof(lowerContribution: ContributionAndProofRequest)
    | LowerValidatorRegistration(lowerRegistration: ValidatorRegistrationRequest)
}
