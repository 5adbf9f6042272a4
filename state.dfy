/**
 * The beacon state as the processors see it: one mutable object whose fields
 * the per-block and per-epoch processors update in place. Only the fields that
 * the modelled processors read or write are kept.
 */
module State {
  import opened Common

  /** Width of the justification bitfield (JUSTIFICATION_BITS_LENGTH). */
  const JUSTIFICATION_BITS_LENGTH: nat := 4

  datatype Validator = Validator(
    pubkey: seq<bv8>,
    effectiveBalance: Gwei,
    slashed: bool,
    activationEligibilityEpoch: Epoch,
    activationEpoch: Epoch,
    exitEpoch: Epoch,
    withdrawableEpoch: Epoch)

  datatype AttestationData = AttestationData(
    slot: Slot,
    index: CommitteeIndex,
    beaconBlockRoot: Root,
    source: Checkpoint,
    target: Checkpoint)

  /** An attestation recorded in the state until the epoch is processed (phase0). */
  datatype PendingAttestation = PendingAttestation(
    aggregationBits: seq<bool>,
    data: AttestationData,
    inclusionDelay: nat,
    proposerIndex: ValidatorIndex)

  class BeaconState {
    var slot: Slot
    var previousJustifiedCheckpoint: Checkpoint
    var currentJustifiedCheckpoint: Checkpoint
    var finalizedCheckpoint: Checkpoint
    /** Index 0 is the most recent epoch. */
    var justificationBits: array<bool>
    var previousEpochAttestations: seq<PendingAttestation>
    var currentEpochAttestations: seq<PendingAttestation>
    var validators: seq<Validator>
    var balances: seq<Gwei>
    /** Validator indices of the current and next sync committees (altair). */
    var currentSyncCommitteeIndices: seq<ValidatorIndex>
    var nextSyncCommitteeIndices: seq<ValidatorIndex>

    /** One balance per validator, and a justification bitfield of fixed width. */
    ghost predicate Valid()
      reads this, justificationBits
    {
      && justificationBits.Length == JUSTIFICATION_BITS_LENGTH
      && |balances| == |validators|
    }

    constructor (slot: Slot, validators: seq<Validator>, balances: seq<Gwei>,
                 currentSyncCommittee: seq<ValidatorIndex>, nextSyncCommittee: seq<ValidatorIndex>)
      requires |balances| == |validators|
      ensures Valid() && fresh(justificationBits)
      ensures this.slot == slot && this.validators == validators && this.balances == balances
      ensures justificationBits[..] == [false, false, false, false]
      ensures previousJustifiedCheckpoint == currentJustifiedCheckpoint == finalizedCheckpoint == Checkpoint(GENESIS_EPOCH, [])
      ensures previousEpochAttestations == currentEpochAttestations == []
      ensures currentSyncCommitteeIndices == currentSyncCommittee && nextSyncCommitteeIndices == nextSyncCommittee
    {
      this.slot := slot;
      this.validators := validators;
      this.balances := balances;
      previousJustifiedCheckpoint := Checkpoint(GENESIS_EPOCH, []);
      currentJustifiedCheckpoint := Checkpoint(GENESIS_EPOCH, []);
      finalizedCheckpoint := Checkpoint(GENESIS_EPOCH, []);
      justificationBits := new bool[JUSTIFICATION_BITS_LENGTH](_ => false);
      previousEpochAttestations := [];
      currentEpochAttestations := [];
      currentSyncCommitteeIndices := currentSyncCommittee;
      nextSyncCommitteeIndices := nextSyncCommittee;
    }

    /** Adds `delta` to one validator's balance (increaseBalance). */
    method IncreaseBalance(index: ValidatorIndex, delta: Gwei)
      requires index < |balances|
      modifies this`balances
      ensures balances == old(balances)[index := old(balances[index]) + delta]
    {
      balances := balances[index := balances[index] + delta];
    }

    /**
     * Moves the next sync committee into the current one and installs
     * `derivedNext`, the committee derived from the active validators and the
     * seed (rotateSyncCommittee).
     */
    method RotateSyncCommittee(derivedNext: seq<ValidatorIndex>)
      modifies this`currentSyncCommitteeIndices, this`nextSyncCommitteeIndices
      ensures currentSyncCommitteeIndices == old(nextSyncCommitteeIndices)
      ensures nextSyncCommitteeIndices == derivedNext
    {
      currentSyncCommitteeIndices := nextSyncCommitteeIndices;
      nextSyncCommitteeIndices := derivedNext;
    }
  }
}
