/**
 * Epoch processing, justification and finalization (phase0): the
 * justification bitfield moves one epoch toward the past, the previous and the
 * current epoch are justified when a two-thirds supermajority of the active
 * balance attested to their target, and four bit-pattern rules, applied in a
 * fixed order, may finalize the old previous- or current-justified checkpoint.
 */
module Justification {
  import opened Common
  import opened State

  /** The four fields of the state this processor reads and writes. */
  datatype JustificationState = JustificationState(
    previousJustified: Checkpoint,
    currentJustified: Checkpoint,
    finalized: Checkpoint,
    bits: seq<bool>)

  /**
   * What the processor asks of the rest of the state: the total active
   * balance, the balance of the validators whose matching-target attestations
   * are recorded for the previous and the current epoch, and the block roots
   * at the start of those two epochs.
   */
  datatype EpochVotes = EpochVotes(
    totalActiveBalance: Gwei,
    previousTargetBalance: Gwei,
    currentTargetBalance: Gwei,
    previousEpochRoot: Root,
    currentEpochRoot: Root)

  /** The justification fields of `state`. */
  function Snapshot(state: BeaconState): JustificationState
    reads state, state.justificationBits
  {
    JustificationState(state.previousJustifiedCheckpoint, state.currentJustifiedCheckpoint,
                       state.finalizedCheckpoint, state.justificationBits[..])
  }

  /** At least two thirds of the total balance attested. */
  predicate IsSupermajority(attesting: Gwei, total: Gwei) {
    attesting * 3 >= total * 2
  }

  /**
   * The bitfield after the epoch: bit 0 records whether the current epoch is
   * justified, bit 1 the old bit 0 or a fresh justification of the previous
   * epoch, and every older bit moves up one place, the oldest falling off.
   */
  function RotatedBits(bits: seq<bool>, previousJustified: bool, currentJustified: bool): (r: seq<bool>)
    requires |bits| >= 2
    ensures |r| == |bits|
  {
    [currentJustified, bits[0] || previousJustified] + bits[1..|bits| - 1]
  }

  /** Rule 1: epochs 2, 3 and 4 back are justified, the 2nd using the 4th as source. */
  predicate Rule1(bits: seq<bool>, oldPrevious: Checkpoint, currentEpoch: Epoch)
    requires |bits| == JUSTIFICATION_BITS_LENGTH
  {
    bits[1] && bits[2] && bits[3] && oldPrevious.epoch + 3 == currentEpoch
  }

  /** Rule 2: epochs 2 and 3 back are justified, the 2nd using the 3rd as source. */
  predicate Rule2(bits: seq<bool>, oldPrevious: Checkpoint, currentEpoch: Epoch)
    requires |bits| == JUSTIFICATION_BITS_LENGTH
  {
    bits[1] && bits[2] && oldPrevious.epoch + 2 == currentEpoch
  }

  /** Rule 3: epochs 1, 2 and 3 back are justified, the 1st using the 3rd as source. */
  predicate Rule3(bits: seq<bool>, oldCurrent: Checkpoint, currentEpoch: Epoch)
    requires |bits| == JUSTIFICATION_BITS_LENGTH
  {
    bits[0] && bits[1] && bits[2] && oldCurrent.epoch + 2 == currentEpoch
  }

  /** Rule 4: epochs 1 and 2 back are justified, the 1st using the 2nd as source. */
  predicate Rule4(bits: seq<bool>, oldCurrent: Checkpoint, currentEpoch: Epoch)
    requires |bits| == JUSTIFICATION_BITS_LENGTH
  {
    bits[0] && bits[1] && oldCurrent.epoch + 1 == currentEpoch
  }

  /**
   * The finalized checkpoint chosen by the rules, stated by priority: the
   * rule that runs last wins, so a rule about the old current-justified
   * checkpoint (3, 4) beats one about the old previous-justified one (1, 2).
   */
  function Finalized(bits: seq<bool>, finalized: Checkpoint, oldPrevious: Checkpoint,
                     oldCurrent: Checkpoint, currentEpoch: Epoch): (r: Checkpoint)
    requires |bits| == JUSTIFICATION_BITS_LENGTH
    ensures r == finalized || r == oldPrevious || r == oldCurrent
  {
    if Rule4(bits, oldCurrent, currentEpoch) || Rule3(bits, oldCurrent, currentEpoch) then oldCurrent
    else if Rule2(bits, oldPrevious, currentEpoch) || Rule1(bits, oldPrevious, currentEpoch) then oldPrevious
    else finalized
  }

  /**
   * The justification fields after epoch processing at `currentEpoch`.
   * The first two epochs after genesis leave them untouched.
   */
  function JustificationAndFinalization(j: JustificationState, currentEpoch: Epoch, votes: EpochVotes): (r: JustificationState)
    requires |j.bits| == JUSTIFICATION_BITS_LENGTH
    ensures |r.bits| == |j.bits|
    ensures r.finalized == j.finalized || r.finalized == j.previousJustified || r.finalized == j.currentJustified
  {
    if currentEpoch <= GENESIS_EPOCH + 1 then j
    else
      var previousOk := IsSupermajority(votes.previousTargetBalance, votes.totalActiveBalance);
      var currentOk := IsSupermajority(votes.currentTargetBalance, votes.totalActiveBalance);
      var bits := RotatedBits(j.bits, previousOk, currentOk);
      var justified :=
        if currentOk then Checkpoint(currentEpoch, votes.currentEpochRoot)
        else if previousOk then Checkpoint(currentEpoch - 1, votes.previousEpochRoot)
        else j.currentJustified;
      JustificationState(j.currentJustified, justified,
                         Finalized(bits, j.finalized, j.previousJustified, j.currentJustified, currentEpoch), bits)
  }

  /** Moves every bit one place toward the past, dropping the oldest and clearing bit 0. */
  method ShiftBits(bits: array<bool>)
    requires bits.Length >= 1
    modifies bits
    ensures bits[..] == [false] + old(bits[..])[..bits.Length - 1]
  {
    ghost var oldBits := bits[..];
    var i := bits.Length - 1;
    while i >= 1
      invariant 0 <= i < bits.Length
      invariant forall k :: 0 <= k <= i ==> bits[k] == oldBits[k]
      invariant forall k :: i < k < bits.Length ==> bits[k] == oldBits[k - 1]
    {
      bits[i] := bits[i - 1];
      i := i - 1;
    }
    bits[0] := false;
  }

  /**
   * processJustificationAndFinalization: rotates the bitfield in place,
   * justifies, then applies the four finalization rules one after the other.
   */
  method ProcessJustificationAndFinalization(cfg: Config, state: BeaconState, votes: EpochVotes)
    requires state.Valid()
    modifies state`previousJustifiedCheckpoint, state`currentJustifiedCheckpoint,
             state`finalizedCheckpoint, state.justificationBits
    ensures state.Valid()
    ensures Snapshot(state) ==
            JustificationAndFinalization(old(Snapshot(state)), ComputeEpochAtSlot(cfg, state.slot), votes)
  {
    var currentEpoch := ComputeEpochAtSlot(cfg, state.slot);
    if currentEpoch <= GENESIS_EPOCH + 1 {
      return;
    }
    var previousEpoch := currentEpoch - 1;
    var oldPreviousJustified := state.previousJustifiedCheckpoint;
    var oldCurrentJustified := state.currentJustifiedCheckpoint;
    var bits := state.justificationBits;
    ghost var oldBits := bits[..];

    state.previousJustifiedCheckpoint := state.currentJustifiedCheckpoint;
    ShiftBits(bits);

    var previousOk := IsSupermajority(votes.previousTargetBalance, votes.totalActiveBalance);
    if previousOk {
      state.currentJustifiedCheckpoint := Checkpoint(previousEpoch, votes.previousEpochRoot);
      bits[1] := true;
    }
    var currentOk := IsSupermajority(votes.currentTargetBalance, votes.totalActiveBalance);
    if currentOk {
      state.currentJustifiedCheckpoint := Checkpoint(currentEpoch, votes.currentEpochRoot);
      bits[0] := true;
    }
    assert bits[..] == RotatedBits(oldBits, previousOk, currentOk);
    assert state.currentJustifiedCheckpoint ==
           if currentOk then Checkpoint(currentEpoch, votes.currentEpochRoot)
           else if previousOk then Checkpoint(previousEpoch, votes.previousEpochRoot)
           else oldCurrentJustified;

    ApplyFinalizationRules(state, bits, oldPreviousJustified, oldCurrentJustified, currentEpoch);
  }

  /** The four finalization rules, in the order the source applies them; a later match overwrites. */
  method ApplyFinalizationRules(state: BeaconState, bits: array<bool>, oldPreviousJustified: Checkpoint,
                                oldCurrentJustified: Checkpoint, currentEpoch: Epoch)
    requires bits.Length == JUSTIFICATION_BITS_LENGTH
    modifies state`finalizedCheckpoint
    ensures state.finalizedCheckpoint ==
            Finalized(bits[..], old(state.finalizedCheckpoint), oldPreviousJustified, oldCurrentJustified, currentEpoch)
  {
    if bits[1] && bits[2] && bits[3] && oldPreviousJustified.epoch + 3 == currentEpoch {
      state.finalizedCheckpoint := oldPreviousJustified;
    }
    if bits[1] && bits[2] && oldPreviousJustified.epoch + 2 == currentEpoch {
      state.finalizedCheckpoint := oldPreviousJustified;
    }
    if bits[0] && bits[1] && bits[2] && oldCurrentJustified.epoch + 2 == currentEpoch {
      state.finalizedCheckpoint := oldCurrentJustified;
    }
    if bits[0] && bits[1] && oldCurrentJustified.epoch + 1 == currentEpoch {
      state.finalizedCheckpoint := oldCurrentJustified;
    }
  }

  // Properties of the transition.

  /** In the genesis epoch and the one after it nothing changes. */
  lemma EarlyEpochsUnchanged(j: JustificationState, currentEpoch: Epoch, votes: EpochVotes)
    requires |j.bits| == JUSTIFICATION_BITS_LENGTH
    requires currentEpoch <= GENESIS_EPOCH + 1
    ensures JustificationAndFinalization(j, currentEpoch, votes) == j
  {
  }

  /**
   * Afterwards the previous-justified checkpoint is the old current-justified
   * one, the bitfield keeps its width, and every bit from 2 on is the old bit
   * one place younger, so the oldest bit is dropped.
   */
  lemma BitsShiftTowardThePast(j: JustificationState, currentEpoch: Epoch, votes: EpochVotes)
    requires |j.bits| == JUSTIFICATION_BITS_LENGTH
    requires currentEpoch > GENESIS_EPOCH + 1
    ensures var r := JustificationAndFinalization(j, currentEpoch, votes);
            && r.previousJustified == j.currentJustified
            && |r.bits| == |j.bits|
            && forall i :: 2 <= i < |r.bits| ==> r.bits[i] == j.bits[i - 1]
  {
  }

  /**
   * Bit 1 is the old bit 0 or a supermajority for the previous epoch's
   * target; such a supermajority, without one for the current epoch, makes
   * (previous epoch, its root) the current-justified checkpoint.
   */
  lemma PreviousEpochJustification(j: JustificationState, currentEpoch: Epoch, votes: EpochVotes)
    requires |j.bits| == JUSTIFICATION_BITS_LENGTH
    requires currentEpoch > GENESIS_EPOCH + 1
    ensures var r := JustificationAndFinalization(j, currentEpoch, votes);
            var previousOk := votes.previousTargetBalance * 3 >= votes.totalActiveBalance * 2;
            var currentOk := votes.currentTargetBalance * 3 >= votes.totalActiveBalance * 2;
            && (r.bits[1] <==> j.bits[0] || previousOk)
            && (previousOk && !currentOk ==> r.currentJustified == Checkpoint(currentEpoch - 1, votes.previousEpochRoot))
            && (!previousOk && !currentOk ==> r.currentJustified == j.currentJustified)
  {
  }

  /**
   * Bit 0 is set exactly when the current epoch's target has a supermajority,
   * and then (current epoch, its root) is the current-justified checkpoint,
   * overriding a justification of the previous epoch.
   */
  lemma CurrentEpochJustification(j: JustificationState, currentEpoch: Epoch, votes: EpochVotes)
    requires |j.bits| == JUSTIFICATION_BITS_LENGTH
    requires currentEpoch > GENESIS_EPOCH + 1
    ensures var r := JustificationAndFinalization(j, currentEpoch, votes);
            var currentOk := votes.currentTargetBalance * 3 >= votes.totalActiveBalance * 2;
            && (r.bits[0] <==> currentOk)
            && (currentOk ==> r.currentJustified == Checkpoint(currentEpoch, votes.currentEpochRoot))
  {
  }

  /** Rules 1 and 2 never fire together, nor do rules 3 and 4. */
  lemma RulePairsExclusive(bits: seq<bool>, oldPrevious: Checkpoint, oldCurrent: Checkpoint, currentEpoch: Epoch)
    requires |bits| == JUSTIFICATION_BITS_LENGTH
    ensures !(Rule1(bits, oldPrevious, currentEpoch) && Rule2(bits, oldPrevious, currentEpoch))
    ensures !(Rule3(bits, oldCurrent, currentEpoch) && Rule4(bits, oldCurrent, currentEpoch))
  {
  }

  /**
   * When rule 3 or 4 fires, the old current-justified checkpoint is
   * finalized, whatever rules 1 and 2 said; otherwise rule 1 or 2 finalizes
   * the old previous-justified checkpoint; with no rule firing the finalized
   * checkpoint stays.
   */
  lemma FinalizationRuleOrder(j: JustificationState, currentEpoch: Epoch, votes: EpochVotes)
    requires |j.bits| == JUSTIFICATION_BITS_LENGTH
    requires currentEpoch > GENESIS_EPOCH + 1
    ensures var r := JustificationAndFinalization(j, currentEpoch, votes);
            var late := Rule3(r.bits, j.currentJustified, currentEpoch) || Rule4(r.bits, j.currentJustified, currentEpoch);
            var early := Rule1(r.bits, j.previousJustified, currentEpoch) || Rule2(r.bits, j.previousJustified, currentEpoch);
            && (late ==> r.finalized == j.currentJustified)
            && (!late && early ==> r.finalized == j.previousJustified)
            && (!late && !early ==> r.finalized == j.finalized)
  {
  }

  /**
   * A finalized checkpoint that changed lies one, two or three epochs before
   * the current epoch.
   */
  lemma {:induction false} FinalizedEpochWindow(j: JustificationState, currentEpoch: Epoch, votes: EpochVotes)
    requires |j.bits| == JUSTIFICATION_BITS_LENGTH
    ensures var r := JustificationAndFinalization(j, currentEpoch, votes);
            r.finalized != j.finalized ==>
              r.finalized.epoch + 1 == currentEpoch || r.finalized.epoch + 2 == currentEpoch ||
              r.finalized.epoch + 3 == currentEpoch
  {
    var r := JustificationAndFinalization(j, currentEpoch, votes);
    if currentEpoch > GENESIS_EPOCH + 1 && r.finalized != j.finalized {
      FinalizationRuleOrder(j, currentEpoch, votes);
    }
  }
}
