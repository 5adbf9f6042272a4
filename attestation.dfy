/**
 * Block processing of phase0 attestations: the fail-fast validity checks that
 * admit an attestation into the state as a pending attestation, and the
 * per-validator participation and inclusion bookkeeping that the epoch
 * context keeps for reward processing.
 */
module Attestations {
  import opened Common
  import opened State

  datatype Attestation = Attestation(aggregationBits: seq<bool>, data: AttestationData, signature: Signature)

  /** Why an attestation was rejected, in the order the checks run. */
  datatype AttestationError =
    | CommitteeIndexOutOfRange(committeeIndex: CommitteeIndex, committeeCount: nat)
    | TargetEpochNotPreviousOrCurrent(targetEpoch: Epoch, currentEpoch: Epoch)
    | TargetEpochSlotMismatch(targetEpoch: Epoch, computedEpoch: Epoch)
    | NotInInclusionWindow(attestationSlot: Slot)
    | AggregationBitsLengthMismatch(bitsLength: nat, committeeLength: nat)
    | SourceNotJustified(source: Checkpoint, justified: Checkpoint)
    | InvalidIndexedAttestation

  /** The committee an attestation's data points at. */
  function Committee(ctx: EpochContext, data: AttestationData): seq<ValidatorIndex> {
    ctx.beaconCommittee(data.slot, data.index)
  }

  /** The validators whose aggregation bit is set (getAttestingIndices). */
  function AttestingIndices(ctx: EpochContext, data: AttestationData, bits: seq<bool>): (r: seq<ValidatorIndex>)
    ensures forall v :: v in r ==> v in Committee(ctx, data)
  {
    SelectByBits(Committee(ctx, data), bits)
  }

  /** The target epoch is the current epoch, so the current justified checkpoint and list apply. */
  predicate TargetsCurrentEpoch(ctx: EpochContext, data: AttestationData) {
    data.target.epoch == ctx.currentShufflingEpoch
  }

  /** The justified checkpoint the attestation's source must equal. */
  function ExpectedSource(ctx: EpochContext, data: AttestationData, currentJustified: Checkpoint,
                          previousJustified: Checkpoint): Checkpoint
  {
    if TargetsCurrentEpoch(ctx, data) then currentJustified else previousJustified
  }

  /**
   * The checks of processAttestation, in source order; the first failing one
   * names the error. `isValidIndexed` stands for building the indexed
   * attestation and isValidIndexedAttestation (signature checked only when
   * `verifySignature` holds).
   */
  function CheckAttestation(cfg: Config, ctx: EpochContext, slot: Slot, currentJustified: Checkpoint,
                            previousJustified: Checkpoint, att: Attestation, verifySignature: bool,
                            isValidIndexed: (Attestation, bool) -> bool): (r: Outcome<AttestationError>)
    ensures r.Pass? ==> att.data.slot + cfg.minAttestationInclusionDelay <= slot
  {
    var data := att.data;
    var committeeCount := ctx.committeeCountAtSlot(data.slot);
    if !(data.index < committeeCount) then
      Fail(CommitteeIndexOutOfRange(data.index, committeeCount))
    else if !(data.target.epoch == ctx.previousShufflingEpoch || data.target.epoch == ctx.currentShufflingEpoch) then
      Fail(TargetEpochNotPreviousOrCurrent(data.target.epoch, ctx.currentShufflingEpoch))
    else if data.target.epoch != ComputeEpochAtSlot(cfg, data.slot) then
      Fail(TargetEpochSlotMismatch(data.target.epoch, ComputeEpochAtSlot(cfg, data.slot)))
    else if !(data.slot + cfg.minAttestationInclusionDelay <= slot && slot <= data.slot + cfg.slotsPerEpoch) then
      Fail(NotInInclusionWindow(data.slot))
    else if |att.aggregationBits| != |Committee(ctx, data)| then
      Fail(AggregationBitsLengthMismatch(|att.aggregationBits|, |Committee(ctx, data)|))
    else if data.source != ExpectedSource(ctx, data, currentJustified, previousJustified) then
      Fail(SourceNotJustified(data.source, ExpectedSource(ctx, data, currentJustified, previousJustified)))
    else if !isValidIndexed(att, verifySignature) then
      Fail(InvalidIndexedAttestation)
    else
      Pass
  }

  /** Every condition an admitted attestation meets, stated at once. */
  predicate IsAdmissible(cfg: Config, ctx: EpochContext, slot: Slot, currentJustified: Checkpoint,
                         previousJustified: Checkpoint, att: Attestation, verifySignature: bool,
                         isValidIndexed: (Attestation, bool) -> bool)
  {
    var data := att.data;
    && data.index < ctx.committeeCountAtSlot(data.slot)
    && (data.target.epoch == ctx.previousShufflingEpoch || data.target.epoch == ctx.currentShufflingEpoch)
    && data.target.epoch == data.slot / cfg.slotsPerEpoch
    && data.slot + cfg.minAttestationInclusionDelay <= slot <= data.slot + cfg.slotsPerEpoch
    && |att.aggregationBits| == |ctx.beaconCommittee(data.slot, data.index)|
    && (data.target.epoch == ctx.currentShufflingEpoch ==> data.source == currentJustified)
    && (data.target.epoch != ctx.currentShufflingEpoch ==> data.source == previousJustified)
    && isValidIndexed(att, verifySignature)
  }

  /** The record processAttestation appends. */
  function PendingFor(ctx: EpochContext, slot: Slot, att: Attestation): (p: PendingAttestation)
    requires att.data.slot <= slot
    ensures p.inclusionDelay + att.data.slot == slot
  {
    PendingAttestation(att.aggregationBits, att.data, slot - att.data.slot, ctx.beaconProposer(slot))
  }

  /**
   * processAttestation: on success exactly one pending attestation is
   * appended to the list of the target's epoch; on failure nothing changes.
   */
  method ProcessAttestation(cfg: Config, ctx: EpochContext, state: BeaconState, att: Attestation,
                            verifySignature: bool, isValidIndexed: (Attestation, bool) -> bool)
    returns (r: Outcome<AttestationError>)
    requires state.Valid()
    modifies state`previousEpochAttestations, state`currentEpochAttestations
    ensures state.Valid()
    ensures r == CheckAttestation(cfg, ctx, state.slot, state.currentJustifiedCheckpoint,
                                  state.previousJustifiedCheckpoint, att, verifySignature, isValidIndexed)
    ensures r.Pass? && TargetsCurrentEpoch(ctx, att.data) ==>
              && state.currentEpochAttestations == old(state.currentEpochAttestations) + [PendingFor(ctx, state.slot, att)]
              && state.previousEpochAttestations == old(state.previousEpochAttestations)
    ensures r.Pass? && !TargetsCurrentEpoch(ctx, att.data) ==>
              && state.previousEpochAttestations == old(state.previousEpochAttestations) + [PendingFor(ctx, state.slot, att)]
              && state.currentEpochAttestations == old(state.currentEpochAttestations)
    ensures r.Fail? ==>
              && state.previousEpochAttestations == old(state.previousEpochAttestations)
              && state.currentEpochAttestations == old(state.currentEpochAttestations)
  {
    r := CheckAttestation(cfg, ctx, state.slot, state.currentJustifiedCheckpoint,
                          state.previousJustifiedCheckpoint, att, verifySignature, isValidIndexed);
    if r.Fail? {
      return;
    }
    var pending := PendingFor(ctx, state.slot, att);
    if TargetsCurrentEpoch(ctx, att.data) {
      state.currentEpochAttestations := state.currentEpochAttestations + [pending];
    } else {
      state.previousEpochAttestations := state.previousEpochAttestations + [pending];
    }
  }

  // Properties of the checks.

  /** An attestation is admitted exactly when it meets every condition. */
  lemma AdmittedIffAllConditions(cfg: Config, ctx: EpochContext, slot: Slot, currentJustified: Checkpoint,
                                 previousJustified: Checkpoint, att: Attestation, verifySignature: bool,
                                 isValidIndexed: (Attestation, bool) -> bool)
    ensures CheckAttestation(cfg, ctx, slot, currentJustified, previousJustified, att, verifySignature, isValidIndexed).Pass?
            <==> IsAdmissible(cfg, ctx, slot, currentJustified, previousJustified, att, verifySignature, isValidIndexed)
  {
  }

  /** A committee index at or past the committee count is the first reason to reject. */
  lemma CommitteeIndexChecked(cfg: Config, ctx: EpochContext, slot: Slot, currentJustified: Checkpoint,
                              previousJustified: Checkpoint, att: Attestation, verifySignature: bool,
                              isValidIndexed: (Attestation, bool) -> bool)
    requires att.data.index >= ctx.committeeCountAtSlot(att.data.slot)
    ensures CheckAttestation(cfg, ctx, slot, currentJustified, previousJustified, att, verifySignature, isValidIndexed)
            == Fail(CommitteeIndexOutOfRange(att.data.index, ctx.committeeCountAtSlot(att.data.slot)))
  {
  }

  /**
   * A target one epoch past the current shuffling epoch is rejected for its
   * target, when the committee index passed (the previous shuffling epoch
   * never lies after the current one).
   */
  lemma NextEpochTargetRejected(cfg: Config, ctx: EpochContext, slot: Slot, currentJustified: Checkpoint,
                                previousJustified: Checkpoint, att: Attestation, verifySignature: bool,
                                isValidIndexed: (Attestation, bool) -> bool)
    requires ctx.previousShufflingEpoch <= ctx.currentShufflingEpoch
    requires att.data.index < ctx.committeeCountAtSlot(att.data.slot)
    requires att.data.target.epoch == ctx.currentShufflingEpoch + 1
    ensures CheckAttestation(cfg, ctx, slot, currentJustified, previousJustified, att, verifySignature, isValidIndexed)
            == Fail(TargetEpochNotPreviousOrCurrent(att.data.target.epoch, ctx.currentShufflingEpoch))
  {
  }

  /**
   * The inclusion window is closed at both ends: inclusion exactly
   * MIN_ATTESTATION_INCLUSION_DELAY slots or exactly SLOTS_PER_EPOCH slots
   * after the attestation slot passes that check, one slot earlier or later
   * does not.
   */
  lemma InclusionWindowInclusive(cfg: Config, ctx: EpochContext, slot: Slot, currentJustified: Checkpoint,
                                 previousJustified: Checkpoint, att: Attestation, verifySignature: bool,
                                 isValidIndexed: (Attestation, bool) -> bool)
    requires att.data.index < ctx.committeeCountAtSlot(att.data.slot)
    requires att.data.target.epoch == ctx.previousShufflingEpoch || att.data.target.epoch == ctx.currentShufflingEpoch
    requires att.data.target.epoch == ComputeEpochAtSlot(cfg, att.data.slot)
    ensures var r := CheckAttestation(cfg, ctx, slot, currentJustified, previousJustified, att, verifySignature, isValidIndexed);
            r == Fail(NotInInclusionWindow(att.data.slot)) <==>
              (slot < att.data.slot + cfg.minAttestationInclusionDelay || slot > att.data.slot + cfg.slotsPerEpoch)
  {
  }

  /** A source that differs from the justified checkpoint of the target's epoch is rejected. */
  lemma WrongSourceRejected(cfg: Config, ctx: EpochContext, slot: Slot, currentJustified: Checkpoint,
                            previousJustified: Checkpoint, att: Attestation, verifySignature: bool,
                            isValidIndexed: (Attestation, bool) -> bool)
    requires if att.data.target.epoch == ctx.currentShufflingEpoch then att.data.source != currentJustified
             else att.data.source != previousJustified
    ensures CheckAttestation(cfg, ctx, slot, currentJustified, previousJustified, att, verifySignature, isValidIndexed).Fail?
  {
  }

  // Participation and inclusion bookkeeping.

  /** Timely source, target and head flags of one validator for one epoch. */
  datatype ParticipationStatus = ParticipationStatus(timelyHead: bool, timelySource: bool, timelyTarget: bool)

  /** The best (smallest) inclusion delay seen, 0 while unset, and who included it. */
  datatype InclusionData = InclusionData(inclusionDelay: nat, proposerIndex: ValidatorIndex)

  /** The attestation voted for the expected target root. */
  predicate IsMatchingTarget(data: AttestationData, targetRoot: Root) {
    data.target.root == targetRoot
  }

  /** The attestation voted for the block at its slot, and its target matched too. */
  predicate IsMatchingHead(data: AttestationData, targetRoot: Root, blockRootAtSlot: Slot -> Root) {
    data.beaconBlockRoot == blockRootAtSlot(data.slot) && IsMatchingTarget(data, targetRoot)
  }

  /** One attesting validator's new participation status. */
  function UpdatedStatus(s: ParticipationStatus, matchingTarget: bool, matchingHead: bool): (r: ParticipationStatus)
    ensures r.timelySource
    ensures r.timelyTarget <==> s.timelyTarget || matchingTarget
    ensures r.timelyHead <==> s.timelyHead || matchingHead
  {
    ParticipationStatus(matchingHead || s.timelyHead, true, matchingTarget || s.timelyTarget)
  }

  /** One attesting validator's new inclusion data: kept unless unset or beaten. */
  function UpdatedInclusion(d: InclusionData, delay: nat, proposer: ValidatorIndex): (r: InclusionData)
    ensures r == d || r == InclusionData(delay, proposer)
    ensures d.inclusionDelay > 0 && delay >= d.inclusionDelay ==> r == d
    ensures d.inclusionDelay > 0 && delay > 0 ==> r.inclusionDelay == Min(d.inclusionDelay, delay)
    ensures d.inclusionDelay == 0 ==> r == InclusionData(delay, proposer)
  {
    if d.inclusionDelay == 0 || delay < d.inclusionDelay then InclusionData(delay, proposer) else d
  }

  /**
   * processAttestationParticipation: every attesting validator's status is
   * updated and, for a previous-epoch attestation, its inclusion data; all
   * other entries stay as they were.
   */
  method ProcessAttestationParticipation(ctx: EpochContext, blockRootAtSlot: Slot -> Root,
                                         epochParticipation: array<ParticipationStatus>,
                                         epochInclusion: array<InclusionData>,
                                         att: PendingAttestation, targetRoot: Root, isPreviousEpoch: bool)
    requires forall v :: v in AttestingIndices(ctx, att.data, att.aggregationBits) ==>
               v < epochParticipation.Length && v < epochInclusion.Length
    modifies epochParticipation, epochInclusion
    ensures forall v :: 0 <= v < epochParticipation.Length ==>
              epochParticipation[v] ==
                if v in AttestingIndices(ctx, att.data, att.aggregationBits)
                then UpdatedStatus(old(epochParticipation[v]), IsMatchingTarget(att.data, targetRoot),
                                   IsMatchingHead(att.data, targetRoot, blockRootAtSlot))
                else old(epochParticipation[v])
    ensures forall v :: 0 <= v < epochInclusion.Length ==>
              epochInclusion[v] ==
                if isPreviousEpoch && v in AttestingIndices(ctx, att.data, att.aggregationBits)
                then UpdatedInclusion(old(epochInclusion[v]), att.inclusionDelay, att.proposerIndex)
                else old(epochInclusion[v])
  {
    var matchingTarget := IsMatchingTarget(att.data, targetRoot);
    var matchingHead := IsMatchingHead(att.data, targetRoot, blockRootAtSlot);
    var attestingIndices := AttestingIndices(ctx, att.data, att.aggregationBits);
    for i := 0 to |attestingIndices|
      invariant forall v :: 0 <= v < epochParticipation.Length ==>
                  epochParticipation[v] ==
                    if v in attestingIndices[..i]
                    then UpdatedStatus(old(epochParticipation[v]), matchingTarget, matchingHead)
                    else old(epochParticipation[v])
      invariant forall v :: 0 <= v < epochInclusion.Length ==>
                  epochInclusion[v] ==
                    if isPreviousEpoch && v in attestingIndices[..i]
                    then UpdatedInclusion(old(epochInclusion[v]), att.inclusionDelay, att.proposerIndex)
                    else old(epochInclusion[v])
    {
      var index := attestingIndices[i];
      assert index in attestingIndices;
      assert attestingIndices[..i + 1] == attestingIndices[..i] + [index];
      var status := epochParticipation[index];
      epochParticipation[index] := UpdatedStatus(status, matchingTarget, matchingHead);
      if isPreviousEpoch {
        var inclusionData := epochInclusion[index];
        var isLowerInclusionDelay := inclusionData.inclusionDelay == 0 || att.inclusionDelay < inclusionData.inclusionDelay;
        if isLowerInclusionDelay {
          epochInclusion[index] := InclusionData(att.inclusionDelay, att.proposerIndex);
        }
      }
    }
    assert attestingIndices[..|attestingIndices|] == attestingIndices;
  }

  /** A head vote is only ever credited together with a target vote. */
  lemma HeadImpliesTarget(s: ParticipationStatus, data: AttestationData, targetRoot: Root, blockRootAtSlot: Slot -> Root)
    requires !s.timelyHead || s.timelyTarget
    ensures var r := UpdatedStatus(s, IsMatchingTarget(data, targetRoot), IsMatchingHead(data, targetRoot, blockRootAtSlot));
            r.timelyHead ==> r.timelyTarget
  {
  }

  /** The inclusion data after a sequence of attestations, applied in order. */
  function InclusionAfter(d: InclusionData, atts: seq<PendingAttestation>): InclusionData
    decreases |atts|
  {
    if atts == [] then d
    else InclusionAfter(UpdatedInclusion(d, atts[0].inclusionDelay, atts[0].proposerIndex), atts[1..])
  }

  /** The smallest inclusion delay among `atts`. */
  function MinDelay(atts: seq<PendingAttestation>): (m: nat)
    requires atts != []
    ensures exists k :: 0 <= k < |atts| && m == atts[k].inclusionDelay
    ensures forall k :: 0 <= k < |atts| ==> m <= atts[k].inclusionDelay
  {
    if |atts| == 1 then atts[0].inclusionDelay
    else Min(atts[0].inclusionDelay, MinDelay(atts[1..]))
  }

  /** The position of the first attestation in `atts` with the smallest delay. */
  function FirstMinIndex(atts: seq<PendingAttestation>): (k: nat)
    requires atts != []
    ensures k < |atts| && atts[k].inclusionDelay == MinDelay(atts)
    ensures forall j :: 0 <= j < k ==> atts[j].inclusionDelay > MinDelay(atts)
    decreases |atts|
  {
    if |atts| == 1 || atts[0].inclusionDelay <= MinDelay(atts[1..]) then 0
    else 1 + FirstMinIndex(atts[1..])
  }

  /**
   * After a series of attestations with positive delays the stored delay is
   * the smallest one seen. A stored delay no larger than every new one is kept
   * with its proposer; otherwise the first attestation reaching the smallest
   * delay wins, since a later tie does not replace it.
   */
  lemma {:induction false} InclusionKeepsMinimalDelay(d: InclusionData, atts: seq<PendingAttestation>)
    requires atts != []
    requires forall k :: 0 <= k < |atts| ==> atts[k].inclusionDelay > 0
    ensures var r := InclusionAfter(d, atts);
            && r.inclusionDelay == (if d.inclusionDelay == 0 then MinDelay(atts) else Min(d.inclusionDelay, MinDelay(atts)))
            && (d.inclusionDelay > 0 && d.inclusionDelay <= MinDelay(atts) ==> r == d)
            && (d.inclusionDelay == 0 || d.inclusionDelay > MinDelay(atts) ==>
                  r == InclusionData(atts[FirstMinIndex(atts)].inclusionDelay, atts[FirstMinIndex(atts)].proposerIndex))
    decreases |atts|
  {
    var first := atts[0];
    var d1 := UpdatedInclusion(d, first.inclusionDelay, first.proposerIndex);
    if |atts| == 1 {
      assert InclusionAfter(d, atts) == InclusionAfter(d1, []);
    } else {
      var rest := atts[1..];
      assert InclusionAfter(d, atts) == InclusionAfter(d1, rest);
      assert forall k :: 0 <= k < |rest| ==> rest[k].inclusionDelay > 0 by {
        forall k | 0 <= k < |rest| ensures rest[k].inclusionDelay > 0 {
          assert rest[k] == atts[k + 1];
        }
      }
      InclusionKeepsMinimalDelay(d1, rest);
      if first.inclusionDelay > MinDelay(rest) {
        assert FirstMinIndex(atts) == 1 + FirstMinIndex(rest);
        assert rest[FirstMinIndex(rest)] == atts[FirstMinIndex(atts)];
      }
    }
  }
}
