/**
 * Block processing of the sync-committee aggregate (altair): the
 * participants are the current sync-committee members whose bit is set; one
 * aggregate signature over the previous slot's block root is checked when
 * there is at least one participant; every participant and the block's
 * proposer are then credited.
 */
module SyncCommittee {
  import opened Common
  import opened State

  datatype SyncAggregate = SyncAggregate(syncCommitteeBits: seq<bool>, syncCommitteeSignature: Signature)

  datatype SyncCommitteeError = SyncCommitteeSignatureInvalid

  /** The slot whose block root the committee signs: max(slot, 1) - 1. */
  function PreviousSlot(slot: Slot): (r: Slot)
    ensures slot <= 1 ==> r == 0
    ensures slot >= 1 ==> r + 1 == slot
  {
    (if slot > 1 then slot else 1) - 1
  }

  /**
   * The participants, selected by position: committee member `i` takes part
   * when bit `i` is set (zipIndexesInBitList, the path every tree-backed
   * aggregate takes).
   */
  function ParticipantIndices(committee: seq<ValidatorIndex>, bits: seq<bool>): (r: seq<ValidatorIndex>)
    ensures |r| <= |committee|
    ensures IsSubsequence(r, committee)
  {
    SelectByBitsIsSubsequence(committee, bits);
    SelectByBits(committee, bits)
  }

  /**
   * The participants as the struct path at processSyncCommittee.ts:33
   * computes them: a member takes part when the bit at the position equal to
   * its validator index is set (a position past the bit list reads as unset).
   */
  function ParticipantIndicesByValue(committee: seq<ValidatorIndex>, bits: seq<bool>): (r: seq<ValidatorIndex>)
    ensures forall v :: v in r <==> v in committee && Selected(bits, v)
  {
    if committee == [] then []
    else (if Selected(bits, committee[0]) then [committee[0]] else []) + ParticipantIndicesByValue(committee[1..], bits)
  }

  /**
   * The positional selection: a validator participates exactly when it sits
   * at a position whose bit is set, and participants keep committee order.
   */
  lemma ParticipantsByPosition(committee: seq<ValidatorIndex>, bits: seq<bool>, v: ValidatorIndex)
    ensures v in ParticipantIndices(committee, bits) <==>
            exists i :: 0 <= i < |committee| && Selected(bits, i) && committee[i] == v
    ensures IsSubsequence(ParticipantIndices(committee, bits), committee)
  {
    SelectByBitsMembership(committee, bits, v);
    SelectByBitsIsSubsequence(committee, bits);
  }

  /**
   * The struct path credits the wrong validators: with committee [5, 0] and
   * only the first bit set, validator 5 took part but validator 0 is
   * selected instead.
   */
  lemma ByValueSelectionDiffers()
    ensures ParticipantIndices([5, 0], [true, false]) == [5]
    ensures ParticipantIndicesByValue([5, 0], [true, false]) == [0]
  {
    assert ParticipantIndicesByValue([0], [true, false]) == [0] by {
      assert [0][1..] == [];
    }
    assert [5, 0][1..] == [0];
  }

  /** Number of times `v` occurs in `s`. */
  function Occurrences(s: seq<ValidatorIndex>, v: ValidatorIndex): nat
    decreases |s|
  {
    if s == [] then 0
    else Occurrences(s[..|s| - 1], v) + (if s[|s| - 1] == v then 1 else 0)
  }

  /** The balances after crediting `reward` once per entry of `recipients`, in order. */
  function Credited(balances: seq<Gwei>, recipients: seq<ValidatorIndex>, reward: Gwei): (r: seq<Gwei>)
    requires AllBelow(recipients, |balances|)
    ensures |r| == |balances|
    decreases |recipients|
  {
    if recipients == [] then balances
    else
      var last := recipients[|recipients| - 1];
      assert last in recipients;
      AllBelowPrefix(recipients, |recipients| - 1, |balances|);
      var b := Credited(balances, recipients[..|recipients| - 1], reward);
      b[last := b[last] + reward]
  }

  /** The balances after the participant rewards and the proposer's reward. */
  function SyncRewardBalances(balances: seq<Gwei>, participants: seq<ValidatorIndex>, proposer: ValidatorIndex,
                              participantReward: Gwei, proposerReward: Gwei): (r: seq<Gwei>)
    requires AllBelow(participants, |balances|)
    requires proposer < |balances|
    ensures |r| == |balances|
  {
    CreditOne(Credited(balances, participants, participantReward), proposer, ProposerCredit(proposerReward, |participants|))
  }

  /** The proposer's reward: the per-participant proposer reward times the participant count. */
  function ProposerCredit(proposerReward: Gwei, participantCount: nat): Gwei {
    proposerReward * participantCount
  }

  /** The balances after crediting `reward` to one validator. */
  function CreditOne(balances: seq<Gwei>, index: ValidatorIndex, reward: Gwei): (r: seq<Gwei>)
    requires index < |balances|
    ensures |r| == |balances|
  {
    balances[index := balances[index] + reward]
  }

  /**
   * processSyncCommittee. The signature is checked only when
   * `verifySignatures` holds and somebody participated; a failed check
   * rejects before any balance changes.
   */
  method ProcessSyncCommittee(ctx: EpochContext, state: BeaconState, aggregate: SyncAggregate,
                              verifySignatures: bool,
                              verifyAggregate: (seq<ValidatorIndex>, Slot, Signature) -> bool)
    returns (r: Outcome<SyncCommitteeError>)
    requires state.Valid()
    requires AllBelow(state.currentSyncCommitteeIndices, |state.balances|)
    requires ctx.beaconProposer(state.slot) < |state.balances|
    modifies state`balances
    ensures state.Valid()
    ensures var participants := ParticipantIndices(state.currentSyncCommitteeIndices, aggregate.syncCommitteeBits);
            && (r.Fail? <==> verifySignatures && |participants| > 0 &&
                             !verifyAggregate(participants, PreviousSlot(state.slot), aggregate.syncCommitteeSignature))
            && (r.Fail? ==> state.balances == old(state.balances))
            && (r.Pass? ==>
                  state.balances == SyncRewardBalances(old(state.balances), participants, ctx.beaconProposer(state.slot),
                                                       ctx.syncParticipantReward, ctx.syncProposerReward))
  {
    var previousSlot := PreviousSlot(state.slot);
    var committeeIndices := state.currentSyncCommitteeIndices;
    var participantIndices := ParticipantIndices(committeeIndices, aggregate.syncCommitteeBits);
    if verifySignatures && |participantIndices| > 0 {
      if !verifyAggregate(participantIndices, previousSlot, aggregate.syncCommitteeSignature) {
        return Fail(SyncCommitteeSignatureInvalid);
      }
    }

    var proposerIndex := ctx.beaconProposer(state.slot);
    CreditParticipants(state, participantIndices, ctx.syncParticipantReward);
    state.IncreaseBalance(proposerIndex, ProposerCredit(ctx.syncProposerReward, |participantIndices|));
    return Pass;
  }

  /** Credits `reward` to every participant in turn, once per entry. */
  method CreditParticipants(state: BeaconState, participants: seq<ValidatorIndex>, reward: Gwei)
    requires AllBelow(participants, |state.balances|)
    modifies state`balances
    ensures state.balances == Credited(old(state.balances), participants, reward)
  {
    for i := 0 to |participants|
      invariant |state.balances| == |old(state.balances)|
      invariant AllBelow(participants[..i], |state.balances|)
      invariant state.balances == Credited(old(state.balances), participants[..i], reward)
    {
      AllBelowPrefix(participants, i + 1, |state.balances|);
      assert participants[i] in participants;
      assert participants[..i + 1][..i] == participants[..i];
      state.IncreaseBalance(participants[i], reward);
    }
    assert participants[..|participants|] == participants;
  }

  // Properties of the rewards.

  /** Crediting a list gives each validator the reward once per occurrence. */
  lemma {:induction false} CreditedAt(balances: seq<Gwei>, recipients: seq<ValidatorIndex>, reward: Gwei, j: nat)
    requires AllBelow(recipients, |balances|)
    requires j < |balances|
    ensures Credited(balances, recipients, reward)[j] == balances[j] + reward * Occurrences(recipients, j)
    decreases |recipients|
  {
    if recipients != [] {
      var init := recipients[..|recipients| - 1];
      AllBelowPrefix(recipients, |recipients| - 1, |balances|);
      CreditedAt(balances, init, reward, j);
    }
  }

  /**
   * Each validator gains the participant reward once per occurrence among
   * the participants, the proposer additionally the proposer reward times
   * the participant count; nobody else changes.
   */
  lemma SyncRewardsAt(balances: seq<Gwei>, participants: seq<ValidatorIndex>, proposer: ValidatorIndex,
                      participantReward: Gwei, proposerReward: Gwei, j: nat)
    requires AllBelow(participants, |balances|)
    requires proposer < |balances|
    requires j < |balances|
    ensures SyncRewardBalances(balances, participants, proposer, participantReward, proposerReward)[j] ==
            balances[j] + participantReward * Occurrences(participants, j) +
            (if j == proposer then proposerReward * |participants| else 0)
  {
    CreditedAt(balances, participants, participantReward, j);
  }

  /** Crediting a list raises the total by the reward times its length. */
  lemma {:induction false} CreditedSum(balances: seq<Gwei>, recipients: seq<ValidatorIndex>, reward: Gwei)
    requires AllBelow(recipients, |balances|)
    ensures Sum(Credited(balances, recipients, reward)) == Sum(balances) + reward * |recipients|
    decreases |recipients|
  {
    if recipients != [] {
      var init := recipients[..|recipients| - 1];
      AllBelowPrefix(recipients, |recipients| - 1, |balances|);
      var last := recipients[|recipients| - 1];
      assert last in recipients;
      CreditedSum(balances, init, reward);
      var b := Credited(balances, init, reward);
      SumUpdate(b, last, b[last] + reward);
    }
  }

  /** The total balance grows by both rewards once per participant. */
  lemma SyncRewardsTotal(balances: seq<Gwei>, participants: seq<ValidatorIndex>, proposer: ValidatorIndex,
                         participantReward: Gwei, proposerReward: Gwei)
    requires AllBelow(participants, |balances|)
    requires proposer < |balances|
    ensures Sum(SyncRewardBalances(balances, participants, proposer, participantReward, proposerReward)) ==
            Sum(balances) + participantReward * |participants| + proposerReward * |participants|
  {
    CreditedSum(balances, participants, participantReward);
    CreditOneSum(Credited(balances, participants, participantReward), proposer,
                 ProposerCredit(proposerReward, |participants|));
  }

  /** Crediting one validator raises the total by the reward. */
  lemma CreditOneSum(balances: seq<Gwei>, index: ValidatorIndex, reward: Gwei)
    requires index < |balances|
    ensures Sum(CreditOne(balances, index, reward)) == Sum(balances) + reward
  {
    var credited := balances[index] + reward;
    assert CreditOne(balances, index, reward) == balances[index := credited];
    SumUpdate(balances, index, credited);
  }

  /**
   * With no bit set there are no participants: whatever the signature and
   * the flag, the aggregate is accepted and the proposer is credited zero.
   */
  lemma EmptyAggregateCreditsNothing(balances: seq<Gwei>, committee: seq<ValidatorIndex>, bits: seq<bool>,
                                     proposer: ValidatorIndex, participantReward: Gwei, proposerReward: Gwei)
    requires forall i :: 0 <= i < |bits| ==> !bits[i]
    requires proposer < |balances|
    ensures ParticipantIndices(committee, bits) == []
    ensures SyncRewardBalances(balances, [], proposer, participantReward, proposerReward) == balances
  {
    SelectByBitsNoneSet(committee, bits);
  }
}
