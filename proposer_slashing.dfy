/**
 * Block processing of proposer slashings: two signed headers for the same
 * slot by the same proposer, which differ, prove that the proposer signed two
 * blocks. Five ordered checks, then the proposer is slashed.
 */
module ProposerSlashings {
  import opened Common
  import opened State

  datatype BeaconBlockHeader = BeaconBlockHeader(
    slot: Slot,
    proposerIndex: ValidatorIndex,
    parentRoot: Root,
    stateRoot: Root,
    bodyRoot: Root)

  datatype SignedBeaconBlockHeader = SignedBeaconBlockHeader(message: BeaconBlockHeader, signature: Signature)

  datatype ProposerSlashing = ProposerSlashing(signedHeader1: SignedBeaconBlockHeader, signedHeader2: SignedBeaconBlockHeader)

  /** Why a proposer slashing was rejected; `header` is 1 or 2. */
  datatype SlashingError =
    | SlotsMismatch(slot1: Slot, slot2: Slot)
    | ProposerIndicesMismatch(proposerIndex1: ValidatorIndex, proposerIndex2: ValidatorIndex)
    | HeadersEqual
    | UnknownProposer(proposerIndex: ValidatorIndex)
    | ProposerNotSlashable(proposerIndex: ValidatorIndex)
    | HeaderSignatureInvalid(header: nat)

  /**
   * The checks of assertValidProposerSlashing in source order.
   * `isSlashable` stands for isSlashableValidator and `signatureValid` for
   * building a header's signature set and verifying it; the latter is
   * consulted only when `verifySignatures` holds.
   */
  function CheckProposerSlashing(validators: seq<Validator>, currentEpoch: Epoch, slashing: ProposerSlashing,
                                 verifySignatures: bool, isSlashable: (Validator, Epoch) -> bool,
                                 signatureValid: SignedBeaconBlockHeader -> bool): (r: Outcome<SlashingError>)
    ensures r.Pass? ==>
              && StructurallyValid(validators, currentEpoch, slashing, isSlashable)
              && (verifySignatures ==> signatureValid(slashing.signedHeader1) && signatureValid(slashing.signedHeader2))
    ensures r.Fail? && r.error.HeaderSignatureInvalid? ==>
              && verifySignatures
              && StructurallyValid(validators, currentEpoch, slashing, isSlashable)
              && (r.error.header == 1 || r.error.header == 2)
  {
    var header1 := slashing.signedHeader1.message;
    var header2 := slashing.signedHeader2.message;
    if header1.slot != header2.slot then
      Fail(SlotsMismatch(header1.slot, header2.slot))
    else if header1.proposerIndex != header2.proposerIndex then
      Fail(ProposerIndicesMismatch(header1.proposerIndex, header2.proposerIndex))
    else if header1 == header2 then
      Fail(HeadersEqual)
    else if header1.proposerIndex >= |validators| then
      Fail(UnknownProposer(header1.proposerIndex))
    else if !isSlashable(validators[header1.proposerIndex], currentEpoch) then
      Fail(ProposerNotSlashable(header1.proposerIndex))
    else if verifySignatures && !signatureValid(slashing.signedHeader1) then
      Fail(HeaderSignatureInvalid(1))
    else if verifySignatures && !signatureValid(slashing.signedHeader2) then
      Fail(HeaderSignatureInvalid(2))
    else
      Pass
  }

  /** The five checks that come before the signatures all pass. */
  predicate StructurallyValid(validators: seq<Validator>, currentEpoch: Epoch, slashing: ProposerSlashing,
                              isSlashable: (Validator, Epoch) -> bool)
  {
    var header1 := slashing.signedHeader1.message;
    var header2 := slashing.signedHeader2.message;
    && header1.slot == header2.slot
    && header1.proposerIndex == header2.proposerIndex
    && header1 != header2
    && header1.proposerIndex < |validators|
    && isSlashable(validators[header1.proposerIndex], currentEpoch)
  }

  /**
   * assertValidProposerSlashing: the structural checks, then a loop over
   * the two signature sets that stops at the first one failing.
   */
  method AssertValidProposerSlashing(ctx: EpochContext, state: BeaconState, slashing: ProposerSlashing,
                                     verifySignatures: bool, isSlashable: (Validator, Epoch) -> bool,
                                     signatureValid: SignedBeaconBlockHeader -> bool)
    returns (r: Outcome<SlashingError>)
    ensures r == CheckProposerSlashing(state.validators, ctx.currentShufflingEpoch, slashing, verifySignatures,
                                       isSlashable, signatureValid)
  {
    var header1 := slashing.signedHeader1.message;
    var header2 := slashing.signedHeader2.message;
    if header1.slot != header2.slot {
      return Fail(SlotsMismatch(header1.slot, header2.slot));
    }
    if header1.proposerIndex != header2.proposerIndex {
      return Fail(ProposerIndicesMismatch(header1.proposerIndex, header2.proposerIndex));
    }
    if header1 == header2 {
      return Fail(HeadersEqual);
    }
    if header1.proposerIndex >= |state.validators| {
      return Fail(UnknownProposer(header1.proposerIndex));
    }
    var proposer := state.validators[header1.proposerIndex];
    if !isSlashable(proposer, ctx.currentShufflingEpoch) {
      return Fail(ProposerNotSlashable(header1.proposerIndex));
    }
    if verifySignatures {
      var signatureSets := [slashing.signedHeader1, slashing.signedHeader2];
      for i := 0 to |signatureSets|
        invariant i >= 1 ==> signatureValid(slashing.signedHeader1)
        invariant i >= 2 ==> signatureValid(slashing.signedHeader2)
      {
        if !signatureValid(signatureSets[i]) {
          return Fail(HeaderSignatureInvalid(i + 1));
        }
      }
    }
    return Pass;
  }

  /**
   * The part of slashValidatorAllForks the model keeps: the validator is
   * marked slashed.
   */
  method SlashValidator(state: BeaconState, index: ValidatorIndex)
    requires index < |state.validators|
    modifies state`validators
    ensures state.validators == old(state.validators)[index := old(state.validators)[index].(slashed := true)]
  {
    state.validators := state.validators[index := state.validators[index].(slashed := true)];
  }

  /**
   * processProposerSlashingAllForks: all checks first; only when every one
   * passes is the validator named by header 1 slashed.
   */
  method ProcessProposerSlashing(ctx: EpochContext, state: BeaconState, slashing: ProposerSlashing,
                                 verifySignatures: bool, isSlashable: (Validator, Epoch) -> bool,
                                 signatureValid: SignedBeaconBlockHeader -> bool)
    returns (r: Outcome<SlashingError>)
    requires state.Valid()
    modifies state`validators
    ensures state.Valid()
    ensures r == CheckProposerSlashing(old(state.validators), ctx.currentShufflingEpoch, slashing, verifySignatures,
                                       isSlashable, signatureValid)
    ensures r.Pass? ==>
              var index := slashing.signedHeader1.message.proposerIndex;
              && index < |old(state.validators)|
              && state.validators == old(state.validators)[index := old(state.validators)[index].(slashed := true)]
    ensures r.Fail? ==> state.validators == old(state.validators)
  {
    r := AssertValidProposerSlashing(ctx, state, slashing, verifySignatures, isSlashable, signatureValid);
    if r.Fail? {
      return;
    }
    SlashValidator(state, slashing.signedHeader1.message.proposerIndex);
  }

  // Properties of the checks.

  /** Headers for different slots are rejected first. */
  lemma SlotsMustMatch(validators: seq<Validator>, currentEpoch: Epoch, slashing: ProposerSlashing,
                       verifySignatures: bool, isSlashable: (Validator, Epoch) -> bool,
                       signatureValid: SignedBeaconBlockHeader -> bool)
    requires slashing.signedHeader1.message.slot != slashing.signedHeader2.message.slot
    ensures CheckProposerSlashing(validators, currentEpoch, slashing, verifySignatures, isSlashable, signatureValid)
            == Fail(SlotsMismatch(slashing.signedHeader1.message.slot, slashing.signedHeader2.message.slot))
  {
  }

  /** Same slot, different proposers: rejected for the indices. */
  lemma ProposersMustMatch(validators: seq<Validator>, currentEpoch: Epoch, slashing: ProposerSlashing,
                           verifySignatures: bool, isSlashable: (Validator, Epoch) -> bool,
                           signatureValid: SignedBeaconBlockHeader -> bool)
    requires slashing.signedHeader1.message.slot == slashing.signedHeader2.message.slot
    requires slashing.signedHeader1.message.proposerIndex != slashing.signedHeader2.message.proposerIndex
    ensures CheckProposerSlashing(validators, currentEpoch, slashing, verifySignatures, isSlashable, signatureValid).error.ProposerIndicesMismatch?
  {
  }

  /**
   * Two identical headers are rejected, although their slots and proposer
   * indices necessarily agree; the signatures play no part.
   */
  lemma EqualHeadersRejected(validators: seq<Validator>, currentEpoch: Epoch, slashing: ProposerSlashing,
                             verifySignatures: bool, isSlashable: (Validator, Epoch) -> bool,
                             signatureValid: SignedBeaconBlockHeader -> bool)
    requires slashing.signedHeader1.message == slashing.signedHeader2.message
    ensures CheckProposerSlashing(validators, currentEpoch, slashing, verifySignatures, isSlashable, signatureValid)
            == Fail(HeadersEqual)
  {
  }

  /** A slashing is accepted exactly when every condition holds. */
  lemma AcceptedIffAllConditions(validators: seq<Validator>, currentEpoch: Epoch, slashing: ProposerSlashing,
                                 verifySignatures: bool, isSlashable: (Validator, Epoch) -> bool,
                                 signatureValid: SignedBeaconBlockHeader -> bool)
    ensures var header1 := slashing.signedHeader1.message;
            var header2 := slashing.signedHeader2.message;
            CheckProposerSlashing(validators, currentEpoch, slashing, verifySignatures, isSlashable, signatureValid).Pass?
            <==>
            && header1.slot == header2.slot
            && header1.proposerIndex == header2.proposerIndex
            && header1 != header2
            && header1.proposerIndex < |validators|
            && isSlashable(validators[header1.proposerIndex], currentEpoch)
            && (verifySignatures ==> signatureValid(slashing.signedHeader1) && signatureValid(slashing.signedHeader2))
  {
  }

  /**
   * With signature verification on, a bad signature on header 1 is reported
   * as header 1 even when header 2's is bad too; header 2 is named only
   * when header 1's signature is good.
   */
  lemma FirstBadSignatureNamed(validators: seq<Validator>, currentEpoch: Epoch, slashing: ProposerSlashing,
                               isSlashable: (Validator, Epoch) -> bool,
                               signatureValid: SignedBeaconBlockHeader -> bool)
    ensures var r := CheckProposerSlashing(validators, currentEpoch, slashing, true, isSlashable, signatureValid);
            && (r == Fail(HeaderSignatureInvalid(1)) ==> !signatureValid(slashing.signedHeader1))
            && (r == Fail(HeaderSignatureInvalid(2)) ==> signatureValid(slashing.signedHeader1) && !signatureValid(slashing.signedHeader2))
    ensures var r := CheckProposerSlashing(validators, currentEpoch, slashing, true, isSlashable, signatureValid);
            var ok := StructurallyValid(validators, currentEpoch, slashing, isSlashable);
            var good1 := signatureValid(slashing.signedHeader1);
            var good2 := signatureValid(slashing.signedHeader2);
            && (ok && !good1 ==> r == Fail(HeaderSignatureInvalid(1)))
            && (ok && good1 && !good2 ==> r == Fail(HeaderSignatureInvalid(2)))
  {
  }

  /** With signature verification off, the signature oracle is never consulted. */
  lemma SignaturesIgnoredWhenDisabled(validators: seq<Validator>, currentEpoch: Epoch, slashing: ProposerSlashing,
                                      isSlashable: (Validator, Epoch) -> bool,
                                      signatureValid: SignedBeaconBlockHeader -> bool,
                                      otherOracle: SignedBeaconBlockHeader -> bool)
    ensures CheckProposerSlashing(validators, currentEpoch, slashing, false, isSlashable, signatureValid)
            == CheckProposerSlashing(validators, currentEpoch, slashing, false, isSlashable, otherOracle)
  {
  }
}
