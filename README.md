# Lodestar beacon-chain state transition: a verified model

This project models, in Dafny, the core of the Lodestar beacon-chain state
transition and proves properties of it. It covers the per-epoch and per-block
processors of the Ethereum consensus protocol, plus two small pure helpers:

- **Justification and finalization** (phase0 epoch processing). The
  justification bitfield moves one epoch toward the past. The previous and
  the current epoch are justified on a two-thirds supermajority of the
  active balance. Four bit-pattern rules, applied in a fixed order, may then
  finalize a checkpoint.
- **Attestation processing** (phase0 block processing). A chain of
  fail-fast checks admits an attestation as a pending attestation. A
  separate in-place update records each attester's participation flags and
  best inclusion delay.
- **Proposer slashing**. Five ordered checks and two signature checks, then
  the proposer is slashed.
- **Sync-aggregate processing** (altair). Participants are selected from the
  current sync committee by a bit list. One aggregate signature is checked
  when anybody participated. Participants and the proposer are then
  credited.
- **Sync-committee rotation** (altair epoch processing). The committees
  rotate at the last epoch of every period.
- **prettyBytes**. A root is abbreviated as `0x1234…abcd`.
- **SSZ test-name parsers**. Names of generic SSZ conformance cases are read
  by splitting on `_`.

Layout, one module per source file:

- `common.dfy` (module `Common`): slots, epochs, checkpoints and the
  `Outcome`/`Result` error types. It also holds the read-only epoch context
  and the positional select-by-bits filter shared by attestations and sync
  aggregates.
- `state.dfy` (module `State`): the mutable `BeaconState` class. Processors
  modify its fields in place, under field-granular `modifies` frames.
- `justification.dfy`, `attestation.dfy`, `proposer_slashing.dfy`,
  `sync_committee.dfy`, `sync_committee_updates.dfy`, `format.dfy` and
  `ssz_generic_utils.dfy`: the processors and helpers.

Each imperative processor is a `method` proved equal to a declarative
specification function. The properties are lemmas about that function.

Errors the source throws become `Fail(...)`/`Failure(...)` values; an
operation that fails changes nothing. The following are parameters:

- lookups of the epoch context: committee count, committee, proposer,
  shuffling epochs and sync rewards;
- BLS signature verification;
- `isValidIndexedAttestation` and `isSlashableValidator`;
- block roots;
- the attesting and total balances;
- the derived next sync committee;
- hex encoding.

## Model

| member | source | states |
|---|---|---|
| Common.ComputeEpochAtSlot | packages/beacon-state-transition/src/phase0/fast/block/processAttestation.ts:34 | the epoch returned is the one whose slot range [e·SLOTS_PER_EPOCH, (e+1)·SLOTS_PER_EPOCH) contains the slot |
| Common.SelectByBits | packages/beacon-state-transition/src/phase0/fast/block/processAttestation.ts:130 | the selected validators are committee members, and there are no more of them than committee members |
| Common.SelectByBitsMembership | packages/beacon-state-transition/src/altair/block/processSyncCommittee.ts:28-32 | a validator is selected if and only if it sits at a committee position whose bit is set |
| Common.SelectByBitsIsSubsequence | packages/beacon-state-transition/src/altair/block/processSyncCommittee.ts:27-32 | the selection is a subsequence of the committee: committee order is kept and only unselected members are dropped |
| Common.SelectByBitsLength | packages/beacon-state-transition/src/altair/block/processSyncCommittee.ts:53 | the participant count equals the number of set bits within the committee |
| Common.SelectByBitsNoneSet | packages/beacon-state-transition/src/altair/block/processSyncCommittee.ts:38 | with no bit set, nobody is selected |
| State.BeaconState.IncreaseBalance | packages/beacon-state-transition/src/altair/block/processSyncCommittee.ts:51 | one balance grows by the delta; every other balance and the length are unchanged |
| State.BeaconState.RotateSyncCommittee | packages/beacon-state-transition/src/altair/epoch/processSyncCommitteeUpdates.ts:11 | the next committee becomes the current one and the derived committee becomes the next |
| Justification.Finalized | packages/lodestar-beacon-state-transition/src/epoch/justification.ts:60-86 | the finalized checkpoint is always the old finalized, the old previous-justified or the old current-justified checkpoint |
| Justification.JustificationAndFinalization | packages/lodestar-beacon-state-transition/src/epoch/justification.ts:18-86 | the bitfield keeps its width, and the new finalized checkpoint is one of the three old checkpoints |
| Justification.ProcessJustificationAndFinalization | packages/lodestar-beacon-state-transition/src/epoch/justification.ts:14-87 | the in-place rotation loop and the field assignments leave the four justification fields equal to the specification function of their old values; only those fields change |
| Justification.ShiftBits | packages/lodestar-beacon-state-transition/src/epoch/justification.ts:30-33 | the in-place loop leaves bit 0 cleared and every other bit holding its lower neighbour's old value, the oldest dropped |
| Justification.ApplyFinalizationRules | packages/lodestar-beacon-state-transition/src/epoch/justification.ts:60-86 | the four sequential, overwriting rule checks give the rule-priority result: rule 3 or 4 before rule 1 or 2 before no change |
| Justification.EarlyEpochsUnchanged | packages/lodestar-beacon-state-transition/src/epoch/justification.ts:19-21 | at the genesis epoch and the one after it, the state is returned unchanged |
| Justification.BitsShiftTowardThePast | packages/lodestar-beacon-state-transition/src/epoch/justification.ts:28-33 | previous-justified becomes the old current-justified; the width is kept; new bit i is old bit i-1 for i ≥ 2, so the oldest bit is dropped (the rotation with the two new justification bits is RotatedBits) |
| Justification.PreviousEpochJustification | packages/lodestar-beacon-state-transition/src/epoch/justification.ts:37-45 | new bit 1 holds if and only if old bit 0 holds or previous-target balance·3 ≥ total·2; that supermajority alone justifies (previous epoch, its root); with neither supermajority, current-justified is unchanged |
| Justification.CurrentEpochJustification | packages/lodestar-beacon-state-transition/src/epoch/justification.ts:33-55 | new bit 0 holds if and only if current-target balance·3 ≥ total·2, and then (current epoch, its root) is current-justified, overriding the previous-epoch justification |
| Justification.RulePairsExclusive | packages/lodestar-beacon-state-transition/src/epoch/justification.ts:60-86 | rules 1 and 2 never both fire, nor do rules 3 and 4 |
| Justification.FinalizationRuleOrder | packages/lodestar-beacon-state-transition/src/epoch/justification.ts:60-86 | rule 3 or 4 finalizes the old current-justified checkpoint, whatever rules 1 and 2 say; otherwise rule 1 or 2 finalizes the old previous-justified one; otherwise finalized is unchanged |
| Justification.FinalizedEpochWindow | packages/lodestar-beacon-state-transition/src/epoch/justification.ts:60-86 | a changed finalized checkpoint has epoch currentEpoch−1, −2 or −3 |
| Attestations.AttestingIndices | packages/beacon-state-transition/src/phase0/fast/block/processAttestation.ts:130 | every attesting index is a member of the attestation's committee |
| Attestations.CheckAttestation | packages/beacon-state-transition/src/phase0/fast/block/processAttestation.ts:21-86 | an admitted attestation is at least MIN_ATTESTATION_INCLUSION_DELAY slots old |
| Attestations.PendingFor | packages/beacon-state-transition/src/phase0/fast/block/processAttestation.ts:88-95 | the recorded inclusion delay is the distance from the attestation slot to the state slot |
| Attestations.ProcessAttestation | packages/beacon-state-transition/src/phase0/fast/block/processAttestation.ts:9-105 | the outcome is that of the ordered checks. On success, exactly one record is appended to the current list when the target is the current epoch, else to the previous list, and the other list is unchanged. On failure, neither list changes |
| Attestations.AdmittedIffAllConditions | packages/beacon-state-transition/src/phase0/fast/block/processAttestation.ts:21-86 | an attestation passes if and only if all seven conditions hold: committee index, target epoch, epoch of slot, inclusion window, bit length, source and indexed validity |
| Attestations.CommitteeIndexChecked | packages/beacon-state-transition/src/phase0/fast/block/processAttestation.ts:21-27 | a committee index ≥ the committee count is rejected first, with both numbers |
| Attestations.NextEpochTargetRejected | packages/beacon-state-transition/src/phase0/fast/block/processAttestation.ts:28-33 | a target at current epoch + 1 is rejected for its target epoch |
| Attestations.InclusionWindowInclusive | packages/beacon-state-transition/src/phase0/fast/block/processAttestation.ts:41-46 | for a target in the previous or the current shuffling epoch that matches the attestation slot's epoch and a valid committee index, the window error occurs if and only if slot < attSlot + MIN_ATTESTATION_INCLUSION_DELAY or slot > attSlot + SLOTS_PER_EPOCH (both ends inclusive) |
| Attestations.WrongSourceRejected | packages/beacon-state-transition/src/phase0/fast/block/processAttestation.ts:62-79 | a source differing from the justified checkpoint of the target's epoch is rejected |
| Attestations.UpdatedStatus | packages/beacon-state-transition/src/phase0/fast/block/processAttestation.ts:144-151 | timelySource becomes true; timelyTarget and timelyHead are the old flag or the new match, so they only ever go from false to true |
| Attestations.UpdatedInclusion | packages/beacon-state-transition/src/phase0/fast/block/processAttestation.ts:155-159 | the data is kept or replaced by (delay, proposer). It is replaced when unset. When both delays are positive, the smaller one is kept; a new delay equal to or larger than a stored positive one keeps the stored data and its proposer, so a tie does not replace the first includer |
| Attestations.ProcessAttestationParticipation | packages/beacon-state-transition/src/phase0/fast/block/processAttestation.ts:107-162 | every attesting index gets the updated status, and for a previous-epoch attestation the updated inclusion data. Every other entry of both arrays is unchanged |
| Attestations.HeadImpliesTarget | packages/beacon-state-transition/src/phase0/fast/block/processAttestation.ts:124-149 | a timely head is never recorded without a timely target, because a matching head (IsMatchingHead) includes a matching target |
| Attestations.FirstMinIndex | packages/beacon-state-transition/src/phase0/fast/block/processAttestation.ts:156 | the position of the first attestation with the minimum delay: it attains the minimum and every earlier one is strictly larger |
| Attestations.MinDelay | packages/beacon-state-transition/src/phase0/fast/block/processAttestation.ts:156 | the minimum is one of the delays and no delay is smaller |
| Attestations.InclusionKeepsMinimalDelay | packages/beacon-state-transition/src/phase0/fast/block/processAttestation.ts:153-160 | after a series of attestations with positive delays, the stored delay is the minimum seen; a stored positive delay no larger than every new one is kept with its proposer, otherwise the data is that of the first attestation reaching the minimum (FirstMinIndex), later ties not replacing it |
| ProposerSlashings.CheckProposerSlashing | packages/beacon-state-transition/src/phase0/block/processProposerSlashing.ts:43-74 | the ordered checks: a pass means all five structural checks held and, with verification on, both signatures verified; a signature error arises only with verification on, after the structural checks, and names header 1 or 2 (the full if-and-only-if is AcceptedIffAllConditions) |
| ProposerSlashings.AssertValidProposerSlashing | packages/beacon-state-transition/src/phase0/block/processProposerSlashing.ts:33-75 | the loop over the two signature sets together with the structural checks yields exactly the ordered-check outcome |
| ProposerSlashings.SlashValidator | packages/beacon-state-transition/src/phase0/block/processProposerSlashing.ts:30 | exactly the named validator becomes slashed; no other validator changes |
| ProposerSlashings.ProcessProposerSlashing | packages/beacon-state-transition/src/phase0/block/processProposerSlashing.ts:22-31 | all checks run first. Only when every one passes is the validator of header 1 slashed; a rejection leaves the validators unchanged |
| ProposerSlashings.SlotsMustMatch | packages/beacon-state-transition/src/phase0/block/processProposerSlashing.ts:44-46 | different header slots are rejected first, with both slots |
| ProposerSlashings.ProposersMustMatch | packages/beacon-state-transition/src/phase0/block/processProposerSlashing.ts:48-53 | same slot but different proposers is rejected for the proposer indices |
| ProposerSlashings.EqualHeadersRejected | packages/beacon-state-transition/src/phase0/block/processProposerSlashing.ts:55-57 | identical headers are rejected as equal |
| ProposerSlashings.AcceptedIffAllConditions | packages/beacon-state-transition/src/phase0/block/processProposerSlashing.ts:43-74 | accepted if and only if: slots match, proposers match, headers differ, the proposer exists and is slashable, and (with verification) both signatures verify |
| ProposerSlashings.FirstBadSignatureNamed | packages/beacon-state-transition/src/phase0/block/processProposerSlashing.ts:65-73 | with verification on: an error naming header 1 means its signature failed, one naming header 2 means header 1's was good and header 2's failed; and once the five structural checks pass, a bad header-1 signature gives the header-1 error and a good header 1 with a bad header 2 gives the header-2 error |
| ProposerSlashings.SignaturesIgnoredWhenDisabled | packages/beacon-state-transition/src/phase0/block/processProposerSlashing.ts:65 | with verification off, the outcome does not depend on the signature oracle |
| SyncCommittee.PreviousSlot | packages/beacon-state-transition/src/altair/block/processSyncCommittee.ts:24 | the signed slot is max(slot, 1) − 1: 0 for slots 0 and 1, else slot − 1 |
| SyncCommittee.ParticipantIndices | packages/beacon-state-transition/src/altair/block/processSyncCommittee.ts:27-32 | the positional selection of zipIndexesInBitList: no longer than the committee and an order-keeping subsequence of it (membership is ParticipantsByPosition) |
| SyncCommittee.ParticipantIndicesByValue | packages/beacon-state-transition/src/altair/block/processSyncCommittee.ts:33 | as written: a validator is kept if and only if it is a committee member and the bit at the position equal to its validator index is set |
| SyncCommittee.ParticipantsByPosition | packages/beacon-state-transition/src/altair/block/processSyncCommittee.ts:27-32 | a validator participates if and only if it sits at a committee position whose bit is set; participants are a subsequence of the committee |
| SyncCommittee.ByValueSelectionDiffers | packages/beacon-state-transition/src/altair/block/processSyncCommittee.ts:28-33 | committee [5, 0] with bits [true, false]: the positional selection gives [5], the line-33 selection gives [0] |
| SyncCommittee.ProcessSyncCommittee | packages/beacon-state-transition/src/altair/block/processSyncCommittee.ts:17-54 | rejects if and only if verification is on, there is at least one participant, and the aggregate signature over the previous slot fails; a rejection leaves balances unchanged; otherwise the crediting loop leaves the balances equal to the reward specification |
| SyncCommittee.CreditParticipants | packages/beacon-state-transition/src/altair/block/processSyncCommittee.ts:50-52 | the loop over the participants leaves the balances equal to the specification function that credits the reward once per entry, in order |
| SyncCommittee.SyncRewardBalances | packages/beacon-state-transition/src/altair/block/processSyncCommittee.ts:49-53 | the balances after one participant credit per participant entry and the proposer credit; the registry length is kept (per-validator and total effects are SyncRewardsAt and SyncRewardsTotal) |
| SyncCommittee.CreditedAt | packages/beacon-state-transition/src/altair/block/processSyncCommittee.ts:50-52 | each validator gains the participant reward once per occurrence in the participant list |
| SyncCommittee.SyncRewardsAt | packages/beacon-state-transition/src/altair/block/processSyncCommittee.ts:49-53 | each validator gains participantReward × occurrences, plus proposerReward × participantCount if it is the proposer; nobody else changes |
| SyncCommittee.CreditedSum | packages/beacon-state-transition/src/altair/block/processSyncCommittee.ts:50-52 | the participant loop raises the total balance by reward × participant count |
| SyncCommittee.SyncRewardsTotal | packages/beacon-state-transition/src/altair/block/processSyncCommittee.ts:49-53 | the total balance grows by participantReward × count + proposerReward × count |
| SyncCommittee.CreditOneSum | packages/beacon-state-transition/src/altair/block/processSyncCommittee.ts:53 | crediting the proposer once raises the total balance by exactly that credit |
| SyncCommittee.EmptyAggregateCreditsNothing | packages/beacon-state-transition/src/altair/block/processSyncCommittee.ts:38-53 | with no bit set there are no participants, so the proposer is credited zero and balances are unchanged |
| SyncCommitteeUpdates.ProcessSyncCommitteeUpdates | packages/beacon-state-transition/src/altair/epoch/processSyncCommitteeUpdates.ts:5-13 | rotates once if and only if (currentEpoch + 1) mod EPOCHS_PER_SYNC_COMMITTEE_PERIOD = 0; otherwise both committees are unchanged; nothing but the epoch decides |
| SyncCommitteeUpdates.NextRotationEpoch | packages/beacon-state-transition/src/altair/epoch/processSyncCommitteeUpdates.ts:10 | from any epoch, the next rotation comes less than one period later, and no epoch before it rotates |
| SyncCommitteeUpdates.OneRotationPerPeriod | packages/beacon-state-transition/src/altair/epoch/processSyncCommitteeUpdates.ts:10 | any window of `period` consecutive epochs contains exactly one rotation |
| SyncCommitteeUpdates.MinimalPresetSchedule | packages/params/src/presets/minimal/altair.ts:9 | with the minimal preset (8), rotations happen at epochs 7 and 15, not at 8 |
| SyncCommitteeUpdates.MainnetPresetSchedule | packages/params/src/presets/mainnet/altair.ts:11 | with the mainnet preset (256), the first rotation is at epoch 255 |
| Format.SliceBound | packages/utils/src/format.ts:8 | JavaScript slice bounds: a negative bound counts from the end, and both are clamped to [0, length] |
| Format.JsSlice | packages/utils/src/format.ts:8 | in-range bounds give the substring; a negative start with no end gives the last −start characters; a start at or past the end gives the empty string |
| Format.PrettyBytes | packages/utils/src/format.ts:6-8 | for text or bytes alike, with n the length of the text abbreviated: the result has min(6, n) + 1 + min(4, n) characters with the ellipsis at position min(6, n) (its contents are PrettyBytesShape) |
| Format.PrettyBytesShape | packages/utils/src/format.ts:8 | the result is the first min(6, n) characters, "…", then the last min(4, n) characters, with length min(6, n) + 1 + min(4, n) |
| Format.LongInputLength | packages/utils/src/format.ts:8 | input of 10 or more characters gives 11 characters |
| Format.ShortInputRepeated | packages/utils/src/format.ts:8 | input of at most 4 characters gives s + "…" + s; the empty string gives "…" |
| Format.TextUsedVerbatim | packages/utils/src/format.ts:7 | string input never goes through hex encoding; byte input is abbreviated as its hex text |
| Format.HexRootExample | packages/utils/src/format.ts:4-8 | "0x1234567890abcdef" becomes "0x1234…cdef" |
| SszGenericUtils.Split | packages/ssz/test/spec/generic/utils.ts:36 | split always gives at least one piece, and no piece contains "_" |
| SszGenericUtils.Segment | packages/ssz/test/spec/generic/utils.ts:38-39 | a piece index is defined if and only if it is within the split |
| SszGenericUtils.JoinSplit | packages/ssz/test/spec/generic/utils.ts:36 | joining the split pieces with "_" gives the name back |
| SszGenericUtils.SplitJoin | packages/ssz/test/spec/generic/utils.ts:36 | splitting "_"-joined separator-free pieces gives the pieces back |
| SszGenericUtils.FirstSegment | packages/ssz/test/spec/generic/utils.ts:58-59 | piece 0 is everything before the first "_" |
| SszGenericUtils.TrimStart | packages/ssz/test/spec/generic/utils.ts:53 | only leading white space is removed: every dropped character is white space, the rest is a suffix of the input and does not start with white space |
| SszGenericUtils.DigitPrefix | packages/ssz/test/spec/generic/utils.ts:53 | the run read by parseInt is a prefix of digits, followed by a non-digit or the end |
| SszGenericUtils.DigitPrefixOf | packages/ssz/test/spec/generic/utils.ts:53 | parseInt reads a run of digits and ignores whatever non-digit text follows |
| SszGenericUtils.BigNumber | packages/ssz/test/spec/generic/utils.ts:39 | `new BN` of a piece: accepted if and only if the piece is undefined or all decimal digits; undefined and the empty text read as 0; other text is rejected naming that text |
| SszGenericUtils.ParseInt | packages/ssz/test/spec/generic/utils.ts:53 | `parseInt` of an undefined piece is NaN (its reading of digit runs is DigitPrefixOf and ParseIntOfDigits) |
| SszGenericUtils.ParseIntSkipsSpace | packages/ssz/test/spec/generic/utils.ts:53 | a leading white-space character does not change what parseInt reads |
| SszGenericUtils.ParseIntSign | packages/ssz/test/spec/generic/utils.ts:53 | a minus sign before unsigned text negates what the text reads, a plus sign leaves it, and no digits after the sign stays NaN |
| SszGenericUtils.ParseIntOfDigits | packages/ssz/test/spec/generic/utils.ts:53 | parseInt of a run of digits followed by a non-digit or nothing is the decimal value of the run; the value is exact, where the source's double agrees only up to 2^53 (see Left out) |
| SszGenericUtils.TypeToEnum | packages/ssz/test/spec/generic/utils.ts:70-81 | an undefined type is "Missing type undefined"; any rejected name is reported as "Missing type <name>"; an accepted uint type has 1, 2, 4, 8, 16 or 32 bytes and useNumber if and only if at most 4 |
| SszGenericUtils.ParseBasicVectorType | packages/ssz/test/spec/generic/utils.ts:35-41 | a type error from piece 1 is reported before the length is read; a result carries the type of piece 1 and the length read from piece 2 |
| SszGenericUtils.ParseBitListType | packages/ssz/test/spec/generic/utils.ts:43-48 | a name without piece 1 has limit 0; a rejection is only ever non-decimal text |
| SszGenericUtils.ParseUintType | packages/ssz/test/spec/generic/utils.ts:50-55 | a name without piece 1 has size NaN |
| SszGenericUtils.ParseContainerType | packages/ssz/test/spec/generic/utils.ts:57-68 | a container found is the one whose name is piece 0; any other piece 0 is "Unknown container type" |
| SszGenericUtils.TypeTableAccepts | packages/ssz/test/spec/generic/utils.ts:70-81 | exactly the seven names bool, uint8, …, uint256 are accepted; bool maps to the bool type; every other name is rejected with "Missing type <name>" |
| SszGenericUtils.UintWidths | packages/ssz/test/spec/generic/utils.ts:73-78 | every accepted uintN has byteLength × 8 = N, and useNumber holds if and only if byteLength ≤ 4 |
| SszGenericUtils.ContainerBySegment | packages/ssz/test/spec/generic/utils.ts:57-68 | a container is found if and only if piece 0 is one of the six names, and the container found is the one named |
| SszGenericUtils.ContainerNameRoundTrip | packages/ssz/test/spec/generic/utils.ts:57-68 | a container name followed by nothing or by "_…" selects that container |
| SszGenericUtils.BasicVectorSegments | packages/ssz/test/spec/generic/utils.ts:35-41 | element type from piece 1 and length from piece 2. A missing piece 1 gives "Missing type undefined"; an unknown type gives "Missing type <piece 1>"; a missing piece 2 gives length 0 |
| SszGenericUtils.BitListSegments | packages/ssz/test/spec/generic/utils.ts:43-48 | the limit is read from piece 1, and is 0 when piece 1 is missing |
| SszGenericUtils.UintSizeMissing | packages/ssz/test/spec/generic/utils.ts:50-55 | a name without piece 1 has size NaN |
| SszGenericUtils.UintSegments | packages/ssz/test/spec/generic/utils.ts:50-55 | the size is the leading decimal digits of piece 1; exact, where the source's double agrees only up to 2^53 (see Left out) |
| SszGenericUtils.VectorExample | packages/ssz/test/spec/generic/utils.ts:35-41 | "vec_uint16_4_max" reads as a vector of 4 uint16 elements (useNumber, 2 bytes) |
| SszGenericUtils.UintExample | packages/ssz/test/spec/generic/utils.ts:50-55 | "uint_64_max" gives size 64, and "uint" gives NaN |

## Left out

- uint64 width: slots, epochs and balances are unbounded naturals. The source's `bigint`/`number` arithmetic would not overflow in practice, and SSZ's 64-bit limit on balances is not modelled.
- BLS verification, domains and signing roots are boolean oracles. This covers `verifyAggregate`, `verifySignatureSet`, the proposer signature sets and `isValidIndexedAttestation`. The hashing and SSZ merkleization they use are not part of this model.
- Epoch-context internals are given as functions: `getCommitteeCountAtSlot`, `getBeaconCommittee`, `getBeaconProposer`, the shuffling epochs and the sync rewards. The same holds for `getAttestingBalance`, `getTotalActiveBalance`, `getBlockRoot`/`getBlockRootAtSlot`, the next sync committee that `rotateSyncCommittee` derives, and `toHexString`.
- ProposerSlashings.SlashValidator: only the `slashed` flag is set. The penalties, whistleblower rewards and exit initiation of `slashValidatorAllForks` are not part of this model. The `fork` argument is dropped because it only selects among those penalty parameters.
- ProposerSlashings.CheckProposerSlashing: a proposer index past the registry is rejected as `UnknownProposer`. The source would read `undefined` and fail inside `isSlashableValidator`.
- SyncCommittee.ProcessSyncCommittee: it requires every committee index and the proposer to be registry indices. The source relies on the state's invariants for this and does not check it.
- SyncCommittee.ProcessSyncCommittee: when nobody participated, the signature is not checked at all. This follows the source (processSyncCommittee.ts:37-38) and departs from the altair protocol, which verifies the aggregate against the empty key set.
- SyncCommittee.ProcessSyncCommittee: the tree-backed versus struct representation of the aggregate is not modelled. The model always uses the positional selection of the tree-backed path (see Findings).
- Attestations.ProcessAttestation: phase0 pending-attestation lists are plain sequences. Tree-backed lists, `hashTreeRoot` and SSZ `equals` are structural equality of values.
- Attestations.ProcessAttestationParticipation: an unset inclusion delay is 0, as the source's falsy test reads it.
- Attestations.ProcessAttestationParticipation: it requires every attesting index to lie within both arrays. The source does not check this: an index past `epochParticipation` reads `undefined` and the access to `timelyHead` throws a TypeError (processAttestation.ts:144-147), a crash the model does not represent.
- SszGenericUtils.BigNumber: `new BN` is modelled for missing, empty and all-digit text only. Other text (a sign, letters) is rejected, whereas bn.js returns a value that depends on its version.
- SszGenericUtils.ParseIntOfDigits: `parseInt` returns a JavaScript number, a 64-bit floating-point value, while the model reads a digit run as an exact integer. The two agree for runs up to 2^53, which covers every width in the uint test names (8 to 256). Above that the source rounds to the nearest double, and a run of more than about 309 digits gives Infinity; neither is modelled.
- SszGenericUtils.UintSegments: the size is stated as the exact value of piece 1's digit run. The source's `parseInt` yields a double, so the two agree only up to 2^53, as for ParseIntOfDigits.
- SszGenericUtils.ParseIntSign: the text "-0" gives JavaScript's −0; the model gives 0, since an integer has no negative zero.
- SszGenericUtils.IsJsSpace: the white space `parseInt` skips is the listed ASCII and BOM/NBSP/line-separator characters. Other Unicode space separators are not included.
- The six container types and the two SSZ type kinds are named values. Their field layouts belong to the SSZ library and are not part of this model.
- Format.PrettyBytes: JavaScript strings are UTF-16. The model slices by `char`, which agrees for the ASCII hex strings this function is given.

## Findings

| source | as written | input that shows it | evidently intended | confidence | as-written member | corrected member |
|---|---|---|---|---|---|---|
| packages/beacon-state-transition/src/altair/block/processSyncCommittee.ts:33 | for a struct (non tree-backed) aggregate, a committee member is a participant when `syncCommitteeBits[index]` is set, where `index` is its validator index | committee [5, 0], bits [true, false]: validator 0 is credited although only the member at position 0 (validator 5) signed | select by committee position, as the tree-backed `zipIndexesInBitList` path at lines 28-32 does | not executed | SyncCommittee.ParticipantIndicesByValue (counterexample: SyncCommittee.ByValueSelectionDiffers) | SyncCommittee.ParticipantIndices (property: SyncCommittee.ParticipantsByPosition) |
