/**
 * Value types shared by the beacon-chain processors: slots, epochs, roots,
 * checkpoints, the error-carrying outcome types, the read-only epoch context
 * (committee shuffling, proposer lookup, sync-committee rewards) and the
 * positional "select members by a bit list" filter that both attestation and
 * sync-committee processing rely on.
 */
module Common {

  type Slot = nat
  type Epoch = nat
  type ValidatorIndex = nat
  type CommitteeIndex = nat
  type Gwei = nat

  /** A positive integer, for configuration values the protocol never sets to zero. */
  type Positive = n: nat | n > 0 witness 1

  /** A 32-byte block or state root; only compared for equality. */
  type Root = seq<bv8>

  /** A BLS signature; only ever handed to a verification oracle. */
  type Signature = seq<bv8>

  const GENESIS_EPOCH: Epoch := 0

  /** An (epoch, root) pair used for justification and finalization. */
  datatype Checkpoint = Checkpoint(epoch: Epoch, root: Root)

  /** Success, or the first check that failed. */
  datatype Outcome<E> = Pass | Fail(error: E)

  datatype Option<T> = None | Some(value: T)

  datatype Result<T, E> = Success(value: T) | Failure(error: E)

  /** The configuration parameters the processors read. */
  datatype Config = Config(slotsPerEpoch: Positive, minAttestationInclusionDelay: nat)

  /** The epoch a slot belongs to (compute_epoch_at_slot). */
  function ComputeEpochAtSlot(cfg: Config, slot: Slot): (e: Epoch)
    ensures e * cfg.slotsPerEpoch <= slot < (e + 1) * cfg.slotsPerEpoch
  {
    slot / cfg.slotsPerEpoch
  }

  /**
   * The precomputed lookups of the epoch context. They are pure functions of
   * the validator registry and the shuffling seeds, computed elsewhere, so the
   * model takes them as given.
   */
  datatype EpochContext = EpochContext(
    previousShufflingEpoch: Epoch,
    currentShufflingEpoch: Epoch,
    committeeCountAtSlot: Slot -> nat,
    beaconCommittee: (Slot, CommitteeIndex) -> seq<ValidatorIndex>,
    beaconProposer: Slot -> ValidatorIndex,
    syncParticipantReward: Gwei,
    syncProposerReward: Gwei)

  /**
   * The members at the positions whose bit is set, in member order; a
   * position past the end of the bit list counts as unset.
   */
  function SelectByBits(members: seq<ValidatorIndex>, bits: seq<bool>): (r: seq<ValidatorIndex>)
    ensures |r| <= |members|
    ensures forall v :: v in r ==> v in members
  {
    if members == [] then []
    else
      var rest := SelectByBits(members[1..], if bits == [] then [] else bits[1..]);
      if bits != [] && bits[0] then [members[0]] + rest else rest
  }

  /** Position `i` of `members` is selected by `bits`. */
  predicate Selected(bits: seq<bool>, i: nat) {
    i < |bits| && bits[i]
  }

  /** `sub` is obtained from `s` by deleting elements, keeping their order. */
  ghost predicate IsSubsequence(sub: seq<ValidatorIndex>, s: seq<ValidatorIndex>)
    decreases |s|
  {
    if sub == [] then true
    else if s == [] then false
    else (sub[0] == s[0] && IsSubsequence(sub[1..], s[1..])) || IsSubsequence(sub, s[1..])
  }

  /** Number of positions of `members` that `bits` selects. */
  function SetBitCount(members: seq<ValidatorIndex>, bits: seq<bool>): (n: nat)
    ensures n <= |members|
  {
    if members == [] then 0
    else (if bits != [] && bits[0] then 1 else 0) + SetBitCount(members[1..], if bits == [] then [] else bits[1..])
  }

  /** A validator is selected exactly when it sits at a selected position. */
  lemma {:induction false} SelectByBitsMembership(members: seq<ValidatorIndex>, bits: seq<bool>, v: ValidatorIndex)
    ensures v in SelectByBits(members, bits) <==>
            exists i :: 0 <= i < |members| && Selected(bits, i) && members[i] == v
    decreases |members|
  {
    if members != [] {
      var tailBits := if bits == [] then [] else bits[1..];
      SelectByBitsMembership(members[1..], tailBits, v);
      if v in SelectByBits(members, bits) {
        if bits != [] && bits[0] && v == members[0] {
          assert Selected(bits, 0) && members[0] == v;
        } else {
          assert v in SelectByBits(members[1..], tailBits);
          var i :| 0 <= i < |members[1..]| && Selected(tailBits, i) && members[1..][i] == v;
          assert Selected(bits, i + 1) && members[i + 1] == v;
        }
      }
      if exists i :: 0 <= i < |members| && Selected(bits, i) && members[i] == v {
        var i :| 0 <= i < |members| && Selected(bits, i) && members[i] == v;
        if i > 0 {
          assert Selected(tailBits, i - 1) && members[1..][i - 1] == v;
        }
      }
    }
  }

  /** The selection keeps member order and drops only unselected members. */
  lemma {:induction false} SelectByBitsIsSubsequence(members: seq<ValidatorIndex>, bits: seq<bool>)
    ensures IsSubsequence(SelectByBits(members, bits), members)
    decreases |members|
  {
    if members != [] {
      var tailBits := if bits == [] then [] else bits[1..];
      var rest := SelectByBits(members[1..], tailBits);
      SelectByBitsIsSubsequence(members[1..], tailBits);
      if bits != [] && bits[0] {
        assert ([members[0]] + rest)[1..] == rest;
      }
    }
  }

  /** The selection holds one entry per set bit that falls within the members. */
  lemma {:induction false} SelectByBitsLength(members: seq<ValidatorIndex>, bits: seq<bool>)
    ensures |SelectByBits(members, bits)| == SetBitCount(members, bits)
    decreases |members|
  {
    if members != [] {
      SelectByBitsLength(members[1..], if bits == [] then [] else bits[1..]);
    }
  }

  /** With no bit set, nobody is selected. */
  lemma {:induction false} SelectByBitsNoneSet(members: seq<ValidatorIndex>, bits: seq<bool>)
    requires forall i :: 0 <= i < |bits| ==> !bits[i]
    ensures SelectByBits(members, bits) == []
    decreases |members|
  {
    if members != [] {
      var tailBits := if bits == [] then [] else bits[1..];
      assert forall i :: 0 <= i < |tailBits| ==> !tailBits[i] by {
        forall i | 0 <= i < |tailBits| ensures !tailBits[i] {
          assert tailBits[i] == bits[i + 1];
        }
      }
      SelectByBitsNoneSet(members[1..], tailBits);
    }
  }

  /** Every entry of `s` is a valid index into a registry of `n` validators. */
  predicate AllBelow(s: seq<ValidatorIndex>, n: nat) {
    forall v :: v in s ==> v < n
  }

  /** A prefix of a list of valid indices holds valid indices only. */
  lemma AllBelowPrefix(s: seq<ValidatorIndex>, k: nat, n: nat)
    requires AllBelow(s, n) && k <= |s|
    ensures AllBelow(s[..k], n)
  {
    forall v | v in s[..k] ensures v < n {
      var i :| 0 <= i < k && s[..k][i] == v;
      assert s[i] == v && s[i] in s;
    }
  }

  /** The smaller of two naturals. */
  function Min(a: nat, b: nat): (r: nat)
    ensures r <= a && r <= b
    ensures r == a || r == b
  {
    if a <= b then a else b
  }

  /** Sum of a sequence of balances. */
  function Sum(s: seq<Gwei>): nat {
    if s == [] then 0 else s[0] + Sum(s[1..])
  }

  /** Replacing one entry changes the sum by the difference. */
  lemma {:induction false} SumUpdate(s: seq<Gwei>, i: nat, v: Gwei)
    requires i < |s|
    ensures Sum(s[i := v]) + s[i] == Sum(s) + v
    decreases |s|
  {
    if i > 0 {
      SumUpdate(s[1..], i - 1, v);
      assert s[i := v][1..] == s[1..][i - 1 := v];
    } else {
      assert s[i := v][1..] == s[1..];
    }
  }
}
