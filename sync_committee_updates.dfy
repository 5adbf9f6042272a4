/**
 * Epoch processing of the sync-committee rotation (altair): at the last
 * epoch of every sync-committee period the next committee becomes the
 * current one and a freshly derived committee becomes the next.
 */
module SyncCommitteeUpdates {
  import opened Common
  import opened State

  /** EPOCHS_PER_SYNC_COMMITTEE_PERIOD of the minimal preset. */
  const MINIMAL_EPOCHS_PER_SYNC_COMMITTEE_PERIOD: Positive := 8
  /** EPOCHS_PER_SYNC_COMMITTEE_PERIOD of the mainnet preset. */
  const MAINNET_EPOCHS_PER_SYNC_COMMITTEE_PERIOD: Positive := 256

  /** The epoch being processed is the last of its period: the next epoch starts a new one. */
  predicate IsPeriodEnd(currentEpoch: Epoch, period: Positive) {
    (currentEpoch + 1) % period == 0
  }

  /**
   * processSyncCommitteeUpdates. `derivedNext` stands for the committee
   * that rotateSyncCommittee derives from the active validators and the seed.
   * The decision reads nothing but the epoch being processed.
   */
  method ProcessSyncCommitteeUpdates(state: BeaconState, currentEpoch: Epoch, period: Positive,
                                     derivedNext: seq<ValidatorIndex>)
    requires state.Valid()
    modifies state`currentSyncCommitteeIndices, state`nextSyncCommitteeIndices
    ensures state.Valid()
    ensures IsPeriodEnd(currentEpoch, period) ==>
              && state.currentSyncCommitteeIndices == old(state.nextSyncCommitteeIndices)
              && state.nextSyncCommitteeIndices == derivedNext
    ensures !IsPeriodEnd(currentEpoch, period) ==>
              && state.currentSyncCommitteeIndices == old(state.currentSyncCommitteeIndices)
              && state.nextSyncCommitteeIndices == old(state.nextSyncCommitteeIndices)
  {
    var nextEpoch := currentEpoch + 1;
    if nextEpoch % period == 0 {
      state.RotateSyncCommittee(derivedNext);
    }
  }

  // Properties of the rotation schedule.

  /** Euclidean division is unique: a quotient and a remainder below `p` determine the remainder. */
  lemma RemainderUnique(x: nat, p: Positive, q: nat, rem: nat)
    requires x == p * q + rem && rem < p
    ensures x % p == rem
  {
    var k := x / p;
    assert x == p * k + x % p;
    if k < q {
      assert p * k + p <= p * q by { MultiplyMonotone(p, k + 1, q); }
    } else if k > q {
      assert p * q + p <= p * k by { MultiplyMonotone(p, q + 1, k); }
    }
  }

  lemma MultiplyMonotone(p: nat, a: nat, b: nat)
    requires a <= b
    ensures p * a <= p * b
  {
  }

  /** A number strictly between two consecutive multiples of `p` is not a multiple of `p`. */
  lemma NotMultipleBetween(x: nat, q: nat, p: Positive)
    requires p * q < x < p * (q + 1)
    ensures x % p != 0
  {
    RemainderUnique(x, p, q, x - p * q);
  }

  /**
   * The first epoch at or after `epoch` that ends a period: it lies less than
   * one period ahead, and no epoch before it in between ends a period.
   */
  function NextRotationEpoch(epoch: Epoch, period: Positive): (r: Epoch)
    ensures epoch <= r < epoch + period
    ensures IsPeriodEnd(r, period)
    ensures forall e :: epoch <= e < r ==> !IsPeriodEnd(e, period)
  {
    var q := epoch / period;
    assert epoch == period * q + epoch % period;
    var r := epoch + (period - 1 - epoch % period);
    assert r + 1 == period * (q + 1);
    RemainderUnique(r + 1, period, q + 1, 0);
    forall e | epoch <= e < r ensures !IsPeriodEnd(e, period) {
      NotMultipleBetween(e + 1, q, period);
    }
    r
  }

  /** Number of rotations while processing the `count` epochs from `start` on. */
  function Rotations(start: Epoch, count: nat, period: Positive): nat {
    if count == 0 then 0
    else Rotations(start, count - 1, period) + (if IsPeriodEnd(start + count - 1, period) then 1 else 0)
  }

  /** Counting over consecutive stretches adds up. */
  lemma {:induction false} RotationsSplit(start: Epoch, m: nat, n: nat, period: Positive)
    ensures Rotations(start, m + n, period) == Rotations(start, m, period) + Rotations(start + m, n, period)
    decreases n
  {
    if n > 0 {
      RotationsSplit(start, m, n - 1, period);
    }
  }

  /** A stretch without a period end has no rotation. */
  lemma {:induction false} RotationsNone(start: Epoch, n: nat, period: Positive)
    requires forall e :: start <= e < start + n ==> !IsPeriodEnd(e, period)
    ensures Rotations(start, n, period) == 0
    decreases n
  {
    if n > 0 {
      RotationsNone(start, n - 1, period);
    }
  }

  /**
   * Over any `period` consecutive epochs the committee rotates exactly once,
   * whichever epoch the stretch starts at.
   */
  lemma OneRotationPerPeriod(start: Epoch, period: Positive)
    ensures Rotations(start, period, period) == 1
  {
    var r := NextRotationEpoch(start, period);
    var before := r - start;
    var after := start + period - r - 1;
    var q := start / period;
    assert start == period * q + start % period;
    assert r + 1 == period * (q + 1);
    forall e | r + 1 <= e < r + 1 + after ensures !IsPeriodEnd(e, period) {
      NotMultipleBetween(e + 1, q + 1, period);
    }
    RotationsNone(start, before, period);
    RotationsNone(r + 1, after, period);
    RotationsSplit(start, before, 1, period);
    RotationsSplit(start, before + 1, after, period);
    assert Rotations(r, 1, period) == 1;
  }

  /** With the minimal preset the committee rotates while processing epochs 7 and 15, not at 8. */
  lemma MinimalPresetSchedule()
    ensures IsPeriodEnd(7, MINIMAL_EPOCHS_PER_SYNC_COMMITTEE_PERIOD)
    ensures IsPeriodEnd(15, MINIMAL_EPOCHS_PER_SYNC_COMMITTEE_PERIOD)
    ensures !IsPeriodEnd(8, MINIMAL_EPOCHS_PER_SYNC_COMMITTEE_PERIOD)
    ensures NextRotationEpoch(0, MINIMAL_EPOCHS_PER_SYNC_COMMITTEE_PERIOD) == 7
    ensures NextRotationEpoch(8, MINIMAL_EPOCHS_PER_SYNC_COMMITTEE_PERIOD) == 15
  {
  }

  /** With the mainnet preset the first rotation happens while processing epoch 255. */
  lemma MainnetPresetSchedule()
    ensures NextRotationEpoch(0, MAINNET_EPOCHS_PER_SYNC_COMMITTEE_PERIOD) == 255
  {
  }
}
