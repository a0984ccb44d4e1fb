/** A 1024-entry ring addressed by absolute sample numbers. */
module Ring {

  const RING: nat := 1024

  /** Slot numbers of samples less than a lap apart differ. */
  lemma SlotsDiffer(i: nat, j: nat)
    requires i < j < i + RING
    ensures i % RING != j % RING
  {}

  lemma NextSlot(i: nat)
    ensures (i + 1) % RING == (i % RING + 1) % RING
  {}

  /** Slots hold the samples log[lo..]. */
  ghost predicate Holds(slots: seq<nat>, log: seq<nat>, lo: nat) {
    |slots| == RING && lo <= |log| && forall i: nat :: lo <= i < |log| ==> slots[i % RING] == log[i]
  }

  /** Storing the next sample overwrites no sample still to be read. */
  lemma HoldsPush(slots: seq<nat>, log: seq<nat>, lo: nat, x: nat)
    requires Holds(slots, log, lo) && |log| + 1 < lo + RING
    ensures Holds(slots[|log| % RING := x], log + [x], lo)
  {
    forall i: nat | lo <= i < |log| + 1
      ensures slots[|log| % RING := x][i % RING] == (log + [x])[i]
    {
      if i < |log| {
        SlotsDiffer(i, |log|);
      }
    }
  }

  lemma HoldsLater(slots: seq<nat>, log: seq<nat>, lo: nat, lo': nat)
    requires Holds(slots, log, lo) && lo <= lo' <= |log|
    ensures Holds(slots, log, lo')
  {}
}
