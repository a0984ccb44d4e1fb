/** Streams of MFM cells carrying sync words, and what a sync detector can see in them. */
module Stream {

  /** 0x4489: the cells of 0xa1 with the clock between its fifth and sixth bits dropped. */
  const SYNC_WORD: seq<bool> := [
    false, true, false, false, false, true, false, false,
    true, false, false, false, true, false, false, true
  ]

  const SYNC_PAIR: seq<bool> := SYNC_WORD + SYNC_WORD

  /** Clock cell k is the one a sync word drops. */
  predicate Dropped(k: int, marks: set<nat>) {
    k >= 0 && k % 16 == 10 && k / 16 in marks
  }

  predicate Marked(c: seq<bool>, marks: set<nat>) {
    forall m :: m in marks ==> 16 * m + 16 <= |c| && c[16 * m..16 * m + 16] == SYNC_WORD
  }

  predicate ClockOk(c: seq<bool>, k: int)
    requires 0 < k && k + 1 < |c|
  {
    c[k] == (!c[k - 1] && !c[k + 1])
  }

  predicate Clocked(c: seq<bool>, marks: set<nat>) {
    forall k :: 0 < k && k + 1 < |c| && k % 2 == 0 && !Dropped(k, marks) ==> ClockOk(c, k)
  }

  /** MFM cells that obey the clock rule everywhere, except that the words at marks are sync words. */
  predicate Lawful(c: seq<bool>, marks: set<nat>) {
    && |c| % 16 == 0
    && (|c| > 0 && c[0] ==> !c[1])
    && Marked(c, marks)
    && Clocked(c, marks)
  }

  predicate SyncAt(c: seq<bool>, o: nat) {
    o + 32 <= |c| && c[o..o + 32] == SYNC_PAIR
  }

  lemma MarkedCells(c: seq<bool>, marks: set<nat>, m: nat)
    requires Marked(c, marks) && m in marks
    ensures 16 * m + 16 <= |c|
    ensures forall j | 0 <= j < 16 :: c[16 * m + j] == SYNC_WORD[j]
  {
    forall j | 0 <= j < 16
      ensures c[16 * m + j] == SYNC_WORD[j]
    {
      assert c[16 * m + j] == c[16 * m..16 * m + 16][j];
    }
  }

  lemma DroppedCells(c: seq<bool>, marks: set<nat>, k: int)
    requires Marked(c, marks) && Dropped(k, marks)
    ensures 2 <= k && k + 2 < |c|
    ensures c[k - 2] && !c[k - 1] && !c[k] && !c[k + 1] && c[k + 2]
  {
    MarkedCells(c, marks, k / 16);
    assert k == 16 * (k / 16) + 10;
    assert c[16 * (k / 16) + 8] && !c[16 * (k / 16) + 9] && !c[16 * (k / 16) + 10];
    assert !c[16 * (k / 16) + 11] && c[16 * (k / 16) + 12];
  }

  /** Three empty cells around a clock position betray a dropped clock. */
  lemma MissingClock(c: seq<bool>, marks: set<nat>, k: nat)
    requires Lawful(c, marks)
    requires 0 < k && k + 1 < |c| && k % 2 == 0
    requires !c[k - 1] && !c[k] && !c[k + 1]
    ensures Dropped(k, marks)
  {
    assert !ClockOk(c, k);
  }

  lemma Phase(o: nat)
    ensures (o + 10) % 16 == 10 ==> o % 16 == 0 && (o + 10) / 16 == o / 16
    ensures (o + 3) % 16 == 10 ==> o % 16 == 7 && (o + 3) / 16 == o / 16
  {}

  lemma Paired(n: nat, k: nat)
    requires n % 16 == 0 && k % 2 == 0 && k < n
    ensures k + 1 < n
  {}

  lemma ClockAt(c: seq<bool>, marks: set<nat>, k: int)
    requires Lawful(c, marks)
    requires 0 < k < |c| && k % 2 == 0
    ensures k + 1 < |c|
    ensures c[k] ==> !c[k - 1] && !c[k + 1]
    ensures !c[k - 1] && !c[k] && !c[k + 1] ==> 2 <= k && k + 2 < |c| && c[k - 2] && c[k + 2]
  {
    hide Dropped, Marked;
    Paired(|c|, k);
    if Dropped(k, marks) {
      DroppedCells(c, marks, k);
    } else {
      assert ClockOk(c, k);
    }
  }

  /** A single sync word shows up nowhere, at no bit offset and in neither phase, but at a marked word. */
  lemma WordUnambiguous(c: seq<bool>, marks: set<nat>, o: nat)
    requires Lawful(c, marks) && o + 16 <= |c|
    requires c[o..o + 16] == SYNC_WORD
    ensures if o % 2 == 0 then o % 16 == 0 && o / 16 in marks else o % 16 == 7 && o / 16 in marks
  {
    var k := if o % 2 == 0 then 10 else 3;
    assert !SYNC_WORD[k - 1] && !SYNC_WORD[k] && !SYNC_WORD[k + 1];
    assert c[o..o + 16][k - 1] == c[o + k - 1] && c[o..o + 16][k] == c[o + k] && c[o..o + 16][k + 1] == c[o + k + 1];
    MissingClock(c, marks, o + k);
    Phase(o);
  }

  lemma HalfWordShift(c: seq<bool>, marks: set<nat>, o: nat)
    requires Marked(c, marks) && o % 16 == 7 && o / 16 + 1 in marks
    ensures !SyncAt(c, o)
  {
    MarkedCells(c, marks, o / 16 + 1);
    assert c[16 * (o / 16 + 1) + 1] && 16 * (o / 16 + 1) + 1 == o + 10;
    if o + 32 <= |c| {
      assert c[o..o + 32][10] != SYNC_PAIR[10];
    }
  }

  /** The detector's 32-cell pattern occurs exactly where two marked words follow one another. */
  lemma SyncUnambiguous(c: seq<bool>, marks: set<nat>, o: nat)
    requires Lawful(c, marks)
    ensures SyncAt(c, o) <==> o % 16 == 0 && o / 16 in marks && o / 16 + 1 in marks
  {
    if SyncAt(c, o) {
      assert c[o..o + 16] == c[o..o + 32][..16];
      assert c[o + 16..o + 32] == c[o..o + 32][16..];
      WordUnambiguous(c, marks, o);
      WordUnambiguous(c, marks, o + 16);
      if o % 16 == 7 {
        HalfWordShift(c, marks, o);
      }
    }
    if o % 16 == 0 && o / 16 in marks && o / 16 + 1 in marks {
      assert c[o..o + 32] == c[o..o + 16] + c[o + 16..o + 32];
    }
  }

  /** Flux reversals are never closer than two cells and never further apart than four. */
  lemma RunLengths(c: seq<bool>, marks: set<nat>, k: nat)
    requires Lawful(c, marks)
    ensures k + 1 < |c| ==> !(c[k] && c[k + 1])
    ensures k + 3 < |c| ==> c[k] || c[k + 1] || c[k + 2] || c[k + 3]
  {
    if k + 1 < |c| && k % 2 == 1 {
      ClockAt(c, marks, k + 1);
    } else if 0 < k && k + 1 < |c| {
      ClockAt(c, marks, k);
    }
    if k + 3 < |c| {
      ClockAt(c, marks, if k % 2 == 0 then k + 2 else k + 1);
    }
  }
}
