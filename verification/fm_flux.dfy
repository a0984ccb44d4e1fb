/** FM data fields as flux: written at one speed, hunted for and read at another. */
module FmFlux {
  import opened Arithmetic
  import opened Bits
  import opened Mfm
  import opened Flux
  import opened Reader
  import opened Hunt
  import opened EndToEnd
  import opened Fm
  import opened FmSector

  // ----- the cells of a field

  function FmFieldCells(buf: seq<bv8>, gap3: nat): seq<bool> { BitsOf(FmMarked(FmSectorWrite(buf, gap3))) }

  lemma MarkData(data: seq<bv8>, i: nat)
    requires |data| >= 7 && data[6] == 0xfb && 2 <= i <= 3
    ensures BitsOf(FmMarked(data))[96 + 2 * i + 1]
  {
    hide BitsOf, FmMarked;
    FmMarkedCells(data, 6, i);
    BitAt(data, 6, i);
    if i == 2 {} else {}
  }

  /** Where the mark has no clocks it has data. */
  lemma FmFieldIsDense(data: seq<bv8>)
    requires |data| >= 7 && data[6] == 0xfb
    ensures Dense(BitsOf(FmMarked(data)))
  {
    hide BitsOf, FmMarked, FmLawful, FmDropped;
    var c := BitsOf(FmMarked(data));
    FmMarkedIsLawful(data);
    forall k: nat | k + 3 < |c|
      ensures c[k] || c[k + 1] || c[k + 2] || c[k + 3]
    {
      var e := if k % 2 == 0 then k else k + 1;
      ClockThere(c, {6}, e);
      ClockThere(c, {6}, e + 2);
      BetweenDropped(e);
      MarkData(data, 2);
      MarkData(data, 3);
    }
  }

  lemma BetweenDropped(e: nat)
    ensures FmDropped(e, {6}) && FmDropped(e + 2, {6}) ==> e + 1 == 96 + 5 || e + 1 == 96 + 7
  {}

  // ----- the hunt

  /** The hunt's pattern stands in the cells from t - 1 on, or would if the cell before t were empty. */
  predicate FmTailAt(c: seq<bool>, t: nat) {
    t + 31 <= |c| && FmMatch([false] + c[t..t + 31])
  }

  lemma FmTailClocks(c: seq<bool>, t: nat)
    requires FmTailAt(c, t)
    ensures t + 31 <= |c|
    ensures !c[t + 1] && !c[t + 3] && !c[t + 5] && !c[t + 7] && !c[t + 20]
    ensures c[t + 18] && c[t + 26]
  {
    hide FmMatch;
    var w := [false] + c[t..t + 31];
    FmMatchAt(w, 2); FmMatchAt(w, 4); FmMatchAt(w, 6); FmMatchAt(w, 8);
    FmMatchAt(w, 19); FmMatchAt(w, 21); FmMatchAt(w, 27);
  }

  /** That needs a marked word, of which the pattern covers all but the last cell. */
  lemma FmTailUnambiguous(c: seq<bool>, marks: set<nat>, t: nat)
    requires FmLawful(c, marks) && FmTailAt(c, t)
    ensures (t + 16) % 16 == 0 && (t + 16) / 16 in marks
  {
    hide FmTailAt, FmLawful, FmDropped;
    FmTailClocks(c, t);
    if t % 2 == 1 {
      ClockThere(c, marks, t + 1);
      ClockThere(c, marks, t + 3);
      ClockThere(c, marks, t + 5);
      ClockThere(c, marks, t + 7);
      FourClocks(marks, t + 1);
    } else {
      ClockThere(c, marks, t + 20);
      ClockThere(c, marks, t + 18);
      FirstDropped(marks, t + 20);
    }
  }

  /** When the hunt fires, all but the first cell of its window is the stream's own. */
  lemma FmFiresOnTail(c: seq<bool>, f: nat, counts: seq<Gap>, k: nat)
    requires Heard(c, f, counts) && 0 < k <= |counts|
    requires Fires(SyncFm, Tail(Ones(32) + Unroll(counts[..k])))
    ensures 31 <= End(c, f + k) <= |c| && FmTailAt(c, End(c, f + k) - 31)
    ensures Tail(Ones(32) + Unroll(counts[..k]))[1..] == c[End(c, f + k) - 31..End(c, f + k)]
    ensures FirstCell(c, f) <= End(c, f + k) - 31
  {
    hide Gaps, Unroll, End, Ones, FirstCell, Tail, FmMatch;
    HeardWindow(c, f, counts, k);
    var w, q, e := Tail(Ones(32) + Unroll(counts[..k])), FirstCell(c, f), End(c, f + k);
    FmMatchAt(w, 0);
    FmMatchAt(w, 1);
    if q + 32 <= e {
      TailTail(c, e);
    }
    assert w == [false] + w[1..];
  }

  lemma TailTail(c: seq<bool>, e: nat)
    requires 32 <= e <= |c|
    ensures c[e - 32..e][1..] == c[e - 31..e]
  {}

  /** A pattern that lies wholly after the first reversal heard is never missed. */
  lemma FmSyncFires(c: seq<bool>, f: nat, counts: seq<Gap>, k: nat)
    requires Heard(c, f, counts) && 0 < k <= |counts|
    requires 32 <= End(c, f + k) <= |c| && FmSyncAt(c, End(c, f + k) - 32)
    requires FirstCell(c, f) <= End(c, f + k) - 32
    ensures Fires(SyncFm, Tail(Ones(32) + Unroll(counts[..k])))
  {
    hide Gaps, Unroll, End, Ones, FirstCell, Tail, FmMatch;
    HeardWindow(c, f, counts, k);
  }

  // ----- reading

  /** The first pattern that stands wholly in the cells from q on, or whose first cell alone lies before them. */
  predicate FmFirst(c: seq<bool>, q: nat, t: nat) {
    FmTailAt(c, t) && q <= t && forall o: nat :: q <= o && o + 1 < t ==> !FmSyncAt(c, o)
  }

  lemma FmEarlierFires(c: seq<bool>, f: nat, counts: seq<Gap>, k: nat, o: nat)
    requires Heard(c, f, counts) && 0 < k <= |counts| && FmSyncAt(c, o)
    requires FirstCell(c, f) <= o && o + 32 < End(c, f + k)
    ensures exists j :: 0 < j < k && Fires(SyncFm, Tail(Ones(32) + Unroll(counts[..j])))
  {
    hide Gaps, Unroll, Zeros, Ones, FirstCell, Tail, Fires, FmMatch;
    FirstCellIs(c, f);
    FmMatchAt(c[o..o + 32], 31);
    ReversalAt(c, o + 31);
    var n := |Gaps(c[..o + 32])|;
    UnrollUpTo(c, f + 1);
    if n <= f { EndMonotone(c, n, f + 1); }
    if n >= f + k { EndMonotone(c, f + k, n); }
    FmSyncFires(c, f, counts, n - f);
  }

  /** The hunt stops exactly at the first pattern. */
  lemma FmStopsAtFirst(c: seq<bool>, f: nat, counts: seq<Gap>, k: nat)
    requires Heard(c, f, counts) && StopsAt(SyncFm, Ones(32), counts, k)
    ensures 31 <= End(c, f + k) <= |c| && FmFirst(c, FirstCell(c, f), End(c, f + k) - 31)
    ensures Tail(Ones(32) + Unroll(counts[..k]))[1..] == c[End(c, f + k) - 31..End(c, f + k)]
  {
    hide Fires, Unroll, FmSyncAt, FmTailAt;
    FmFiresOnTail(c, f, counts, k);
    forall o: nat | FirstCell(c, f) <= o && o + 1 < End(c, f + k) - 31
      ensures !FmSyncAt(c, o)
    {
      if FmSyncAt(c, o) {
        FmEarlierFires(c, f, counts, k, o);
      }
    }
  }

  /** A completed read of a stream with FM marks stopped at the first of them heard whole and delivers the cells from the
      word before it on. */
  lemma FmReadDelivers(c: seq<bool>, marks: set<nat>, cell: nat, f: nat, prev: nat, caps: seq<nat>, max: nat,
                       bits: seq<bool>) returns (m: nat)
    requires cell > 0 && FmLawful(c, marks) && Faithful(c, cell, f, prev, caps)
    requires ReadResult(SyncFm, cell, prev, caps, max, bits)
    ensures m in marks && m > 0 && f < |Gaps(c)| && FmFirst(c, FirstCell(c, f), 16 * (m - 1))
    ensures 16 * (m - 1) + max <= |c| && bits == c[16 * (m - 1)..16 * (m - 1) + max]
  {
    hide FmLawful, Faithful, HuntResult, DecodeResult, FmFirst, ReadResult, Gaps, Started, End, FirstCell;
    var j, prev', seen, start, upto, prev'' := ReadParts(SyncFm, cell, prev, caps, max, bits);
    StartedFm(cell, prev, caps, j, prev', seen, start);
    FmHuntedCells(c, cell, f, prev, caps, j, seen, prev');
    DecodedCells(c, cell, f, prev, caps, j, prev', start, max, upto, prev'', bits);
    var t := End(c, f + j) - 31;
    FirstIsMarked(c, marks, FirstCell(c, f), t);
    m := (t + 16) / 16;
  }

  lemma StartedFm(cell: nat, first: nat, caps: seq<nat>, from: nat, prev: nat, seen: seq<bool>, start: seq<bool>)
    requires cell > 0 && Started(SyncFm, cell, first, caps, from, prev, seen, start)
    ensures HuntResult(SyncFm, cell, first, caps, 0, from, Ones(32), seen, prev, true)
    ensures |seen| >= 32 && start == seen[|seen| - 31..]
  {
    hide HuntResult;
  }

  lemma FirstIsMarked(c: seq<bool>, marks: set<nat>, q: nat, t: nat)
    requires FmLawful(c, marks) && FmFirst(c, q, t)
    ensures t % 16 == 0 && (t + 16) / 16 in marks && t == 16 * ((t + 16) / 16 - 1)
  {
    hide FmLawful, FmTailAt;
    FmTailUnambiguous(c, marks, t);
  }

  lemma FmHuntedCells(c: seq<bool>, cell: nat, f: nat, prev: nat, caps: seq<nat>, m: nat, seen: seq<bool>, prev': nat)
    requires cell > 0 && Faithful(c, cell, f, prev, caps)
    requires HuntResult(SyncFm, cell, prev, caps, 0, m, Ones(32), seen, prev', true)
    ensures 0 < m <= |caps| && f + |caps| <= |Gaps(c)|
    ensures prev' == LastCapture(prev, caps, 0, m)
    ensures f < |Gaps(c)| && 31 <= End(c, f + m) <= |c| && FmFirst(c, FirstCell(c, f), End(c, f + m) - 31)
    ensures |seen| >= 32 && seen[|seen| - 31..] == c[End(c, f + m) - 31..End(c, f + m)]
  {
    hide Unroll, Deltas, FmFirst, FmMatch;
    assert caps[0..] == caps;
    FaithfulHuntIsHeard(c, cell, f, prev, caps);
    FmStopsAtFirst(c, f, HuntCounts(Deltas(prev, caps), cell), m);
    assert seen[|seen| - 31..] == Tail(seen)[1..];
  }

  /** The converse: once enough of the stream after a whole pattern has been heard, the read is complete. */
  lemma FmReadCompletes(c: seq<bool>, cell: nat, f: nat, prev: nat, caps: seq<nat>, o: nat, max: nat)
    requires cell > 0 && Faithful(c, cell, f, prev, caps) && |caps| > 0
    requires FirstCell(c, f) <= o && FmSyncAt(c, o)
    requires o + 32 <= End(c, f + |caps|) && o + 1 + max <= End(c, f + |caps|)
    ensures exists bits :: ReadResult(SyncFm, cell, prev, caps, max, bits)
  {
    hide Faithful, Unroll, Deltas, HuntCounts, LoopCounts, Fires, Gaps, FirstCell, FmMatch, FmTailAt;
    FmMatchAt(c[o..o + 32], 31);
    var counts := HuntCounts(Deltas(prev, caps), cell);
    FaithfulHuntIsHeard(c, cell, f, prev, caps);
    var n := SyncReversal(c, cell, f, prev, caps, o);
    UnrollUpTo(c, f + n);
    FmSyncFires(c, f, counts, n);
    var k := FirstFire(SyncFm, Ones(32), counts, n);
    EndMonotone(c, f + k, f + n);
    var seen, prev' := Ones(32) + Unroll(counts[..k]), LastCapture(prev, caps, 0, k);
    assert caps[0..] == caps;
    assert HuntResult(SyncFm, cell, prev, caps, 0, k, Ones(32), seen, prev', true);
    var start := seen[|seen| - 31..];
    assert Started(SyncFm, cell, prev, caps, k, prev', seen, start);
    FaithfulLoopCounts(c, cell, f, prev, caps, k);
    UnrollBetween(c, f + k, f + |caps|);
    var all := start + Unroll(LoopCounts(Deltas(prev', caps[k..]), cell));
    assert DecodeResult(cell, prev', caps, k, start, max, k, prev', all[..max], true);
    assert ReadResult(SyncFm, cell, prev, caps, max, all[..max]);
  }

  /** mem was filled by a read, at cell ticks a cell, of the cells c written at w ticks a cell. */
  ghost predicate FmReadInto(c: seq<bool>, w: nat, cell: nat, f: nat, prev: nat, caps: seq<nat>, mem: seq<bv8>)
    requires cell > 0
  {
    Replays(Samples(c, w), f, prev, caps) && ReadResult(SyncFm, cell, prev, caps, 8 * |mem|, BitsOf(mem))
  }

  /** An FM data field written at w ticks a cell and read at another speed from any starting point: a read as long as the
      field fills memory with its words, and they decode to the gap byte and the field. */
  lemma FmSectorAcrossSpeeds(buf: seq<bv8>, gap3: nat, w: nat, cell: nat, f: nat, prev: nat, caps: seq<nat>,
                             mem: seq<bv8>)
    requires w > 0 && cell > 0 && 4 * w < U16 && Tolerant(w, cell)
    requires |mem| == 2 * (4 + |buf|) && FmReadInto(FmFieldCells(buf, gap3), w, cell, f, prev, caps, mem)
    ensures mem == FmFieldWords(buf, gap3)
    ensures |mem| % 2 == 0 && Decode(mem) == [0x00] + FmField(buf)
  {
    hide BitsOf, FmMarked, FmSectorWrite, FmLawful, Faithful, Replays, Samples, ReadResult, Tolerant, Dense, Decode,
         FmField, PackBytes;
    var d := FmSectorWrite(buf, gap3);
    var c := BitsOf(FmMarked(d));
    FmSectorParts(buf, gap3);
    FmMarkedIsLawful(d);
    FmFieldIsDense(d);
    DenseIsFaithful(c, w, cell, f, prev, caps);
    var m := FmReadDelivers(c, {6}, cell, f, prev, caps, 8 * |mem|, BitsOf(mem));
    FmFieldReadsBack(buf, gap3, 0);
    BitsOfSlice(FmMarked(d), 10, 10 + |mem|);
    PackBitsOf(mem);
    PackBitsOf(FmMarked(d)[10..10 + |mem|]);
  }
}
