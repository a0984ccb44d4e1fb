/** From bytes to flux and back: what a read at one speed recovers of a write at another. */
module EndToEnd {
  import opened Arithmetic
  import opened Bits
  import opened Mfm
  import opened Stream
  import opened Marks
  import opened Flux
  import opened Reader
  import opened Hunt

  // ----- gaps of a stream without long runs of empty cells

  /** One in any four cells in a row holds a reversal. */
  predicate Dense(c: seq<bool>) {
    forall k {:trigger c[k]} :: 0 <= k && k + 3 < |c| ==> c[k] || c[k + 1] || c[k + 2] || c[k + 3]
  }

  lemma LawfulIsDense(c: seq<bool>, marks: set<nat>)
    requires Lawful(c, marks)
    ensures Dense(c)
  {
    hide Lawful;
    forall k: nat | k + 3 < |c|
      ensures c[k] || c[k + 1] || c[k + 2] || c[k + 3]
    {
      RunLengths(c, marks, k);
    }
  }

  lemma PendingAtMost(c: seq<bool>, x: nat)
    requires Dense(c) && x <= |c|
    ensures Pending(c[..x]) <= 3
  {
    var d := c[..x];
    PendingAreEmpty(d);
    if x >= 4 {
      assert c[x - 4] == d[x - 4] && c[x - 3] == d[x - 3] && c[x - 2] == d[x - 2] && c[x - 1] == d[x - 1];
    }
  }

  /** Reversals of a dense stream are at most four cells apart. */
  lemma {:induction false} GapsAtMostFour(c: seq<bool>, x: nat)
    requires Dense(c) && x <= |c|
    ensures forall i :: 0 <= i < |Gaps(c[..x])| ==> Gaps(c[..x])[i] <= 4
  {
    hide Dense;
    if x > 0 {
      assert c[..x][..x - 1] == c[..x - 1];
      GapsAtMostFour(c, x - 1);
      PendingAtMost(c, x - 1);
    }
  }

  lemma DenseGaps(c: seq<bool>)
    requires Dense(c)
    ensures forall i :: 0 <= i < |Gaps(c)| ==> Gaps(c)[i] <= 4
    ensures Pending(c) <= 3
  {
    hide Dense;
    assert c[..|c|] == c;
    GapsAtMostFour(c, |c|);
    PendingAtMost(c, |c|);
  }

  /** At up to 16384 ticks a cell no interval of a dense stream is truncated. */
  lemma DenseFits(c: seq<bool>, w: nat)
    requires Dense(c) && 4 * w <= U16
    ensures Fits(c, w)
  {
    hide Dense;
    DenseGaps(c);
    forall i | 0 <= i < |Gaps(c)|
      ensures Gaps(c)[i] * w <= U16
    {
      MulMono(Gaps(c)[i], 4, w);
    }
    MulMono(Pending(c) + 1, 4, w);
  }

  // ----- the channel

  /** The captures hear reversals f, f+1, .. of the emitted samples; the first is timed from anywhere. */
  predicate Replays(samples: seq<nat>, f: nat, prev: nat, caps: seq<nat>) {
    && f + |caps| <= |samples|
    && forall i :: 1 <= i < |caps| ==> Deltas(prev, caps)[i] == (samples[f + i] + 1) % U16
  }

  /** Each interval after the first rounds, both ways, to the gap it was written for. */
  predicate Faithful(c: seq<bool>, cell: nat, f: nat, prev: nat, caps: seq<nat>)
    requires cell > 0
  {
    && f + |caps| <= |Gaps(c)|
    && forall i :: 1 <= i < |caps| ==> RoundsTo(Deltas(prev, caps)[i], cell, Gaps(c)[f + i])
  }

  predicate RoundsTo(delta: nat, cell: nat, gap: Gap)
    requires cell > 0
  {
    CellCount(delta, cell) == gap && ClosedCount(delta, cell) == gap
  }

  lemma SmallGaps(n: Gap, w: nat, cell: nat)
    requires w > 0 && cell > 0 && Tolerant(w, cell) && n <= 4
    ensures RoundsTo(n * w, cell, n)
  {
    if n == 1 {
      CellCountWindow(w, cell, 1);
      ClosedCountWindow(w, cell, 1);
    } else {
      SpeedTolerance(w, cell);
    }
  }

  /** A speed error within tolerance leaves every interval of a dense stream intact. */
  lemma DenseIsFaithful(c: seq<bool>, w: nat, cell: nat, f: nat, prev: nat, caps: seq<nat>)
    requires Dense(c) && w > 0 && cell > 0 && 4 * w < U16 && Tolerant(w, cell)
    requires Replays(Samples(c, w), f, prev, caps)
    ensures Faithful(c, cell, f, prev, caps)
  {
    hide Dense, Deltas, Fits, RoundsTo, Tolerant;
    DenseFits(c, w);
    DenseGaps(c);
    SamplesExact(c, w);
    forall i | 1 <= i < |caps|
      ensures RoundsTo(Deltas(prev, caps)[i], cell, Gaps(c)[f + i])
    {
      SampleRounds(Gaps(c)[f + i], w, cell, Samples(c, w)[f + i]);
    }
  }

  /** And so of a lawful one. */
  lemma SpeedSkewIsFaithful(c: seq<bool>, marks: set<nat>, w: nat, cell: nat, f: nat, prev: nat, caps: seq<nat>)
    requires Lawful(c, marks) && w > 0 && cell > 0 && 4 * w < U16 && Tolerant(w, cell)
    requires Replays(Samples(c, w), f, prev, caps)
    ensures Faithful(c, cell, f, prev, caps)
  {
    hide *;
    LawfulIsDense(c, marks);
    DenseIsFaithful(c, w, cell, f, prev, caps);
  }

  lemma SampleRounds(g: Gap, w: nat, cell: nat, sample: nat)
    requires w > 0 && cell > 0 && 4 * w < U16 && Tolerant(w, cell) && g <= 4 && sample == g * w - 1
    ensures RoundsTo((sample + 1) % U16, cell, g)
  {
    hide RoundsTo, Tolerant;
    MulMono(g, 4, w);
    MulMono(1, g, w);
    SmallGaps(g, w, cell);
  }

  /** So does any jitter that keeps each interval within half a cell of its gap. */
  lemma JitterIsFaithful(c: seq<bool>, cell: nat, f: nat, prev: nat, caps: seq<nat>)
    requires cell > 0 && f + |caps| <= |Gaps(c)|
    requires forall i :: 1 <= i < |caps| ==>
      var d := Deltas(prev, caps)[i] - Gaps(c)[f + i] * cell;
      -(cell as int) < 2 * d < cell && d != cell / 2
    ensures Faithful(c, cell, f, prev, caps)
  {
    hide Deltas;
    forall i | 1 <= i < |caps|
      ensures RoundsTo(Deltas(prev, caps)[i], cell, Gaps(c)[f + i])
    {
      var g := Gaps(c)[f + i];
      JitterTolerance(g, cell, Deltas(prev, caps)[i] - g * cell);
    }
  }

  // ----- reading

  lemma FaithfulHuntIsHeard(c: seq<bool>, cell: nat, f: nat, prev: nat, caps: seq<nat>)
    requires cell > 0 && Faithful(c, cell, f, prev, caps)
    ensures Heard(c, f, HuntCounts(Deltas(prev, caps), cell))
  {}

  lemma FaithfulLoopCounts(c: seq<bool>, cell: nat, f: nat, prev: nat, caps: seq<nat>, m: nat)
    requires cell > 0 && Faithful(c, cell, f, prev, caps) && 0 < m <= |caps|
    ensures LoopCounts(Deltas(LastCapture(prev, caps, 0, m), caps[m..]), cell) == Gaps(c)[f + m..f + |caps|]
  {
    var d := Deltas(LastCapture(prev, caps, 0, m), caps[m..]);
    forall i | 0 <= i < |d|
      ensures CellCount(d[i], cell) == Gaps(c)[f + m + i]
    {
      assert d[i] == Deltas(prev, caps)[m + i];
      assert RoundsTo(Deltas(prev, caps)[m + i], cell, Gaps(c)[f + (m + i)]);
    }
  }

  /** The hunt and the decoding run of a completed read. */
  lemma ReadParts(sync: Sync, cell: nat, prev: nat, caps: seq<nat>, max: nat, bits: seq<bool>)
    returns (m: nat, prev': nat, seen: seq<bool>, start: seq<bool>, upto: nat, prev'': nat)
    requires cell > 0 && ReadResult(sync, cell, prev, caps, max, bits)
    ensures Started(sync, cell, prev, caps, m, prev', seen, start)
    ensures DecodeResult(cell, prev', caps, m, start, max, upto, prev'', bits, true)
  {
    hide Started, DecodeResult;
    m, prev', seen, start :| Started(sync, cell, prev, caps, m, prev', seen, start) &&
      exists upto, prev'' :: DecodeResult(cell, prev', caps, m, start, max, upto, prev'', bits, true);
    upto, prev'' :| DecodeResult(cell, prev', caps, m, start, max, upto, prev'', bits, true);
  }

  /** A completed read of a lawful stream, started anywhere, delivers the stream's own cells from the
      first sync pattern on. */
  lemma ReadDeliversStream(c: seq<bool>, marks: set<nat>, cell: nat, f: nat, prev: nat, caps: seq<nat>,
                           max: nat, bits: seq<bool>)
    requires cell > 0 && Lawful(c, marks) && Faithful(c, cell, f, prev, caps)
    requires ReadResult(SyncMfm, cell, prev, caps, max, bits)
    ensures f < |Gaps(c)|
    ensures exists o: nat :: FirstSync(c, FirstCell(c, f), o) && o + max <= |c| && bits == c[o..o + max]
  {
    hide Lawful, Faithful, HuntResult, DecodeResult, ReadResult;
    var m, prev', seen, start, upto, prev'' := ReadParts(SyncMfm, cell, prev, caps, max, bits);
    HuntedCells(c, marks, cell, f, prev, caps, m, seen, prev');
    DecodedCells(c, cell, f, prev, caps, m, prev', start, max, upto, prev'', bits);
    var o := End(c, f + m) - 32;
    assert FirstSync(c, FirstCell(c, f), o) && o + max <= |c| && bits == c[o..o + max];
  }

  lemma HuntedCells(c: seq<bool>, marks: set<nat>, cell: nat, f: nat, prev: nat, caps: seq<nat>, m: nat,
                    seen: seq<bool>, prev': nat)
    requires cell > 0 && Lawful(c, marks) && Faithful(c, cell, f, prev, caps)
    requires HuntResult(SyncMfm, cell, prev, caps, 0, m, Ones(32), seen, prev', true)
    ensures f < |Gaps(c)| && 0 < m <= |caps| && f + |caps| <= |Gaps(c)|
    ensures prev' == LastCapture(prev, caps, 0, m)
    ensures 32 <= End(c, f + m) <= |c| && FirstSync(c, FirstCell(c, f), End(c, f + m) - 32)
    ensures |seen| >= 32 && seen[|seen| - 32..] == c[End(c, f + m) - 32..End(c, f + m)]
  {
    hide Lawful, Unroll, Deltas;
    assert caps[0..] == caps;
    FaithfulHuntIsHeard(c, cell, f, prev, caps);
    StopsAtFirstSync(c, marks, f, HuntCounts(Deltas(prev, caps), cell), m);
  }

  lemma DecodedCells(c: seq<bool>, cell: nat, f: nat, prev: nat, caps: seq<nat>, m: nat, prev': nat,
                     start: seq<bool>, max: nat, upto: nat, prev'': nat, bits: seq<bool>)
    requires cell > 0 && Faithful(c, cell, f, prev, caps) && 0 < m <= |caps| && f + |caps| <= |Gaps(c)|
    requires prev' == LastCapture(prev, caps, 0, m)
    requires |start| <= End(c, f + m) <= |c| && start == c[End(c, f + m) - |start|..End(c, f + m)]
    requires DecodeResult(cell, prev', caps, m, start, max, upto, prev'', bits, true)
    ensures var o := End(c, f + m) - |start|;
            o + max <= |c| && bits == c[o..o + max]
  {
    hide Unroll, Deltas, LoopCounts, Gaps, Faithful;
    FaithfulLoopCounts(c, cell, f, prev, caps, m);
    UnrollBetween(c, f + m, f + |caps|);
    var o, e := End(c, f + m) - |start|, End(c, f + |caps|);
    CellsJoin(c, o, End(c, f + m), e, max);
  }

  lemma CellsJoin(c: seq<bool>, o: nat, m: nat, e: nat, max: nat)
    requires o <= m <= e <= |c|
    ensures c[o..m] + c[m..e] == c[o..e]
    ensures max <= e - o ==> c[o..e][..max] == c[o..o + max]
  {
    if max <= e - o {
      var u, v := c[o..e][..max], c[o..o + max];
      forall k | 0 <= k < max
        ensures u[k] == v[k]
      {
        assert u[k] == c[o..e][k];
      }
    }
  }

  lemma {:induction false} FirstFire(sync: Sync, before: seq<bool>, counts: seq<Gap>, n: nat) returns (k: nat)
    requires |before| >= 32 && 0 < n <= |counts| && Fires(sync, Tail(before + Unroll(counts[..n])))
    ensures k <= n && StopsAt(sync, before, counts, k)
    decreases n
  {
    hide Fires, Unroll, Tail;
    if SilentUpTo(sync, before, counts, n - 1) {
      k := n;
    } else {
      var j :| 0 < j <= n - 1 && Fires(sync, Tail(before + Unroll(counts[..j])));
      k := FirstFire(sync, before, counts, j);
    }
  }

  /** The converse: once enough of the stream after a whole sync pattern has been heard, the read is complete. */
  lemma ReadCompletes(c: seq<bool>, marks: set<nat>, cell: nat, f: nat, prev: nat, caps: seq<nat>, o: nat, max: nat)
    requires cell > 0 && Lawful(c, marks) && Faithful(c, cell, f, prev, caps) && |caps| > 0
    requires FirstCell(c, f) <= o && SyncAt(c, o) && o + 32 <= End(c, f + |caps|) && o + max <= End(c, f + |caps|)
    ensures exists bits :: ReadResult(SyncMfm, cell, prev, caps, max, bits)
  {
    hide Lawful, Faithful, Unroll, Deltas, HuntCounts, LoopCounts, Fires, Gaps, FirstCell, SyncAt;
    SyncEndsInReversal(c, o);
    var counts := HuntCounts(Deltas(prev, caps), cell);
    FaithfulHuntIsHeard(c, cell, f, prev, caps);
    var n := SyncReversal(c, cell, f, prev, caps, o);
    UnrollUpTo(c, f + n);
    SyncFires(c, f, counts, n);
    var k := FirstFire(SyncMfm, Ones(32), counts, n);
    EndMonotone(c, f + k, f + n);
    var seen, prev' := Ones(32) + Unroll(counts[..k]), LastCapture(prev, caps, 0, k);
    assert caps[0..] == caps;
    assert HuntResult(SyncMfm, cell, prev, caps, 0, k, Ones(32), seen, prev', true);
    var start := seen[|seen| - 32..];
    assert Started(SyncMfm, cell, prev, caps, k, prev', seen, start);
    FaithfulLoopCounts(c, cell, f, prev, caps, k);
    UnrollBetween(c, f + k, f + |caps|);
    var all := start + Unroll(LoopCounts(Deltas(prev', caps[k..]), cell));
    assert DecodeResult(cell, prev', caps, k, start, max, k, prev', all[..max], true);
    assert ReadResult(SyncMfm, cell, prev, caps, max, all[..max]);
  }

  lemma SyncEndsInReversal(c: seq<bool>, o: nat)
    requires SyncAt(c, o)
    ensures o + 32 <= |c| && c[o + 31]
  {
    assert c[o + 31] == c[o..o + 32][31];
  }

  lemma SyncReversal(c: seq<bool>, cell: nat, f: nat, prev: nat, caps: seq<nat>, o: nat) returns (n: nat)
    requires cell > 0 && Faithful(c, cell, f, prev, caps) && |caps| > 0
    requires FirstCell(c, f) <= o && o + 32 <= |c| && c[o + 31] && o + 32 <= End(c, f + |caps|)
    ensures 0 < n <= |caps| && f + n <= |Gaps(c)| && End(c, f + n) == o + 32
  {
    hide Gaps;
    ReversalAt(c, o + 31);
    var m := |Gaps(c[..o + 32])|;
    UnrollUpTo(c, f + 1);
    if m <= f { EndMonotone(c, m, f + 1); }
    if m > f + |caps| { EndMonotone(c, f + |caps|, m); }
    n := m - f;
  }

  // ----- back to bytes

  /** n words of marked memory from word s on decode to the n bytes from s on. */
  lemma CellsToBytes(prev: bv8, data: seq<bv8>, marks: set<nat>, s: nat, n: nat)
    requires MarksOn(data, marks) && s + n <= |data|
    ensures Decode(PackBytes(MarkedCellStream(prev, data, marks)[16 * s..16 * (s + n)])) == data[s..s + n]
  {
    hide BitsOf, Encode, PackBytes, MarkedBytes;
    var b := MarkedBytes(prev, data, marks);
    BitsOfSlice(b, 2 * s, 2 * (s + n));
    PackBitsOf(b[2 * s..2 * (s + n)]);
    DecodeMarked(prev, data, marks);
    DecodeSlice(b, s, n);
  }

  lemma DecodeSlice(b: seq<bv8>, s: nat, n: nat)
    requires |b| % 2 == 0 && 2 * (s + n) <= |b|
    ensures Decode(b[2 * s..2 * (s + n)]) == Decode(b)[s..s + n]
  {
    hide MfmToByte, Join;
  }

  /** mem was filled by a read, at cell ticks a cell, of the cells c written at w ticks a cell. */
  ghost predicate ReadInto(c: seq<bool>, w: nat, cell: nat, f: nat, prev: nat, caps: seq<nat>, mem: seq<bv8>)
    requires cell > 0
  {
    Replays(Samples(c, w), f, prev, caps) && ReadResult(SyncMfm, cell, prev, caps, 8 * |mem|, BitsOf(mem))
  }

  /** Two marked words in a row. */
  predicate IsPair(marks: set<nat>, s: nat) { s in marks && s + 1 in marks }

  /** Word s holds the first pair of marks that lies wholly in the cells from q on, or that began a cell before. */
  ghost predicate FirstPair(marks: set<nat>, q: nat, s: nat) {
    IsPair(marks, s) && q <= 16 * s + 1 && forall s': nat :: s' < s && q <= 16 * s' ==> !IsPair(marks, s')
  }

  /** out is what stands in data from the first pair of marks on. */
  ghost predicate FromFirstPair(data: seq<bv8>, marks: set<nat>, q: nat, out: seq<bv8>) {
    exists s: nat :: FirstPair(marks, q, s) && s + |out| <= |data| && out == data[s..s + |out|]
  }

  /** The cell of the first reversal heard, when there is one. */
  function HeardFrom(c: seq<bool>, f: nat): nat { if f < |Gaps(c)| then FirstCell(c, f) else 0 }

  /** The whole path: bytes encoded, marked, written at w ticks a cell and read at c ticks a cell, from an
      arbitrary starting point, come back as the bytes from the first complete pair of marks on. */
  lemma BytesSurvive(before: bv8, data: seq<bv8>, marks: set<nat>, w: nat, cell: nat, f: nat,
                     prev: nat, caps: seq<nat>, mem: seq<bv8>)
    requires MarksOn(data, marks) && w > 0 && cell > 0 && 4 * w < U16 && Tolerant(w, cell) && |mem| % 2 == 0
    requires ReadInto(MarkedCellStream(before, data, marks), w, cell, f, prev, caps, mem)
    ensures FromFirstPair(data, marks, HeardFrom(MarkedCellStream(before, data, marks), f), Decode(mem))
  {
    hide BitsOf, Lawful, Faithful, ReadResult, Decode, PackBytes, MarkedCellStream, Replays, Samples, Tolerant, SyncAt,
         Gaps, FirstCell, MarksOn, FirstPair;
    var c, n := MarkedCellStream(before, data, marks), |mem| / 2;
    MarkedIsLawful(before, data, marks);
    SpeedSkewIsFaithful(c, marks, w, cell, f, prev, caps);
    ReadDeliversStream(c, marks, cell, f, prev, caps, 8 * |mem|, BitsOf(mem));
    var q := FirstCell(c, f);
    var o: nat :| FirstSync(c, q, o) && o + 8 * |mem| <= |c| && BitsOf(mem) == c[o..o + 8 * |mem|];
    SyncIsPair(c, marks, q, o);
    FieldAtSync(before, data, marks, q, o / 16, n, mem);
  }

  /** The first sync pattern is the first pair of marks. */
  lemma SyncIsPair(c: seq<bool>, marks: set<nat>, q: nat, o: nat)
    requires Lawful(c, marks) && FirstSync(c, q, o)
    ensures o % 16 == 0 && FirstPair(marks, q, o / 16)
  {
    hide Lawful, SyncAt;
    SyncUnambiguous(c, marks, o);
    forall s': nat | s' < o / 16 && q <= 16 * s'
      ensures !IsPair(marks, s')
    {
      SyncUnambiguous(c, marks, 16 * s');
    }
  }

  lemma FieldAtSync(before: bv8, data: seq<bv8>, marks: set<nat>, q: nat, s: nat, n: nat, mem: seq<bv8>)
    requires MarksOn(data, marks) && |mem| == 2 * n && FirstPair(marks, q, s)
    requires var c := MarkedCellStream(before, data, marks);
             16 * (s + n) <= |c| && BitsOf(mem) == c[16 * s..16 * (s + n)]
    ensures FromFirstPair(data, marks, q, Decode(mem))
  {
    hide BitsOf, Decode, PackBytes, MarkedBytes, MarksOn, FirstPair;
    CellsToBytes(before, data, marks, s, n);
    PackBitsOf(mem);
    assert Decode(mem) == data[s..s + n];
  }

  // ----- the unsynchronised path

  lemma PlainCounts(c: seq<bool>, w: nat, cell: nat, prev: nat, caps: seq<nat>)
    requires Lawful(c, {}) && w > 0 && cell > 0 && 4 * w < U16
    requires 8 * (w - cell) < cell && 8 * (cell - w) < cell
    requires var samples := Samples(c, w);
             |caps| <= |samples| && forall i :: 0 <= i < |caps| ==> Deltas(prev, caps)[i] == (samples[i] + 1) % U16
    ensures |caps| <= |Gaps(c)| && LoopCounts(Deltas(prev, caps), cell) == Gaps(c)[..|caps|]
  {
    hide Lawful, Dense, Deltas, Fits, CellCount;
    LawfulIsDense(c, {});
    DenseFits(c, w);
    DenseGaps(c);
    SamplesExact(c, w);
    forall i | 0 <= i < |caps|
      ensures CellCount(Deltas(prev, caps)[i], cell) == Gaps(c)[i]
    {
      SampleCounts(Gaps(c)[i], w, cell, Samples(c, w)[i]);
    }
  }

  lemma SampleCounts(g: Gap, w: nat, cell: nat, sample: nat)
    requires w > 0 && cell > 0 && 4 * w < U16 && g <= 4 && sample == g * w - 1
    requires 8 * (w - cell) < cell && 8 * (cell - w) < cell
    ensures CellCount((sample + 1) % U16, cell) == g
  {
    MulMono(g, 4, w);
    MulMono(1, g, w);
    LoopTolerance(g, w, cell);
  }

  /** Without a sync mark, a read timed from the start of the write returns the written cells exactly,
      at any speed error below an eighth of a cell. */
  lemma PlainBytesSurvive(before: bv8, data: seq<bv8>, w: nat, cell: nat, prev: nat, caps: seq<nat>,
                          n: nat, mem: seq<bv8>)
    requires w > 0 && cell > 0 && 4 * w < U16 && 8 * (w - cell) < cell && 8 * (cell - w) < cell
    requires var samples := Samples(BitsOf(Encode(before, data)), w);
             |caps| <= |samples| && forall i :: 0 <= i < |caps| ==> Deltas(prev, caps)[i] == (samples[i] + 1) % U16
    requires ReadResult(NoSync, cell, prev, caps, 16 * n, BitsOf(mem)) && |mem| == 2 * n
    ensures n <= |data| && mem == Encode(before, data)[..2 * n] && Decode(mem) == data[..n]
  {
    hide Lawful, Encode, Decode, BitsOf, Deltas, Unroll, Samples, LoopCounts, ReadResult;
    var c := BitsOf(Encode(before, data));
    PlainIsLawful(before, data);
    PlainCounts(c, w, cell, prev, caps);
    UnrollUpTo(c, |caps|);
    PlainBits(cell, prev, caps, 16 * n, BitsOf(mem));
    assert c[..End(c, |caps|)][..16 * n] == c[..16 * n];
    PlainPrefix(before, data, n, mem);
  }

  lemma PlainPrefix(before: bv8, data: seq<bv8>, n: nat, mem: seq<bv8>)
    requires n <= |data| && BitsOf(mem) == BitsOf(Encode(before, data))[..16 * n]
    ensures mem == Encode(before, data)[..2 * n] && Decode(mem) == data[..n]
  {
    hide Encode, Decode, BitsOf, PackBytes;
    var e := Encode(before, data);
    BitsOfSlice(e, 0, 2 * n);
    assert BitsOf(e)[8 * 0..8 * (2 * n)] == BitsOf(e)[..16 * n];
    PackBitsOf(mem);
    PackBitsOf(e[0..2 * n]);
    assert e[0..2 * n] == e[2 * 0..2 * (0 + n)] == e[..2 * n];
    DecodeSlice(e, 0, n);
    DecodeEncode(before, data);
  }

  lemma PlainBits(cell: nat, prev: nat, caps: seq<nat>, max: nat, bits: seq<bool>)
    requires cell > 0 && ReadResult(NoSync, cell, prev, caps, max, bits)
    ensures var all := Unroll(LoopCounts(Deltas(prev, caps), cell));
            max <= |all| && bits == all[..max]
  {
    hide Unroll, Deltas;
    assert caps[0..] == caps;
    var all := Unroll(LoopCounts(Deltas(prev, caps), cell));
    assert [] + all == all;
  }

  lemma LoopTolerance(n: Gap, w: nat, cell: nat)
    requires w > 0 && cell > 0 && n <= 4 && 8 * (w - cell) < cell && 8 * (cell - w) < cell
    ensures CellCount(n * w, cell) == n
  {
    CellCountWindow(n * w, cell, n);
    if n == 1 {} else if n == 2 {} else if n == 3 {} else {}
  }

  lemma PlainIsLawful(before: bv8, data: seq<bv8>)
    ensures Lawful(BitsOf(Encode(before, data)), {})
  {
    hide Lawful, Encode, BitsOf;
    MarkedIsLawful(before, data, {});
    assert Patch(Encode(before, data), {}) == Encode(before, data);
  }
}
