/** Formatting at one speed and scanning or reading at another, flux reversal by flux reversal. */
module IbmFlux {
  import opened Arithmetic
  import opened Bits
  import opened Mfm
  import opened Stream
  import opened Marks
  import opened Flux
  import opened Reader
  import opened Hunt
  import opened IbmLayout
  import opened EndToEnd
  import opened IbmReads
  import opened IbmSearch
  import Ibm

  /** One read: the first reversal it heard, the timer value it started from, its captures, and what it left. */
  datatype ReadLog = ReadLog(f: nat, prev: nat, caps: seq<nat>, done: Finished)

  /** A read of the track c written at w ticks a cell, completed at cell ticks a cell. */
  ghost predicate IsRead(c: seq<bool>, w: nat, cell: nat, r: ReadLog)
    requires cell > 0
  {
    && Replays(Samples(c, w), r.f, r.prev, r.caps)
    && ReadResult(SyncMfm, cell, r.prev, r.caps, 8 * |r.done.words|, BitsOf(r.done.words))
    && r.f < |Gaps(c)|
  }

  /** The read began between the first cell of a mark and its first reversal, and caught the mark all the same. */
  predicate CaughtEarly(c: seq<bool>, q: nat, words: seq<bv8>) {
    q > 0 && SyncAt(c, q - 1) && q - 1 + 8 * |words| <= |c| && BitsOf(words) == c[q - 1..q - 1 + 8 * |words|]
  }

  /** The cell a read counts as started from: that of the first reversal it heard, or the one before if a mark begins
      there that it caught. */
  function From(c: seq<bool>, r: ReadLog): nat
    requires r.f < |Gaps(c)|
  {
    var q := FirstCell(c, r.f);
    if CaughtEarly(c, q, r.done.words) then q - 1 else q
  }

  /** A read that started no later than cell limit. */
  ghost predicate IsEarlyRead(c: seq<bool>, w: nat, cell: nat, r: ReadLog, limit: nat)
    requires cell > 0
  {
    IsRead(c, w, cell, r) && From(c, r) <= limit
  }

  /** Whichever mark the hunt stops at, it is the next from where the read counts as started. */
  lemma FirstIsNext(c: seq<bool>, q: nat, o: nat, words: seq<bv8>)
    requires FirstSync(c, q, o) && o + 8 * |words| <= |c| && BitsOf(words) == c[o..o + 8 * |words|]
    ensures var start := if CaughtEarly(c, q, words) then q - 1 else q;
            var next := NextSync(c, start);
            next >= 0 && next + 8 * |words| <= |c| && BitsOf(words) == c[next..next + 8 * |words|]
  {
    hide SyncAt, BitsOf, NextSync, FirstSync, CaughtEarly;
    if CaughtEarly(c, q, words) {
      EarlyMark(c, q, words);
      NextHere(c, q - 1);
    } else {
      LaterMark(c, q, o, words);
    }
  }

  lemma EarlyMark(c: seq<bool>, q: nat, words: seq<bv8>)
    requires CaughtEarly(c, q, words)
    ensures q > 0 && SyncAt(c, q - 1)
    ensures q - 1 + 8 * |words| <= |c| && BitsOf(words) == c[q - 1..q - 1 + 8 * |words|]
  {}

  lemma LaterMark(c: seq<bool>, q: nat, o: nat, words: seq<bv8>)
    requires FirstSync(c, q, o) && o + 8 * |words| <= |c| && BitsOf(words) == c[o..o + 8 * |words|]
    requires !CaughtEarly(c, q, words)
    ensures NextSync(c, q) == o
  {
    hide SyncAt, BitsOf, NextSync;
    var next := NextSync(c, q);
  }

  lemma NextHere(c: seq<bool>, q: nat)
    requires SyncAt(c, q)
    ensures NextSync(c, q) == q
  {
    hide SyncAt;
    var o := NextSync(c, q);
  }

  /** A read delivers the cells of the first sync mark from where it counts as started. */
  lemma ReadFindsNextSync(c: seq<bool>, marks: set<nat>, w: nat, cell: nat, r: ReadLog)
    requires Lawful(c, marks) && w > 0 && cell > 0 && 4 * w < U16 && Tolerant(w, cell)
    requires IsRead(c, w, cell, r)
    ensures r.f < |Gaps(c)|
    ensures var o := NextSync(c, From(c, r));
            o >= 0 && o + 8 * |r.done.words| <= |c| && BitsOf(r.done.words) == c[o..o + 8 * |r.done.words|]
  {
    hide Lawful, Faithful, ReadResult, PackBytes, BitsOf, SyncAt, NextSync, Replays, Samples, Tolerant, CaughtEarly;
    var q, max := FirstCell(c, r.f), 8 * |r.done.words|;
    SpeedSkewIsFaithful(c, marks, w, cell, r.f, r.prev, r.caps);
    ReadDeliversStream(c, marks, cell, r.f, r.prev, r.caps, max, BitsOf(r.done.words));
    var o: nat :| FirstSync(c, q, o) && o + max <= |c| && BitsOf(r.done.words) == c[o..o + max];
    FirstIsNext(c, q, o, r.done.words);
  }

  /** The reads of one scan: read number i starts latency(i) cells after the one before ended, and the last ends at
      cell end. */
  ghost predicate ScanReads(c: seq<bool>, w: nat, cell: nat, logs: seq<ReadLog>, pos: nat, latency: nat -> nat, i: nat,
                            end: nat)
    requires cell > 0
    decreases |logs|
  {
    if logs == [] then end == pos
    else
      var r, o := logs[0], NextSync(c, pos + latency(i));
      && IsRead(c, w, cell, r) && |r.done.words| == 20 && From(c, r) == pos + latency(i)
      && o >= 0 && ScanReads(c, w, cell, logs[1..], o + 160, latency, i + 1, end)
  }

  function Log(logs: seq<ReadLog>): (r: seq<Finished>)
    ensures |r| == |logs|
  {
    seq(|logs|, i requires 0 <= i < |logs| => logs[i].done)
  }

  function Addresses(info: seq<ScanInfo>): (r: seq<Idam>)
    ensures |r| == |info|
  {
    seq(|info|, i requires 0 <= i < |info| => info[i].idam)
  }

  lemma {:induction false} ReadsAreScan(c: seq<bool>, marks: set<nat>, w: nat, cell: nat, logs: seq<ReadLog>, pos: nat,
                                        latency: nat -> nat, i: nat, end: nat, since: nat)
    requires Lawful(c, marks) && w > 0 && cell > 0 && 4 * w < U16 && Tolerant(w, cell)
    requires ScanReads(c, w, cell, logs, pos, latency, i, end)
    ensures TenWords(Log(logs))
    ensures Scan(c, pos, latency, i) == Addresses(Recorded(Log(logs), since)) + Scan(c, end, latency, i + |logs|)
    decreases |logs|
  {
    hide Lawful, IsRead, NextSync, IsIdam, Scan, TenBytes, Tolerant, Decode, BitsOf, Gaps, From, Recorded;
    if logs == [] {
      NoneRecorded(since);
      assert Log(logs) == [] && Addresses([]) == [];
      assert [] + Scan(c, pos, latency, i) == Scan(c, pos, latency, i);
    } else {
      ReadFindsNextSync(c, marks, w, cell, logs[0]);
      var o := NextSync(c, pos + latency(i));
      ScanStep(c, pos, latency, i);
      TenBytesOf(c, o, logs[0].done.words);
      ReadsAreScan(c, marks, w, cell, logs[1..], o + 160, latency, i + 1, end, since);
      assert Log(logs)[1..] == Log(logs[1..]);
      RecordedFirst(Log(logs), since);
      OneAddress(logs[0].done, Recorded(Log(logs[1..]), since), since);
      var first := if IsIdam(TenBytes(c, o)) then [IdamOf(TenBytes(c, o))] else [];
      assert first + (Addresses(Recorded(Log(logs[1..]), since)) + Scan(c, end, latency, i + |logs|))
          == (first + Addresses(Recorded(Log(logs[1..]), since))) + Scan(c, end, latency, i + |logs|);
    }
  }

  lemma OneAddress(r: Finished, rest: seq<ScanInfo>, since: nat)
    requires |r.words| == 20
    ensures Addresses(RecordOne(r, since) + rest)
         == (if HasAddress(r.words) then [AddressOf(r.words)] else []) + Addresses(rest)
  {
    hide HasAddress, AddressOf;
  }

  lemma TenBytesOf(c: seq<bool>, o: nat, mem: seq<bv8>)
    requires o + 160 <= |c| && |mem| == 20 && BitsOf(mem) == c[o..o + 160]
    ensures Decode(mem) == TenBytes(c, o)
  {
    hide BitsOf, PackBytes, Decode;
    PackBitsOf(mem);
  }

  /** A track formatted at w ticks a cell and scanned at another speed, by reads that start anywhere within
      the latency the gaps allow: what the scan records is the formatted addresses in order, up to those it
      has not reached, and all of them once no sync mark is left ahead. */
  lemma ScanAcrossSpeeds(before: bv8, ids: seq<Idam>, gap3: nat, pad: bv8, w: nat, cell: nat, logs: seq<ReadLog>,
                         latency: nat -> nat, end: nat, since: nat)
    requires w > 0 && cell > 0 && 4 * w < U16 && Tolerant(w, cell)
    requires forall i :: latency(i) <= MAX_LATENCY
    requires ScanReads(TrackCells(before, ids, gap3, pad), w, cell, logs, 0, latency, 0, end)
    ensures TenWords(Log(logs)) && Addresses(Recorded(Log(logs), since)) <= ids
    ensures NextSync(TrackCells(before, ids, gap3, pad), end + latency(|logs|)) < 0
        ==> Addresses(Recorded(Log(logs), since)) == ids
  {
    hide Lawful, TrackCells, Scan, NextSync, SyncAt, TrackMarks, ScanReads, Recorded, Tolerant;
    var c := TrackCells(before, ids, gap3, pad);
    TrackCellsLawful(before, ids, gap3, pad);
    ReadsAreScan(c, TrackMarks(ids, gap3), w, cell, logs, 0, latency, 0, end, since);
    ScanFindsTrack(before, ids, gap3, pad, latency);
    ScanStep(c, end, latency, |logs|);
  }

  lemma SectorSync(before: bv8, buf: seq<bv8>, gap3: nat, q: nat)
    requires q <= 192
    ensures Lawful(Ibm.SectorCells(before, buf, gap3), Ibm.SECTOR_MARKS)
    ensures NextSync(Ibm.SectorCells(before, buf, gap3), q) == 192
  {
    hide Lawful, MarkedCellStream, NextSync, Ibm.SectorWrite, SyncAt;
    var d, c := Ibm.SectorWrite(buf, gap3), Ibm.SectorCells(before, buf, gap3);
    Ibm.SectorWriteParts(buf, gap3);
    MarkedIsLawful(before, d, Ibm.SECTOR_MARKS);
    SyncUnambiguous(c, Ibm.SECTOR_MARKS, 192);
    var o := NextSync(c, q);
    if o >= 0 { SyncUnambiguous(c, Ibm.SECTOR_MARKS, o); }
  }

  lemma FieldBits(before: bv8, buf: seq<bv8>, gap3: nat, mem: seq<bv8>)
    requires |mem| == 2 * (6 + |buf|) && 192 + 8 * |mem| <= |Ibm.SectorCells(before, buf, gap3)|
    requires BitsOf(mem) == Ibm.SectorCells(before, buf, gap3)[192..192 + 8 * |mem|]
    ensures mem == Ibm.FieldWords(before, buf, gap3)
  {
    hide BitsOf, PackBytes, MarkedBytes, Ibm.SectorWrite;
    var d := Ibm.SectorWrite(buf, gap3);
    Ibm.SectorWriteParts(buf, gap3);
    var b := MarkedBytes(before, d, Ibm.SECTOR_MARKS);
    BitsOfSlice(b, 24, 24 + |mem|);
    PackBitsOf(mem);
    PackBitsOf(b[24..24 + |mem|]);
  }

  /** A data field written at one speed and read at another, by a read that starts anywhere before its sync
      mark: the read fills memory with the field's own words, which Ibm.FieldReadsBack turns into the data. */
  lemma SectorAcrossSpeeds(before: bv8, buf: seq<bv8>, gap3: nat, w: nat, cell: nat, r: ReadLog)
    requires w > 0 && cell > 0 && 4 * w < U16 && Tolerant(w, cell)
    requires IsEarlyRead(Ibm.SectorCells(before, buf, gap3), w, cell, r, 192)
    requires |r.done.words| == 2 * (6 + |buf|)
    ensures r.done.words == Ibm.FieldWords(before, buf, gap3)
  {
    hide Lawful, Ibm.SectorCells, IsRead, NextSync, BitsOf, Decode, Tolerant, From, Gaps;
    var c := Ibm.SectorCells(before, buf, gap3);
    SectorSync(before, buf, gap3, 0);
    ReadFindsNextSync(c, Ibm.SECTOR_MARKS, w, cell, r);
    SectorSync(before, buf, gap3, From(c, r));
    FieldBits(before, buf, gap3, r.done.words);
  }

  /** The reads of one search that did not find the address: read number i starts latency(i) cells after the one before
      ended, and the last ends at cell end. */
  ghost predicate Misses(c: seq<bool>, w: nat, cell: nat, logs: seq<ReadLog>, pos: nat, latency: nat -> nat, i: nat,
                         id: Idam, end: nat)
    requires cell > 0
    decreases |logs|
  {
    if logs == [] then end == pos
    else
      var r, o := logs[0], NextSync(c, pos + latency(i));
      && IsRead(c, w, cell, r) && |r.done.words| == 20 && From(c, r) == pos + latency(i) && o >= 0
      && !Found(r.done.words, id) && Misses(c, w, cell, logs[1..], o + 160, latency, i + 1, id, end)
  }

  lemma {:induction false} MissesSearch(c: seq<bool>, marks: set<nat>, w: nat, cell: nat, logs: seq<ReadLog>, pos: nat,
                                        latency: nat -> nat, i: nat, id: Idam, end: nat)
    requires Lawful(c, marks) && w > 0 && cell > 0 && 4 * w < U16 && Tolerant(w, cell)
    requires Misses(c, w, cell, logs, pos, latency, i, id, end)
    ensures Search(c, pos, latency, i, id) == Search(c, end, latency, i + |logs|, id)
    decreases |logs|
  {
    hide Lawful, IsRead, NextSync, IsIdam, Search, TenBytes, Tolerant, Decode, BitsOf, Gaps, From;
    if logs != [] {
      ReadFindsNextSync(c, marks, w, cell, logs[0]);
      var o := NextSync(c, pos + latency(i));
      TenBytesOf(c, o, logs[0].done.words);
      SearchStep(c, pos, latency, i, id, o);
      MissesSearch(c, marks, w, cell, logs[1..], o + 160, latency, i + 1, id, end);
    }
  }

  /** The search missed and then hit: its last read, the first that found the address, ended at cell end. */
  ghost predicate Finds(c: seq<bool>, w: nat, cell: nat, logs: seq<ReadLog>, hit: ReadLog, pos: nat, latency: nat -> nat,
                        id: Idam, end: nat)
    requires cell > 0
  {
    exists mid: nat ::
      Misses(c, w, cell, logs, pos, latency, 0, id, mid) && Hits(c, w, cell, hit, mid + latency(|logs|), id, end)
  }

  ghost predicate Hits(c: seq<bool>, w: nat, cell: nat, hit: ReadLog, pos: nat, id: Idam, end: nat)
    requires cell > 0
  {
    && IsRead(c, w, cell, hit) && |hit.done.words| == 20 && From(c, hit) == pos && Found(hit.done.words, id)
    && end == NextSync(c, pos) + 160
  }

  lemma FindsSearch(c: seq<bool>, marks: set<nat>, w: nat, cell: nat, logs: seq<ReadLog>, hit: ReadLog, pos: nat,
                    latency: nat -> nat, id: Idam, end: nat)
    requires Lawful(c, marks) && w > 0 && cell > 0 && 4 * w < U16 && Tolerant(w, cell)
    requires Finds(c, w, cell, logs, hit, pos, latency, id, end)
    ensures Search(c, pos, latency, 0, id) == end
  {
    hide Lawful, IsRead, NextSync, IsIdam, Search, TenBytes, Tolerant, Decode, BitsOf, Gaps, From, Misses;
    var mid: nat :|
      Misses(c, w, cell, logs, pos, latency, 0, id, mid) && Hits(c, w, cell, hit, mid + latency(|logs|), id, end);
    MissesSearch(c, marks, w, cell, logs, pos, latency, 0, id, mid);
    ReadFindsNextSync(c, marks, w, cell, hit);
    TenBytesOf(c, end - 160, hit.done.words);
    SearchStep(c, mid, latency, |logs|, id, end - 160);
  }

  lemma FieldOf(c: seq<bool>, o: nat, n: nat, mem: seq<bv8>)
    requires |mem| == 2 * n && o + 16 * n <= |c| && BitsOf(mem) == c[o..o + 16 * n]
    ensures Decode(mem) == BytesAt(c, o, n)
  {
    hide BitsOf, PackBytes, Decode;
    PackBitsOf(mem);
  }

  /** A sector search, and then a read of size words and six that starts late cells after it. */
  ghost predicate SectorRead(c: seq<bool>, w: nat, cell: nat, logs: seq<ReadLog>, hit: ReadLog, pos: nat,
                             latency: nat -> nat, id: Idam, end: nat, last: ReadLog, late: nat)
    requires cell > 0
  {
    && Finds(c, w, cell, logs, hit, pos, latency, id, end)
    && IsRead(c, w, cell, last) && From(c, last) == end + late && |last.done.words| == 2 * (6 + SecBytes(id.n))
  }

  /** The words of the last read are those of the field that begins at the next sync mark. */
  lemma LastField(c: seq<bool>, marks: set<nat>, w: nat, cell: nat, pos: nat, last: ReadLog, x: seq<bv8>)
    requires Lawful(c, marks) && w > 0 && cell > 0 && 4 * w < U16 && Tolerant(w, cell)
    requires IsRead(c, w, cell, last) && From(c, last) == pos && |last.done.words| == 2 * (6 + |x|)
    requires FieldAt(c, NextSync(c, pos), x)
    ensures Decode(last.done.words) == DamField(x)
  {
    hide Lawful, NextSync, Tolerant, Decode, DamField, BitsOf, IsRead, BytesAt, Gaps, From;
    ReadFindsNextSync(c, marks, w, cell, last);
    FieldOf(c, NextSync(c, pos), 6 + |x|, last.done.words);
  }

  /** A track formatted at w ticks a cell and searched at another speed: a search that finds an address has found it on
      the track, and the read that follows fills memory with the words of that sector's data field. */
  lemma SectorFoundAcrossSpeeds(before: bv8, ids: seq<Idam>, gap3: nat, pad: bv8, w: nat, cell: nat, logs: seq<ReadLog>,
                                hit: ReadLog, latency: nat -> nat, id: Idam, end: nat, last: ReadLog, late: nat)
    requires w > 0 && cell > 0 && 4 * w < U16 && Tolerant(w, cell)
    requires late <= MAX_LATENCY && forall i :: latency(i) <= MAX_LATENCY
    requires SectorRead(TrackCells(before, ids, gap3, pad), w, cell, logs, hit, 0, latency, id, end, last, late)
    ensures id in ids && |last.done.words| % 2 == 0 && Decode(last.done.words) == DamField(Fill(0xe2, SecBytes(id.n)))
  {
    hide Lawful, TrackCells, Search, NextSync, TrackMarks, Finds, Tolerant, SecBytes, Places, Decode, DamField, Fill,
         IsRead, BytesAt, Gaps, From;
    var c := TrackCells(before, ids, gap3, pad);
    TrackCellsLawful(before, ids, gap3, pad);
    FindsSearch(c, TrackMarks(ids, gap3), w, cell, logs, hit, 0, latency, id, end);
    SearchIsExact(before, ids, gap3, pad, latency, id);
    var k := IndexOf(ids, id);
    FormattedSectorReads(before, ids, gap3, pad, latency, id, k, late);
    LastField(c, TrackMarks(ids, gap3), w, cell, end + late, last, Fill(0xe2, SecBytes(id.n)));
  }

  /** No clock is wrong where the track meets its own beginning: the byte before the buffer ends like its last byte. */
  predicate Closes(before: bv8, ids: seq<Idam>, gap3: nat, pad: bv8) {
    var d := PaddedTrack(ids, gap3, pad);
    d != [] && Bit(before, 7) == Bit(d[|d| - 1], 7)
  }

  lemma TurnsLawful(before: bv8, ids: seq<Idam>, gap3: nat, pad: bv8) returns (marks: set<nat>)
    requires Closes(before, ids, gap3, pad)
    ensures var t := TrackCells(before, ids, gap3, pad); Lawful(t + t, marks)
  {
    hide PaddedTrack, Lawful, MarkedCellStream, Bit, TrackMarks, TwoMarks;
    var d := PaddedTrack(ids, gap3, pad);
    TrackLaid(ids, gap3, pad);
    marks := TwoMarks(TrackMarks(ids, gap3), |d|);
    TwiceMarked(before, d, TrackMarks(ids, gap3));
    MarkedIsLawful(before, d + d, marks);
  }

  /** A search started anywhere on the first of two turns: when it finds an address, the address is on the track and the
      read that follows fills memory with the words of that sector's data field, written before or behind the start. */
  lemma SectorFoundAnywhere(before: bv8, ids: seq<Idam>, gap3: nat, pad: bv8, w: nat, cell: nat, logs: seq<ReadLog>,
                            hit: ReadLog, pos: nat, latency: nat -> nat, id: Idam, end: nat, last: ReadLog, late: nat)
    requires w > 0 && cell > 0 && 4 * w < U16 && Tolerant(w, cell) && Closes(before, ids, gap3, pad)
    requires pos < |TrackCells(before, ids, gap3, pad)|
    requires late <= MAX_LATENCY && forall i :: latency(i) <= SAFE_LATENCY
    requires var t := TrackCells(before, ids, gap3, pad);
             SectorRead(t + t, w, cell, logs, hit, pos, latency, id, end, last, late)
    ensures id in ids && |last.done.words| % 2 == 0 && Decode(last.done.words) == DamField(Fill(0xe2, SecBytes(id.n)))
  {
    hide Lawful, TrackCells, Search, NextSync, Finds, Tolerant, SecBytes, Decode, DamField, Fill, IsRead, FieldAt, Gaps,
         From, Closes;
    var t := TrackCells(before, ids, gap3, pad);
    var marks := TurnsLawful(before, ids, gap3, pad);
    FindsSearch(t + t, marks, w, cell, logs, hit, pos, latency, id, end);
    SearchEnds(before, ids, gap3, pad, pos, latency, id, late);
    LastField(t + t, marks, w, cell, end + late, last, Fill(0xe2, SecBytes(id.n)));
  }

  /** And when two turns end with no read of them having found the address, it is not on the track. */
  lemma SectorMissedAnywhere(before: bv8, ids: seq<Idam>, gap3: nat, pad: bv8, w: nat, cell: nat, logs: seq<ReadLog>,
                             pos: nat, latency: nat -> nat, id: Idam, end: nat)
    requires w > 0 && cell > 0 && 4 * w < U16 && Tolerant(w, cell) && Closes(before, ids, gap3, pad)
    requires pos < |TrackCells(before, ids, gap3, pad)| && forall i :: latency(i) <= SAFE_LATENCY
    requires var t := TrackCells(before, ids, gap3, pad);
             var next := NextSync(t + t, end + latency(|logs|));
             Misses(t + t, w, cell, logs, pos, latency, 0, id, end) && (next < 0 || next + 160 > |t + t|)
    ensures id !in ids
  {
    hide Lawful, TrackCells, NextSync, Misses, Tolerant, SecBytes, Fill, FieldAt, Closes, IsIdam, IdamOf, TenBytes;
    var t := TrackCells(before, ids, gap3, pad);
    var marks := TurnsLawful(before, ids, gap3, pad);
    MissesSearch(t + t, marks, w, cell, logs, pos, latency, 0, id, end);
    assert Search(t + t, end, latency, |logs|, id) == -1;
    SearchEnds(before, ids, gap3, pad, pos, latency, id, 0);
  }

  lemma IndexOf(ids: seq<Idam>, id: Idam) returns (k: nat)
    requires id in ids
    ensures FirstWith(ids, id, k)
  {
    var j :| 0 <= j < |ids| && ids[j] == id;
    k := FirstUpTo(ids, id, j);
  }

  lemma {:induction false} FirstUpTo(ids: seq<Idam>, id: Idam, j: nat) returns (k: nat)
    requires j < |ids| && ids[j] == id
    ensures FirstWith(ids, id, k)
    decreases j
  {
    if i: nat :| i < j && ids[i] == id {
      k := FirstUpTo(ids, id, i);
    } else {
      k := j;
    }
  }
}
