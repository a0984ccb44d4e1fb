/** Writing an Amiga track at one speed and reading it at another, flux reversal by flux reversal. */
module AmigaFlux {
  import opened Arithmetic
  import opened Bits
  import opened Longs
  import opened AmigaFormat
  import opened AmigaDecode
  import opened AmigaHunt
  import opened Stream
  import opened Flux
  import opened IbmLayout
  import opened IbmFlux

  /** Memory as the longs a little-endian machine loads from it. */
  function RawLongs(mem: seq<bv8>): (r: seq<Long>)
    ensures |r| == |mem| / 4
  {
    seq(|mem| / 4, i requires 0 <= i < |mem| / 4 => Rev(BitsOf(mem)[32 * i..32 * i + 32]))
  }

  lemma RawLongsAt(c: seq<bool>, o: nat, n: nat, mem: seq<bv8>)
    requires |mem| == 4 * n && o + 32 * n <= |c| && BitsOf(mem) == c[o..o + 32 * n]
    ensures RawLongs(mem) == LongsAt(c, o, n)
  {
    hide BitsOf, Rev;
    forall i: nat | i < n
      ensures RawLongs(mem)[i] == LongsAt(c, o, n)[i]
    {
      Inner(c, o, 32 * n, 32 * i);
    }
  }

  lemma Inner(c: seq<bool>, o: nat, len: nat, k: nat)
    requires o + len <= |c| && k + 32 <= len
    ensures c[o..o + len][k..k + 32] == c[o + k..o + k + 32]
  {
    var a, b := c[o..o + len][k..k + 32], c[o + k..o + k + 32];
    forall j | 0 <= j < 32
      ensures a[j] == b[j]
    {
      assert a[j] == c[o..o + len][k + j];
    }
  }

  /** The six-word reads of the search: read number i starts latency(i) cells after the one before ended, only the
      last of them found the last sector, and it ended at cell end. */
  ghost predicate HuntReads(c: seq<bool>, w: nat, cell: nat, logs: seq<ReadLog>, pos: nat, latency: nat -> nat, i: nat,
                            end: nat)
    requires cell > 0
    decreases |logs|
  {
    logs != [] &&
    var r := logs[0];
    && IsRead(c, w, cell, r) && |r.done.words| == 12
    && From(c, r) == pos + latency(i)
    && var next := NextSync(c, pos + latency(i)) + 96;
    && next >= 96
    && (Togo(RawLongs(r.done.words)) == 1 <==> |logs| == 1)
    && (if |logs| == 1 then end == next else HuntReads(c, w, cell, logs[1..], next, latency, i + 1, end))
  }

  lemma {:induction false} ReadsAreHunt(c: seq<bool>, marks: set<nat>, w: nat, cell: nat, logs: seq<ReadLog>, pos: nat,
                                        latency: nat -> nat, i: nat, end: nat)
    requires Lawful(c, marks) && w > 0 && cell > 0 && 4 * w < U16 && Tolerant(w, cell)
    requires HuntReads(c, w, cell, logs, pos, latency, i, end)
    ensures HuntLast(c, pos, latency, i) == end
    decreases |logs|
  {
    hide Lawful, IsRead, NextSync, Togo, LongsAt, RawLongs, Tolerant, BitsOf, Gaps, From, HuntLast;
    ReadFindsNextSync(c, marks, w, cell, logs[0]);
    var o := NextSync(c, pos + latency(i));
    RawLongsAt(c, o, 3, logs[0].done.words);
    HuntStep(c, pos, latency, i);
    if |logs| > 1 {
      ReadsAreHunt(c, marks, w, cell, logs[1..], o + 96, latency, i + 1, end);
    }
  }

  lemma HuntStep(c: seq<bool>, pos: nat, latency: nat -> nat, i: nat)
    ensures HuntLast(c, pos, latency, i) ==
      var o := NextSync(c, pos + latency(i));
      if o < 0 || o + 96 > |c| then -1
      else if Togo(LongsAt(c, o, 3)) == 1 then o + 96
      else HuntLast(c, o + 96, latency, i + 1)
  {}

  /** A whole track read: a search that ends at cell end, and then a read of n longs that starts late cells later. */
  ghost predicate WholeRead(c: seq<bool>, w: nat, cell: nat, logs: seq<ReadLog>, latency: nat -> nat, end: nat,
                            last: ReadLog, late: nat, n: nat)
    requires cell > 0
  {
    && HuntReads(c, w, cell, logs, 0, latency, 0, end)
    && IsRead(c, w, cell, last) && From(c, last) == end + late && |last.done.words| == 4 * n
  }

  /** A track written at w ticks a cell and read at another speed: whatever reads the search made, started
      anywhere on the first revolution, the read that follows them fills memory with the track as it was
      written, which AmigaRead.TrackComesBack turns into the data. */
  lemma TrackAcrossSpeeds(data: seq<Long>, track: nat, nsec: nat, w: nat, cell: nat, logs: seq<ReadLog>,
                          latency: nat -> nat, end: nat, last: ReadLog, late: nat)
    requires |data| == 128 * nsec && (nsec == 11 || nsec == 22) && track < 256
    requires w > 0 && cell > 0 && 4 * w < U16 && Tolerant(w, cell)
    requires latency(0) <= 32 * TrackLongs(nsec) && late <= MAX_SECTOR_LATENCY
    requires forall j: nat :: j > 0 ==> latency(j) <= MAX_SECTOR_LATENCY
    requires WholeRead(DiskCells(data, track, nsec), w, cell, logs, latency, end, last, late, SECTOR_LONGS * nsec - 1)
    ensures IsImage(RawLongs(last.done.words), data, track, nsec)
  {
    hide DiskCells, Lawful, IsRead, NextSync, LongsAt, RawLongs, IsImage, Tolerant, BitsOf, HuntLast, SyncWords, Gaps,
         From, HuntReads;
    var c := DiskCells(data, track, nsec);
    var marks := SyncWords(DiskSyncs(nsec));
    DiskIsLawful(data, track, nsec);
    ReadsAreHunt(c, marks, w, cell, logs, 0, latency, 0, end);
    ReadFindsNextSync(c, marks, w, cell, last);
    HuntFindsTrack(data, track, nsec, 0, latency, late);
    RawLongsAt(c, NextSync(c, end + late), SECTOR_LONGS * nsec - 1, last.done.words);
  }
}
