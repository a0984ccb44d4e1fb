/** The Amiga track under the head: its clock check, and the hunt for the last sector before the gap. */
module AmigaHunt {
  import opened Bits
  import opened Longs
  import opened AmigaFormat
  import opened AmigaDecode
  import opened AmigaRead
  import opened Stream
  import opened IbmLayout

  // ----- the clock check

  /** Longs in memory as the cells they hold. */
  function RawCells(p: seq<Long>): (r: seq<bool>)
    ensures |r| == 32 * |p|
  {
    seq(32 * |p|, k requires 0 <= k < 32 * |p| => Rev(p[k / 32])[k % 32])
  }

  lemma RawCell(p: seq<Long>, k: nat, j: nat)
    requires k < |p| && j < 32
    ensures RawCells(p)[32 * k + j] == Rev(p[k])[j]
  {
    hide Rev;
  }

  /** What a written track holds is what passes under the head. */
  lemma WrittenCells(p: seq<Long>, items: seq<Item>)
    requires |p| == |items| && forall i: nat :: i < |p| ==> p[i] == Rev(OnDisk(items, i))
    ensures RawCells(p) == CellsOf(items)
  {
    hide Rev, OnDisk, RawCells, CellsOf;
    forall x: nat | x < 32 * |p|
      ensures RawCells(p)[x] == CellsOf(items)[x]
    {
      var k, j := x / 32, x % 32;
      RawCell(p, k, j);
      CellAt(items, k, j);
      RevRev(OnDisk(items, k));
      assert x == 32 * k + j;
    }
  }

  /** Every clock of v is as the data cells around it call for, when the data cell before v is prev. */
  ghost predicate LongRule(v: Long, prev: bool) {
    forall j: nat {:trigger v[j]} :: j < 32 && j % 2 == 0 ==> v[j] == (!v[j + 1] && !(if j == 0 then prev else v[j - 1]))
  }

  lemma ClockedSyncRule(prev: bool)
    ensures LongRule(ClockedSync(), prev) && ClockedSync()[31] == SyncLong()[31]
  {
    forall j: nat | j < 32 && j % 2 == 0
      ensures ClockedSync()[j] == (!ClockedSync()[j + 1] && !(if j == 0 then prev else ClockedSync()[j - 1]))
    {
      if j < 16 { if j < 8 { if j < 4 {} else {} } else { if j < 12 {} else {} } }
      else { if j < 24 { if j < 20 {} else {} } else { if j < 28 {} else {} } }
    }
  }

  lemma CodedRule(items: seq<Item>, k: nat)
    requires k < |items| && items[k].Coded?
    ensures LongRule(OnDisk(items, k), Before(items, k)[31])
  {
    hide OnDisk, Before;
    var v: Long, prev := OnDisk(items, k), Before(items, k)[31];
    forall j: nat {:trigger v[j]} | j < 32 && j % 2 == 0
      ensures v[j] == (!v[j + 1] && !(if j == 0 then prev else v[j - 1]))
    {
      CodedClock(items, k, j);
    }
  }

  /** The last cell of long k as it will be checked. */
  function LastCell(p: seq<Long>, nsec: nat, before: bool, k: nat): bool
    requires TrackRead(p, nsec) && k <= |p|
  {
    if k == 0 then before else Rev(Reset(p, nsec)[k - 1])[31]
  }

  lemma ResetAt(p: seq<Long>, nsec: nat, k: nat)
    requires TrackRead(p, nsec) && k < |p|
    ensures Rev(Reset(p, nsec)[k]) == if k % SECTOR_LONGS == 0 then ClockedSync() else Rev(p[k])
  {
    hide Rev, ClockedSync;
    RevRev(ClockedSync());
  }

  lemma TrackItemKind(data: seq<Long>, track: nat, nsec: nat, k: nat)
    requires |data| == 128 * nsec && (nsec == 11 || nsec == 22) && k < SECTOR_LONGS * nsec - 1
    ensures POST_INDEX + 1 + k < TrackLongs(nsec)
    ensures var item := TrackItems(data, track, nsec)[POST_INDEX + 1 + k];
            if k % SECTOR_LONGS == 0 then item == Raw(SyncLong()) else item.Coded?
  {
    hide Info, SectorData, SyncLong, DatChecksum, Even;
    var i := POST_INDEX + 1 + k;
    if k % SECTOR_LONGS == 0 {
      assert SecNo(i) == k / SECTOR_LONGS;
    }
  }

  /** The last cell of the long before k, as written, is the one the check sees. */
  lemma LastCellIs(p: seq<Long>, data: seq<Long>, track: nat, nsec: nat, before: bool, k: nat)
    requires IsImage(p, data, track, nsec) && 0 < k < |p|
    ensures LastCell(p, nsec, before, k) == Before(TrackItems(data, track, nsec), POST_INDEX + 1 + k)[31]
  {
    hide TrackItems, Rev, ClockedSync, Value, SyncLong, OnDisk, Reset;
    var items, at := TrackItems(data, track, nsec), POST_INDEX + k;
    ResetAt(p, nsec, k - 1);
    TrackItemKind(data, track, nsec, k - 1);
    DataCellOnDisk(items, at, 31);
    RevRev(OnDisk(items, at));
    if (k - 1) % SECTOR_LONGS == 0 {
      ClockedSyncRule(before);
      RawValue(items[at]);
    }
  }

  lemma RawValue(item: Item)
    requires item == Raw(SyncLong())
    ensures Value(item) == SyncLong()
  {}

  lemma ResetLongRule(p: seq<Long>, data: seq<Long>, track: nat, nsec: nat, before: bool, k: nat)
    requires IsImage(p, data, track, nsec) && k < |p|
    ensures LongRule(Rev(Reset(p, nsec)[k]), LastCell(p, nsec, before, k))
  {
    hide TrackItems, Rev, ClockedSync, OnDisk, Reset, LongRule, LastCell, Before;
    var items, at := TrackItems(data, track, nsec), POST_INDEX + 1 + k;
    ResetAt(p, nsec, k);
    TrackItemKind(data, track, nsec, k);
    if k % SECTOR_LONGS == 0 {
      ClockedSyncRule(LastCell(p, nsec, before, k));
    } else {
      RevRev(OnDisk(items, at));
      CodedRule(items, at);
      LastCellIs(p, data, track, nsec, before, k);
    }
  }

  lemma LongRuleAt(v: Long, prev: bool, j: nat)
    requires LongRule(v, prev) && j < 32 && j % 2 == 0
    ensures v[j] == (!v[j + 1] && !(if j == 0 then prev else v[j - 1]))
  {}

  lemma ResetClock(p: seq<Long>, data: seq<Long>, track: nat, nsec: nat, before: bool, x: nat)
    requires IsImage(p, data, track, nsec) && x % 2 == 0 && x + 1 < 32 * |p|
    ensures TrackRead(p, nsec)
    ensures var c := RawCells(Reset(p, nsec));
            c[x] == (!c[x + 1] && !(if x == 0 then before else c[x - 1]))
  {
    hide IsImage, Rev, Reset, LongRule, RawCells;
    ImageSize(p, data, track, nsec);
    var k, j := x / 32, x % 32;
    var r := Reset(p, nsec);
    ResetLongRule(p, data, track, nsec, before, k);
    LongRuleAt(Rev(r[k]), LastCell(p, nsec, before, k), j);
    RawCell(r, k, j);
    RawCell(r, k, j + 1);
    if j > 0 {
      RawCell(r, k, j - 1);
    } else if k > 0 {
      RawCell(r, k - 1, 31);
      assert 32 * (k - 1) + 31 == x - 1;
    }
  }

  /** Once its sync longs have been replaced, a track as it was written passes the clock check at every word,
      whatever byte the first comparison happens to look at. */
  lemma TrackPassesClockCheck(p: seq<Long>, data: seq<Long>, track: nat, nsec: nat, raw: bv8, i: nat)
    requires IsImage(p, data, track, nsec) && i < 2 * |p|
    ensures TrackRead(p, nsec) && Mfm.Checks(PackBytes(RawCells(Reset(p, nsec))), raw, i)
  {
    hide IsImage, Reset, RawCells, BitsOf, PackBytes, Mfm.Checks, Bit;
    ImageSize(p, data, track, nsec);
    var c, before := RawCells(Reset(p, nsec)), Bit(raw, 7);
    BitsOfPack(c);
    forall j: nat | j < 8
      ensures c[16 * i + 2 * j] ==
        (!c[16 * i + 2 * j + 1] && !(if i == 0 && j == 0 then before else c[16 * i + 2 * j - 1]))
    {
      ResetClock(p, data, track, nsec, before, 16 * i + 2 * j);
    }
    Mfm.ChecksIsClockRule(PackBytes(c), raw, i);
  }

  // ----- the track going round

  /** Three revolutions. */
  function Disk(items: seq<Item>): seq<Item> { items + items + items }

  lemma DiskItem(items: seq<Item>, r: nat, k: nat)
    requires r < 3 && k < |items|
    ensures |items| * r + k < |Disk(items)| && Disk(items)[|items| * r + k] == items[k]
    ensures k > 0 ==> OnDisk(Disk(items), |items| * r + k) == OnDisk(items, k)
  {
    hide Emitted, Value;
    if r == 0 {} else if r == 1 {} else {}
  }

  /** Where the sync long of sector s passes in revolution r. */
  function Pos(nsec: nat, r: nat, s: nat): nat { TrackLongs(nsec) * r + POST_INDEX + 1 + SECTOR_LONGS * s }

  predicate OnTrack(nsec: nat, r: nat, s: nat) { (nsec == 11 || nsec == 22) && r < 3 && s < nsec }

  function DiskSyncs(nsec: nat): set<nat> { set r: nat, s: nat | r < 3 && s < nsec :: Pos(nsec, r, s) }

  lemma Spacing(nsec: nat, r: nat, s: nat, r': nat, s': nat)
    requires OnTrack(nsec, r, s) && OnTrack(nsec, r', s')
    ensures Pos(nsec, r, s) + 1 != Pos(nsec, r', s')
    ensures r < r' || (r == r' && s < s') ==> Pos(nsec, r, s) + SECTOR_LONGS <= Pos(nsec, r', s')
    ensures Pos(nsec, r, s) + SECTOR_LONGS * (nsec - s) <= TrackLongs(nsec) * (r + 1) + 32
  {
    if r == 0 {} else if r == 1 {} else {}
    if r' == 0 {} else if r' == 1 {} else {}
  }

  lemma DiskSyncIsRaw(data: seq<Long>, track: nat, nsec: nat, k: nat)
    requires |data| == 128 * nsec && (nsec == 11 || nsec == 22) && k in DiskSyncs(nsec)
    ensures k < |Disk(TrackItems(data, track, nsec))| && Disk(TrackItems(data, track, nsec))[k] == Raw(SyncLong())
  {
    hide TrackItems, Disk, SyncLong;
    TrackSyncsAt(data, track, nsec);
    var r: nat, s: nat :| r < 3 && s < nsec && k == Pos(nsec, r, s);
    assert POST_INDEX + SECTOR_LONGS * s + 1 in TrackSyncs(nsec);
    DiskItem(TrackItems(data, track, nsec), r, POST_INDEX + SECTOR_LONGS * s + 1);
  }

  lemma DiskRawIsSync(data: seq<Long>, track: nat, nsec: nat, k: nat)
    requires |data| == 128 * nsec && (nsec == 11 || nsec == 22)
    requires k < |Disk(TrackItems(data, track, nsec))| && Disk(TrackItems(data, track, nsec))[k].Raw?
    ensures k in DiskSyncs(nsec)
  {
    hide TrackItems, Disk, SyncLong;
    var items, n := TrackItems(data, track, nsec), TrackLongs(nsec);
    TrackSyncsAt(data, track, nsec);
    DiskSize(items);
    var r := if k < n then 0 else if k < 2 * n then 1 else 2;
    DiskItem(items, r, k - n * r);
    assert k - n * r in TrackSyncs(nsec);
    var s: nat :| s < nsec && k - n * r == POST_INDEX + SECTOR_LONGS * s + 1;
    assert k == Pos(nsec, r, s);
  }

  lemma DiskSyncsAt(data: seq<Long>, track: nat, nsec: nat)
    requires |data| == 128 * nsec && (nsec == 11 || nsec == 22)
    ensures SyncsAt(Disk(TrackItems(data, track, nsec)), DiskSyncs(nsec))
  {
    hide TrackItems, Disk, SyncLong, DiskSyncs;
    var disk := Disk(TrackItems(data, track, nsec));
    forall k | k in DiskSyncs(nsec)
      ensures k < |disk| && disk[k] == Raw(SyncLong())
    {
      DiskSyncIsRaw(data, track, nsec, k);
    }
    forall k: nat | k < |disk| && disk[k].Raw?
      ensures k in DiskSyncs(nsec)
    {
      DiskRawIsSync(data, track, nsec, k);
    }
  }

  lemma DiskSize(items: seq<Item>)
    ensures |Disk(items)| == 3 * |items|
  {}

  function DiskCells(data: seq<Long>, track: nat, nsec: nat): seq<bool>
    requires |data| == 128 * nsec
  {
    CellsOf(Disk(TrackItems(data, track, nsec)))
  }

  lemma DiskIsLawful(data: seq<Long>, track: nat, nsec: nat)
    requires |data| == 128 * nsec && (nsec == 11 || nsec == 22)
    ensures Lawful(DiskCells(data, track, nsec), SyncWords(DiskSyncs(nsec)))
    ensures |DiskCells(data, track, nsec)| == 96 * TrackLongs(nsec)
  {
    hide Lawful, CellsOf, SyncsAt, TrackItems, Disk, DiskSyncs, SyncWords;
    var items := TrackItems(data, track, nsec);
    DiskSyncsAt(data, track, nsec);
    DiskItem(items, 0, 0);
    DiskSize(items);
    FirstItem(data, track, nsec);
    TrackIsLawful(Disk(items), DiskSyncs(nsec));
  }

  lemma FirstItem(data: seq<Long>, track: nat, nsec: nat)
    requires |data| == 128 * nsec && (nsec == 11 || nsec == 22)
    ensures TrackItems(data, track, nsec)[0] == Coded(Zero())
  {
    hide Zero;
  }

  /** The detector's pattern is on the disk exactly where the sync longs are. */
  lemma DiskSync(data: seq<Long>, track: nat, nsec: nat, o: nat)
    requires |data| == 128 * nsec && (nsec == 11 || nsec == 22)
    ensures SyncAt(DiskCells(data, track, nsec), o) <==>
              exists r: nat, s: nat :: r < 3 && s < nsec && o == 32 * Pos(nsec, r, s)
  {
    hide Lawful, DiskCells, SyncAt, SyncWords, Pos;
    var c, syncs := DiskCells(data, track, nsec), DiskSyncs(nsec);
    DiskIsLawful(data, track, nsec);
    SyncUnambiguous(c, SyncWords(syncs), o);
    SyncWordIs(syncs, o / 16);
    SyncWordIs(syncs, o / 16 + 1);
    if SyncAt(c, o) {
      var r: nat, s: nat :| r < 3 && s < nsec && o / 16 / 2 == Pos(nsec, r, s);
      var r': nat, s': nat :| r' < 3 && s' < nsec && (o / 16 + 1) / 2 == Pos(nsec, r', s');
      Spacing(nsec, r, s, r', s');
      assert o == 32 * Pos(nsec, r, s);
    }
    if r: nat, s: nat :| r < 3 && s < nsec && o == 32 * Pos(nsec, r, s) {
      assert o / 16 / 2 == Pos(nsec, r, s) == (o / 16 + 1) / 2;
    }
  }

  /** The read that starts at cell q hears sector s of revolution r when that is the first whose sync long
      is still ahead. */
  lemma NextOnDisk(data: seq<Long>, track: nat, nsec: nat, q: nat, r: nat, s: nat)
    requires |data| == 128 * nsec && OnTrack(nsec, r, s) && q <= 32 * Pos(nsec, r, s)
    requires s > 0 ==> 32 * Pos(nsec, r, s - 1) < q
    requires s == 0 && r > 0 ==> 32 * Pos(nsec, r - 1, nsec - 1) < q
    ensures NextSync(DiskCells(data, track, nsec), q) == 32 * Pos(nsec, r, s)
  {
    hide DiskCells, SyncAt, NextSync, Pos;
    var c, o := DiskCells(data, track, nsec), NextSync(DiskCells(data, track, nsec), q);
    DiskSync(data, track, nsec, 32 * Pos(nsec, r, s));
    assert SyncAt(c, 32 * Pos(nsec, r, s));
    DiskSync(data, track, nsec, o);
    var r': nat, s': nat :| r' < 3 && s' < nsec && o == 32 * Pos(nsec, r', s');
    Spacing(nsec, r', s', r, s);
    Spacing(nsec, r, s, r', s');
    if s > 0 {
      if (r', s') != (r, s - 1) { Spacing(nsec, r', s', r, s - 1); }
    } else if r > 0 {
      if (r', s') != (r - 1, nsec - 1) { Spacing(nsec, r', s', r - 1, nsec - 1); }
    }
  }

  // ----- the hunt

  /** The raw longs a read delivers from cell o on. */
  function LongsAt(c: seq<bool>, o: nat, n: nat): (r: seq<Long>)
    requires o + 32 * n <= |c|
    ensures |r| == n
  {
    seq(n, i requires 0 <= i < n => Rev(c[o + 32 * i..o + 32 * i + 32]))
  }

  /** Sectors to the end of the track, from the first three longs of a sector. */
  function Togo(p: seq<Long>): nat
    requires |p| == 3
  {
    NumOf(GetLong(p[1], p[2])[24..32])
  }

  /** The loop that looks for the last sector before the gap: read number i starts latency(i) cells after the
      one before ended and delivers six words from the next sync long on. The result is where the read that
      found the last sector ended, or -1 when the disk stops first. */
  function HuntLast(c: seq<bool>, pos: nat, latency: nat -> nat, i: nat): int
    decreases |c| - pos
  {
    var o := NextSync(c, pos + latency(i));
    if o < 0 || o + 96 > |c| then -1
    else if Togo(LongsAt(c, o, 3)) == 1 then o + 96
    else HuntLast(c, o + 96, latency, i + 1)
  }

  lemma LongsOnDisk(data: seq<Long>, track: nat, nsec: nat, r: nat, k: nat, n: nat)
    requires |data| == 128 * nsec && r < 3 && 0 < k && k + n <= TrackLongs(nsec)
    ensures 32 * (TrackLongs(nsec) * r + k) + 32 * n <= |DiskCells(data, track, nsec)|
    ensures var p := LongsAt(DiskCells(data, track, nsec), 32 * (TrackLongs(nsec) * r + k), n);
            forall i: nat :: i < n ==> p[i] == Rev(OnDisk(TrackItems(data, track, nsec), k + i))
  {
    hide CellsOf, OnDisk, TrackItems, Rev, Disk;
    var items := TrackItems(data, track, nsec);
    var disk, at := Disk(items), TrackLongs(nsec) * r + k;
    DiskSize(items);
    Room(TrackLongs(nsec), r, k, n);
    var c := DiskCells(data, track, nsec);
    forall i: nat | i < n
      ensures c[32 * at + 32 * i..32 * at + 32 * i + 32] == OnDisk(items, k + i)
    {
      LongCells(disk, at + i);
      DiskItem(items, r, k + i);
      assert 32 * (at + i) == 32 * at + 32 * i;
    }
  }

  lemma Room(len: nat, r: nat, k: nat, n: nat)
    requires r < 3 && k + n <= len
    ensures 32 * (len * r + k) + 32 * n <= 32 * (3 * len)
  {
    if r == 0 {} else if r == 1 {} else {}
  }

  lemma TogoOnDisk(data: seq<Long>, track: nat, nsec: nat, r: nat, s: nat)
    requires |data| == 128 * nsec && OnTrack(nsec, r, s) && track < 256
    ensures 32 * Pos(nsec, r, s) + 96 <= |DiskCells(data, track, nsec)|
    ensures Togo(LongsAt(DiskCells(data, track, nsec), 32 * Pos(nsec, r, s), 3)) == nsec - s
  {
    hide DiskCells, LongsAt, TrackItems, OnDisk, Info, GetLong, Rev, Even, NumOf, SectorItem;
    var items, k, info := TrackItems(data, track, nsec), POST_INDEX + 1 + SECTOR_LONGS * s, Info(track, s, nsec - s);
    SectorsFit(nsec);
    LongsOnDisk(data, track, nsec, r, k, 3);
    ItemAt(data, track, nsec, s, 2);
    ItemAt(data, track, nsec, s, 3);
    InfoItems(info, SectorData(data, s));
    LongSurvives(items, k + 1, k + 2, info);
    InfoFields(track, s, nsec - s);
  }

  /** From the end of one six-word read to the next sync long: the longest a read may be late. */
  const MAX_SECTOR_LATENCY: nat := 8608

  lemma {:induction false} HuntFrom(data: seq<Long>, track: nat, nsec: nat, r: nat, s: nat, pos: nat,
                                    latency: nat -> nat, i: nat)
    requires |data| == 128 * nsec && OnTrack(nsec, r, s) && track < 256
    requires forall j: nat :: j > i ==> latency(j) <= MAX_SECTOR_LATENCY
    requires NextSync(DiskCells(data, track, nsec), pos + latency(i)) == 32 * Pos(nsec, r, s)
    ensures HuntLast(DiskCells(data, track, nsec), pos, latency, i) == 32 * Pos(nsec, r, nsec - 1) + 96
    decreases nsec - s
  {
    hide DiskCells, LongsAt, Togo, NextSync;
    TogoOnDisk(data, track, nsec, r, s);
    if s + 1 < nsec {
      var end := 32 * Pos(nsec, r, s) + 96;
      NextOnDisk(data, track, nsec, end + latency(i + 1), r, s + 1);
      HuntFrom(data, track, nsec, r, s + 1, end, latency, i + 1);
    }
  }

  /** What the whole read delivers: nsec sectors but for a long, from the first sync long after the hunt and
      a further latency. */
  function ReadDisk(c: seq<bool>, pos: nat, latency: nat -> nat, last: nat, nsec: nat): (p: seq<Long>)
    requires nsec > 0
  {
    var end := HuntLast(c, pos, latency, 0);
    if end < 0 then []
    else
      var o := NextSync(c, end + last);
      var n := SECTOR_LONGS * nsec - 1;
      if o < 0 || o + 32 * n > |c| then [] else LongsAt(c, o, n)
  }

  /** The sector a read from cell q of the first revolution hears. */
  lemma {:induction false} FirstHeard(data: seq<Long>, track: nat, nsec: nat, q: nat, s: nat) returns (r': nat, s': nat)
    requires |data| == 128 * nsec && OnTrack(nsec, 0, s)
    requires q <= 32 * TrackLongs(nsec) && (s > 0 ==> 32 * Pos(nsec, 0, s - 1) < q)
    ensures r' < 2 && s' < nsec
    ensures NextSync(DiskCells(data, track, nsec), q) == 32 * Pos(nsec, r', s')
    decreases nsec - s
  {
    hide DiskCells, NextSync;
    if q <= 32 * Pos(nsec, 0, s) {
      NextOnDisk(data, track, nsec, q, 0, s);
      r', s' := 0, s;
    } else if s + 1 < nsec {
      r', s' := FirstHeard(data, track, nsec, q, s + 1);
    } else {
      NextOnDisk(data, track, nsec, q, 1, 0);
      r', s' := 1, 0;
    }
  }

  /** Wherever on the first revolution the reader starts, and however late each read is within the slack the
      sectors leave, the hunt ends and the read that follows delivers the track as it was written. */
  lemma HuntFindsTrack(data: seq<Long>, track: nat, nsec: nat, pos: nat, latency: nat -> nat, last: nat)
    requires |data| == 128 * nsec && (nsec == 11 || nsec == 22) && track < 256
    requires pos + latency(0) <= 32 * TrackLongs(nsec)
    requires forall j: nat :: j > 0 ==> latency(j) <= MAX_SECTOR_LATENCY
    requires last <= MAX_SECTOR_LATENCY
    ensures IsImage(ReadDisk(DiskCells(data, track, nsec), pos, latency, last, nsec), data, track, nsec)
  {
    hide DiskCells, LongsAt, NextSync, HuntLast, TrackItems, OnDisk, Rev;
    var c := DiskCells(data, track, nsec);
    var r, s := FirstHeard(data, track, nsec, pos + latency(0), 0);
    HuntFrom(data, track, nsec, r, s, pos, latency, 0);
    Spacing(nsec, r, nsec - 1, r + 1, 0);
    NextOnDisk(data, track, nsec, 32 * Pos(nsec, r, nsec - 1) + 96 + last, r + 1, 0);
    SectorsFit(nsec);
    LongsOnDisk(data, track, nsec, r + 1, POST_INDEX + 1, SECTOR_LONGS * nsec - 1);
  }
}
