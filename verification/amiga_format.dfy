/** The Amiga track format: longs of even and odd bits, checksums, and sync longs the clock rule spares. */
module AmigaFormat {
  import opened Arithmetic
  import opened Longs
  import opened Stream

  // ----- emitting longs

  /** The data bits of l with the clock bits they call for, but for the first clock. */
  function Clocked(l: Long): Long {
    Or(Data(l), Shl(Data(Not(Or(Shr(l, 2), l))), 1))
  }

  /** A long as it goes to memory, big-endian, after its first clock has been cleared if pr ended in a one. */
  function Emitted(v: Long, pr: Long): Long { And(v, Not(Shl(pr, 31))) }

  lemma ClockedBits(l: Long, j: nat)
    requires j < 32
    ensures j % 2 == 1 ==> Clocked(l)[j] == l[j]
    ensures j % 2 == 0 ==> Clocked(l)[j] == (!l[j + 1] && (j == 0 || !l[j - 1]))
  {}

  lemma EmittedBits(v: Long, pr: Long, j: nat)
    requires j < 32
    ensures Emitted(v, pr)[j] == (v[j] && (j > 0 || !pr[31]))
  {}

  function SyncLong(): Long { SYNC_PAIR }

  /** Shifts even bits into the data positions. */
  function Even(l: Long): Long { Shr(l, 1) }

  /** One item of a track: a long written as it is, or data to be clocked. */
  datatype Item = Raw(v: Long) | Coded(l: Long)

  /** The value the emitter remembers for the next long. */
  function Value(i: Item): Long {
    match i
    case Raw(v) => v
    case Coded(l) => Clocked(l)
  }

  /** What precedes item k. */
  function Before(items: seq<Item>, k: nat): Long
    requires k <= |items|
  {
    if k == 0 then Zero() else Value(items[k - 1])
  }

  /** Item k as it passes under the head. */
  function OnDisk(items: seq<Item>, k: nat): Long
    requires k < |items|
  {
    Emitted(Value(items[k]), Before(items, k))
  }

  function CellsOf(items: seq<Item>): (r: seq<bool>)
    ensures |r| == 32 * |items|
  {
    seq(32 * |items|, k requires 0 <= k < 32 * |items| => OnDisk(items, k / 32)[k % 32])
  }

  // ----- the clock rule

  /** The only raw items are sync longs, and they are where they should be. */
  predicate SyncsAt(items: seq<Item>, syncs: set<nat>) {
    && (forall s :: s in syncs ==> s < |items| && items[s] == Raw(SyncLong()))
    && (forall k: nat :: k < |items| && items[k].Raw? ==> k in syncs)
  }

  /** The 16-cell words the sync longs fill. */
  function SyncWords(syncs: set<nat>): set<nat> {
    (set s | s in syncs :: 2 * s) + (set s | s in syncs :: 2 * s + 1)
  }

  lemma SyncWordIs(syncs: set<nat>, m: nat)
    ensures m in SyncWords(syncs) <==> m / 2 in syncs
  {
    if m / 2 in syncs {
      assert m == 2 * (m / 2) || m == 2 * (m / 2) + 1;
    }
  }

  /** Data cells are never disturbed. */
  lemma DataCellOnDisk(items: seq<Item>, k: nat, j: nat)
    requires k < |items| && j < 32 && j % 2 == 1
    ensures OnDisk(items, k)[j] == Value(items[k])[j]
  {
    hide Clocked, SyncLong;
    EmittedBits(Value(items[k]), Before(items, k), j);
  }

  lemma CodedClock(items: seq<Item>, k: nat, j: nat)
    requires k < |items| && items[k].Coded? && j < 32 && j % 2 == 0
    ensures OnDisk(items, k)[j]
         == (!OnDisk(items, k)[j + 1] && !(if j == 0 then Before(items, k)[31] else OnDisk(items, k)[j - 1]))
  {
    hide Clocked, SyncLong, Emitted;
    var l := items[k].l;
    ClockedBits(l, j);
    ClockedBits(l, j + 1);
    EmittedBits(Clocked(l), Before(items, k), j);
    EmittedBits(Clocked(l), Before(items, k), j + 1);
    if j > 0 {
      ClockedBits(l, j - 1);
      EmittedBits(Clocked(l), Before(items, k), j - 1);
    }
  }

  lemma SyncOnDisk(items: seq<Item>, k: nat)
    requires k < |items| && items[k] == Raw(SyncLong())
    ensures OnDisk(items, k) == SYNC_PAIR
  {
    hide Emitted;
    forall j: nat | j < 32
      ensures OnDisk(items, k)[j] == SYNC_PAIR[j]
    {
      EmittedBits(SyncLong(), Before(items, k), j);
    }
  }

  /** Inside a sync long every clock is lawful but the two dropped ones. */
  lemma SyncClock(j: nat)
    requires j < 32 && j % 2 == 0 && j % 16 != 10
    ensures SYNC_PAIR[j] == (!SYNC_PAIR[j + 1] && (j == 0 || !SYNC_PAIR[j - 1])) || (j == 0 && SYNC_PAIR[1])
    ensures j == 0 ==> !SYNC_PAIR[0] && SYNC_PAIR[1]
  {
    if j < 16 { if j < 8 { if j < 4 {} else {} } else { if j < 12 {} else {} } }
    else { if j < 24 { if j < 20 {} else {} } else { if j < 28 {} else {} } }
  }

  lemma CellAt(items: seq<Item>, k: nat, j: nat)
    requires k < |items| && j < 32
    ensures CellsOf(items)[32 * k + j] == OnDisk(items, k)[j]
  {
    hide OnDisk;
    SplitCell(k, j);
  }

  lemma SplitCell(k: nat, j: nat)
    requires j < 32
    ensures (32 * k + j) / 32 == k && (32 * k + j) % 32 == j
  {}

  lemma DroppedInSync(syncs: set<nat>, k: nat, j: nat)
    requires k in syncs && j < 32 && j % 16 == 10
    ensures Dropped(32 * k + j, SyncWords(syncs))
  {
    SyncWordIs(syncs, (32 * k + j) / 16);
    assert (32 * k + j) / 16 / 2 == k;
  }

  lemma PreviousCell(items: seq<Item>, k: nat, j: nat)
    requires k < |items| && j < 32 && 0 < 32 * k + j
    ensures CellsOf(items)[32 * k + j - 1] == (if j == 0 then Before(items, k)[31] else OnDisk(items, k)[j - 1])
  {
    hide OnDisk, CellsOf;
    if j > 0 {
      CellAt(items, k, j - 1);
    } else {
      CellAt(items, k - 1, 31);
      DataCellOnDisk(items, k - 1, 31);
    }
  }

  lemma ClockInLong(items: seq<Item>, syncs: set<nat>, k: nat, j: nat)
    requires SyncsAt(items, syncs) && k < |items| && j < 32 && j % 2 == 0 && 0 < 32 * k + j
    requires !Dropped(32 * k + j, SyncWords(syncs))
    ensures ClockOk(CellsOf(items), 32 * k + j)
  {
    hide OnDisk, CellsOf, Dropped, SyncWords, Before;
    CellAt(items, k, j);
    CellAt(items, k, j + 1);
    PreviousCell(items, k, j);
    if items[k].Coded? {
      CodedClock(items, k, j);
    } else {
      SyncOnDisk(items, k);
      if j % 16 == 10 { DroppedInSync(syncs, k, j); }
      SyncClock(j);
    }
  }

  lemma LongCells(items: seq<Item>, k: nat)
    requires k < |items|
    ensures CellsOf(items)[32 * k..32 * k + 32] == OnDisk(items, k)
  {
    hide OnDisk, CellsOf;
    forall j: nat | j < 32
      ensures CellsOf(items)[32 * k..32 * k + 32][j] == OnDisk(items, k)[j]
    {
      CellAt(items, k, j);
    }
  }

  lemma Halves(h: nat)
    requires h < 2
    ensures SYNC_PAIR[16 * h..16 * h + 16] == SYNC_WORD
  {
    if h == 0 {} else {}
  }

  lemma SyncInTrack(items: seq<Item>, syncs: set<nat>, k: nat, h: nat)
    requires SyncsAt(items, syncs) && k in syncs && h < 2
    ensures 32 * k + 16 * h + 16 <= 32 * |items|
    ensures CellsOf(items)[32 * k + 16 * h..32 * k + 16 * h + 16] == SYNC_WORD
  {
    hide OnDisk, CellsOf;
    SyncOnDisk(items, k);
    LongCells(items, k);
    Halves(h);
    var c := CellsOf(items);
    assert c[32 * k + 16 * h..32 * k + 16 * h + 16] == c[32 * k..32 * k + 32][16 * h..16 * h + 16];
  }

  lemma SyncWordAt(items: seq<Item>, syncs: set<nat>, m: nat)
    requires SyncsAt(items, syncs) && m in SyncWords(syncs)
    ensures 16 * m + 16 <= 32 * |items| && CellsOf(items)[16 * m..16 * m + 16] == SYNC_WORD
  {
    hide OnDisk, CellsOf, SyncsAt, SyncWords;
    var k, h := m / 2, m % 2;
    assert 32 * k + 16 * h == 16 * m;
    SyncWordIs(syncs, m);
    SyncInTrack(items, syncs, k, h);
  }

  lemma TrackMarked(items: seq<Item>, syncs: set<nat>)
    requires SyncsAt(items, syncs)
    ensures Marked(CellsOf(items), SyncWords(syncs))
  {
    hide OnDisk, CellsOf, SyncsAt, SyncWords;
    forall m | m in SyncWords(syncs)
      ensures 16 * m + 16 <= |CellsOf(items)| && CellsOf(items)[16 * m..16 * m + 16] == SYNC_WORD
    {
      SyncWordAt(items, syncs, m);
    }
  }

  lemma TrackClocked(items: seq<Item>, syncs: set<nat>)
    requires SyncsAt(items, syncs)
    ensures Stream.Clocked(CellsOf(items), SyncWords(syncs))
  {
    hide OnDisk, CellsOf, SyncsAt, Dropped, SyncWords, ClockOk;
    var c := CellsOf(items);
    forall x | 0 < x && x + 1 < |c| && x % 2 == 0 && !Dropped(x, SyncWords(syncs))
      ensures ClockOk(c, x)
    {
      ClockAtCell(items, syncs, x);
    }
  }

  lemma WholeWords(n: nat)
    ensures 32 * n % 16 == 0
  {}

  /** A track of coded longs and sync longs obeys the clock rule everywhere but inside the sync longs. */
  lemma TrackIsLawful(items: seq<Item>, syncs: set<nat>)
    requires SyncsAt(items, syncs) && items != [] && items[0].Coded?
    ensures Lawful(CellsOf(items), SyncWords(syncs))
  {
    hide OnDisk, CellsOf, SyncsAt, SyncWords, Marked, Stream.Clocked;
    TrackMarked(items, syncs);
    TrackClocked(items, syncs);
    WholeWords(|items|);
    CellAt(items, 0, 0);
    CellAt(items, 0, 1);
    CodedClock(items, 0, 0);
  }

  lemma EvenCell(x: nat)
    requires x % 2 == 0
    ensures x == 32 * (x / 32) + x % 32 && x % 32 % 2 == 0
  {
    assert x % 32 == 2 * (x / 2 - 16 * (x / 32));
    TwiceIsEven(x / 2 - 16 * (x / 32));
  }

  lemma ClockAtCell(items: seq<Item>, syncs: set<nat>, x: nat)
    requires SyncsAt(items, syncs) && 0 < x && x + 1 < 32 * |items| && x % 2 == 0 && !Dropped(x, SyncWords(syncs))
    ensures ClockOk(CellsOf(items), x)
  {
    hide OnDisk, CellsOf, SyncsAt, Dropped, SyncWords, ClockOk;
    EvenCell(x);
    ClockInLong(items, syncs, x / 32, x % 32);
  }

  // ----- decoding longs

  /** The long whose even and odd bits are the data bits of two raw longs. */
  function GetLong(p0: Long, p1: Long): Long { Rev(Or(Shl(Data(p0), 1), Data(p1))) }

  lemma MergeRevAt(a: Long, b: Long, j: nat)
    requires j < 32
    ensures Or(Shl(Rev(Data(a)), 1), Rev(Data(b)))[j] == Rev(Or(Shl(Data(a), 1), Data(b)))[j]
  {
    hide Rev, Or, Shl, Data, Swap;
    var i := Swap(j);
    RevAt(Or(Shl(Data(a), 1), Data(b)), j);
    RevAt(Data(b), j);
    OrAt(Shl(Rev(Data(a)), 1), Rev(Data(b)), j);
    OrAt(Shl(Data(a), 1), Data(b), i);
    ShlAt(Rev(Data(a)), j);
    ShlAt(Data(a), i);
    if j % 2 == 0 {
      SwapNext(j);
    }
    if j + 1 < 32 {
      RevAt(Data(a), j + 1);
      DataAt(a, Swap(j + 1));
    }
    if i + 1 < 32 { DataAt(a, i + 1); }
  }

  lemma MergeRev(a: Long, b: Long)
    ensures Or(Shl(Rev(Data(a)), 1), Rev(Data(b))) == Rev(Or(Shl(Data(a), 1), Data(b)))
  {
    hide Rev, Or, Shl, Data;
    forall j: nat | j < 32
      ensures Or(Shl(Rev(Data(a)), 1), Rev(Data(b)))[j] == Rev(Or(Shl(Data(a), 1), Data(b)))[j]
    {
      MergeRevAt(a, b, j);
    }
  }

  /** Byte order does not disturb the merge: what a reader gets is the merge of the data bits. */
  lemma GetLongOf(p0: Long, p1: Long)
    ensures GetLong(Rev(p0), Rev(p1)) == Or(Shl(Data(p0), 1), Data(p1))
  {
    hide Rev, Data, Shl, Or;
    DataRev(p0);
    DataRev(p1);
    MergeRev(p0, p1);
    RevRev(Or(Shl(Data(p0), 1), Data(p1)));
  }

  lemma MergeEvenOdd(l: Long)
    ensures Or(Shl(Data(Even(l)), 1), Data(l)) == l
  {}

  lemma MergeZero(l: Long)
    ensures Or(Shl(Data(Zero()), 1), Data(l)) == Data(l)
  {}

  lemma DataOnDisk(items: seq<Item>, k: nat)
    requires k < |items| && items[k].Coded?
    ensures Data(OnDisk(items, k)) == Data(items[k].l)
  {
    hide OnDisk, Clocked;
    forall j: nat | j < 32
      ensures Data(OnDisk(items, k))[j] == Data(items[k].l)[j]
    {
      if j % 2 == 1 {
        DataCellOnDisk(items, k, j);
        ClockedBits(items[k].l, j);
      }
    }
  }

  /** Whatever was coded as even and odd halves comes back whole. */
  lemma LongSurvives(items: seq<Item>, k: nat, m: nat, l: Long)
    requires k < |items| && m < |items| && items[k] == Coded(Even(l)) && items[m] == Coded(l)
    ensures GetLong(Rev(OnDisk(items, k)), Rev(OnDisk(items, m))) == l
  {
    hide OnDisk, GetLong, Rev, Data, Shl, Or, Even;
    DataOnDisk(items, k);
    DataOnDisk(items, m);
    GetLongOf(OnDisk(items, k), OnDisk(items, m));
    MergeEvenOdd(l);
  }

  // ----- numbers in bytes

  /** The last k binary digits of n, most significant first. */
  function Digits(n: nat, k: nat): (r: seq<bool>)
    ensures |r| == k
    decreases k
  {
    if k == 0 then [] else Digits(n / 2, k - 1) + [n % 2 == 1]
  }

  function NumOf(b: seq<bool>): nat
    decreases |b|
  {
    if b == [] then 0 else 2 * NumOf(b[..|b| - 1]) + (if b[|b| - 1] then 1 else 0)
  }

  lemma {:induction false} NumDigits(n: nat, k: nat)
    requires n < Power(2, k)
    ensures NumOf(Digits(n, k)) == n
    decreases k
  {
    if k == 0 {
    } else {
      NumDigits(n / 2, k - 1);
      assert Digits(n, k)[..k - 1] == Digits(n / 2, k - 1);
    }
  }

  function ByteOf(n: nat): (r: seq<bool>)
    ensures |r| == 8
  {
    Digits(n, 8)
  }

  lemma NumByte(n: nat)
    requires n < 256
    ensures NumOf(ByteOf(n)) == n
  {
    assert Power(2, 2) == 4 && Power(2, 4) == 4 * Power(2, 2) && Power(2, 6) == 4 * Power(2, 4) && Power(2, 8) == 4 * Power(2, 6);
    NumDigits(n, 8);
  }

  lemma {:induction false} DigitsNum(b: seq<bool>)
    ensures Digits(NumOf(b), |b|) == b && NumOf(b) < Power(2, |b|)
    decreases |b|
  {
    if b != [] {
      var n := |b| - 1;
      DigitsNum(b[..n]);
      assert b == b[..n] + [b[n]];
    }
  }

  lemma ByteOfNum(b: seq<bool>)
    requires |b| == 8
    ensures ByteOf(NumOf(b)) == b && NumOf(b) < 256
  {
    assert Power(2, 2) == 4 && Power(2, 4) == 4 * Power(2, 2) && Power(2, 6) == 4 * Power(2, 4) && Power(2, 8) == 4 * Power(2, 6);
    DigitsNum(b);
  }

  /** The info long of a sector: format, track, sector number, sectors to the end of the track. */
  function Info(track: nat, sec: nat, togo: nat): Long {
    ByteOf(0xff) + ByteOf(track) + ByteOf(sec) + ByteOf(togo)
  }

  lemma InfoFields(track: nat, sec: nat, togo: nat)
    requires track < 256 && sec < 256 && togo < 256
    ensures var i := Info(track, sec, togo);
            && NumOf(i[0..8]) == 0xff && NumOf(i[8..16]) == track
            && NumOf(i[16..24]) == sec && NumOf(i[24..32]) == togo
  {
    hide ByteOf, NumOf;
    NumByte(0xff);
    NumByte(track);
    NumByte(sec);
    NumByte(togo);
    var i := Info(track, sec, togo);
    assert i[0..8] == ByteOf(0xff) && i[8..16] == ByteOf(track) && i[16..24] == ByteOf(sec) && i[24..32] == ByteOf(togo);
  }

  // ----- a track

  const SECTOR_LONGS: nat := 272
  const POST_INDEX: nat := 32

  function DatChecksum(x: seq<Long>): Long {
    var c := XorAll(x);
    Data(Xor(c, Shr(c, 1)))
  }

  /** Long k of a sector with info long info and data x, counted from its gap long. */
  function SectorItem(info: Long, x: seq<Long>, k: nat): Item
    requires |x| == 128 && k < SECTOR_LONGS
  {
    if k == 1 then Raw(SyncLong())
    else if k == 2 then Coded(Even(info))
    else if k == 3 then Coded(info)
    else if k == 13 then Coded(Xor(info, Shr(info, 1)))
    else if k == 15 then Coded(DatChecksum(x))
    else if 16 <= k < 144 then Coded(Even(x[k - 16]))
    else if 144 <= k then Coded(x[k - 144])
    else Coded(Zero())
  }

  /** Longs in a whole track: 110000 cells, or twice that at high density. */
  function TrackLongs(nsec: nat): nat { if nsec == 11 then 3437 else 6874 }

  function SectorData(data: seq<Long>, sec: nat): (r: seq<Long>)
    requires 128 * sec + 128 <= |data|
    ensures |r| == 128
  {
    data[128 * sec..128 * sec + 128]
  }

  /** The sector long i of a track belongs to. */
  function SecNo(i: nat): (s: nat)
    requires i >= POST_INDEX
    ensures SECTOR_LONGS * s <= i - POST_INDEX < SECTOR_LONGS * s + SECTOR_LONGS
  {
    (i - POST_INDEX) / SECTOR_LONGS
  }

  function TrackItem(data: seq<Long>, track: nat, nsec: nat, i: nat): Item
    requires |data| == 128 * nsec
  {
    if POST_INDEX <= i < POST_INDEX + SECTOR_LONGS * nsec then
      var s := SecNo(i);
      SectorItem(Info(track, s, nsec - s), SectorData(data, s), i - POST_INDEX - SECTOR_LONGS * s)
    else Coded(Zero())
  }

  function TrackItems(data: seq<Long>, track: nat, nsec: nat): (r: seq<Item>)
    requires |data| == 128 * nsec
    ensures |r| == TrackLongs(nsec)
  {
    seq(TrackLongs(nsec), i requires 0 <= i < TrackLongs(nsec) => TrackItem(data, track, nsec, i))
  }

  /** Eleven or twenty-two sectors fit their track. */
  lemma SectorsFit(nsec: nat)
    requires nsec == 11 || nsec == 22
    ensures POST_INDEX + SECTOR_LONGS * nsec <= TrackLongs(nsec)
    ensures 32 * TrackLongs(11) <= 110000 < 32 * TrackLongs(11) + 32 && TrackLongs(22) == 2 * TrackLongs(11)
  {}

  lemma ItemAt(data: seq<Long>, track: nat, nsec: nat, s: nat, k: nat)
    requires |data| == 128 * nsec && (nsec == 11 || nsec == 22) && s < nsec && k < SECTOR_LONGS
    ensures var i := POST_INDEX + SECTOR_LONGS * s + k;
            i < TrackLongs(nsec) &&
            TrackItems(data, track, nsec)[i] == SectorItem(Info(track, s, nsec - s), SectorData(data, s), k)
  {
    hide SectorItem, Info, SectorData;
    var i := POST_INDEX + SECTOR_LONGS * s + k;
    assert SecNo(i) == s;
  }

  function TrackSyncs(nsec: nat): set<nat> {
    set s: nat | s < nsec :: POST_INDEX + SECTOR_LONGS * s + 1
  }

  lemma TrackSyncsAt(data: seq<Long>, track: nat, nsec: nat)
    requires |data| == 128 * nsec && (nsec == 11 || nsec == 22)
    ensures SyncsAt(TrackItems(data, track, nsec), TrackSyncs(nsec))
  {
    hide Info, SectorData, SyncLong, DatChecksum, Even;
    var items := TrackItems(data, track, nsec);
    forall k | k in TrackSyncs(nsec)
      ensures k < |items| && items[k] == Raw(SyncLong())
    {
      var s: nat :| s < nsec && k == POST_INDEX + SECTOR_LONGS * s + 1;
      ItemAt(data, track, nsec, s, 1);
    }
    forall k: nat | k < |items| && items[k].Raw?
      ensures k in TrackSyncs(nsec)
    {
      assert k == POST_INDEX + SECTOR_LONGS * SecNo(k) + 1;
    }
  }
}
