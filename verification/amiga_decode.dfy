/** Reading an Amiga track back: every check the reader makes passes, and every long comes back. */
module AmigaDecode {
  import opened Longs
  import opened AmigaFormat

  /** Big-endian values of raw longs. */
  function Values(s: seq<Long>): (r: seq<Long>)
    ensures |r| == |s|
  {
    seq(|s|, i requires 0 <= i < |s| => Rev(s[i]))
  }

  function MfmChecksum(s: seq<Long>): Long { Data(XorAll(Values(s))) }

  /** Raw longs as read, from the sync long of the first sector: nsec sectors but for the last gap long. */
  predicate TrackRead(p: seq<Long>, nsec: nat) { |p| == SECTOR_LONGS * nsec - 1 }

  function InfoAt(p: seq<Long>, nsec: nat, i: nat): Long
    requires TrackRead(p, nsec) && i < nsec
  {
    GetLong(p[SECTOR_LONGS * i + 1], p[SECTOR_LONGS * i + 2])
  }

  function SectorNumber(p: seq<Long>, nsec: nat, i: nat): nat
    requires TrackRead(p, nsec) && i < nsec
  {
    NumOf(InfoAt(p, nsec, i)[16..24])
  }

  predicate GoodInfo(info: Long, track: nat, nsec: nat, i: nat) {
    NumOf(info[0..8]) == 0xff && NumOf(info[8..16]) == track && NumOf(info[16..24]) < nsec && NumOf(info[24..32]) == nsec - i
  }

  predicate GoodHeader(p: seq<Long>, nsec: nat, i: nat)
    requires TrackRead(p, nsec) && i < nsec
  {
    var b := SECTOR_LONGS * i;
    MfmChecksum(p[b + 1..b + 11]) == GetLong(p[b + 11], p[b + 12])
  }

  predicate GoodData(p: seq<Long>, nsec: nat, i: nat)
    requires TrackRead(p, nsec) && i < nsec
  {
    var b := SECTOR_LONGS * i;
    MfmChecksum(p[b + 15..b + 271]) == GetLong(p[b + 13], p[b + 14])
  }

  /** Long j of sector i, merged from its even and odd halves. */
  function Merged(p: seq<Long>, nsec: nat, i: nat, j: nat): Long
    requires TrackRead(p, nsec) && i < nsec && j < 128
  {
    Or(Shl(Data(p[SECTOR_LONGS * i + 15 + j]), 1), Data(p[SECTOR_LONGS * i + 143 + j]))
  }

  /** The raw longs of a track as they are read after the sync long of its first sector has been found. */
  ghost predicate IsImage(p: seq<Long>, data: seq<Long>, track: nat, nsec: nat) {
    && (nsec == 11 || nsec == 22) && |data| == 128 * nsec && track < 256 && TrackRead(p, nsec)
    && forall i: nat :: i < |p| ==> p[i] == Rev(OnDisk(TrackItems(data, track, nsec), POST_INDEX + 1 + i))
  }

  lemma ImageSize(p: seq<Long>, data: seq<Long>, track: nat, nsec: nat)
    requires IsImage(p, data, track, nsec)
    ensures |data| == 128 * nsec && TrackRead(p, nsec) && (nsec == 11 || nsec == 22)
  {}

  lemma ImageItem(p: seq<Long>, data: seq<Long>, track: nat, nsec: nat, i: nat, k: nat)
    requires IsImage(p, data, track, nsec) && i < nsec && k < 271
    ensures var items := TrackItems(data, track, nsec);
            var at := POST_INDEX + SECTOR_LONGS * i + 1 + k;
            && SECTOR_LONGS * i + k < |p| && at < |items|
            && p[SECTOR_LONGS * i + k] == Rev(OnDisk(items, at))
            && items[at] == SectorItem(Info(track, i, nsec - i), SectorData(data, i), 1 + k)
  {
    hide OnDisk, SectorItem, Info, SectorData, TrackItems;
    ItemAt(data, track, nsec, i, 1 + k);
  }

  /** The data bits of a coded long survive the trip to disk and back. */
  lemma ImageData(p: seq<Long>, data: seq<Long>, track: nat, nsec: nat, i: nat, k: nat, l: Long)
    requires IsImage(p, data, track, nsec) && i < nsec && 0 < k < 271
    requires SectorItem(Info(track, i, nsec - i), SectorData(data, i), 1 + k) == Coded(l)
    ensures SECTOR_LONGS * i + k < |p| && Data(Rev(p[SECTOR_LONGS * i + k])) == Data(l)
  {
    hide OnDisk, SectorItem, Info, SectorData, TrackItems, Data, Rev, IsImage;
    ImageItem(p, data, track, nsec, i, k);
    ImageSize(p, data, track, nsec);
    var items, at := TrackItems(data, track, nsec), POST_INDEX + SECTOR_LONGS * i + 1 + k;
    RevRev(OnDisk(items, at));
    DataOnDisk(items, at);
  }

  /** A pair of longs is read as the merge of what was coded into them. */
  lemma ImagePair(p: seq<Long>, data: seq<Long>, track: nat, nsec: nat, i: nat, k: nat, m: nat, l0: Long, l1: Long)
    requires IsImage(p, data, track, nsec) && i < nsec && 0 < k < 271 && 0 < m < 271
    requires SectorItem(Info(track, i, nsec - i), SectorData(data, i), 1 + k) == Coded(l0)
    requires SectorItem(Info(track, i, nsec - i), SectorData(data, i), 1 + m) == Coded(l1)
    ensures SECTOR_LONGS * i + k < |p| && SECTOR_LONGS * i + m < |p|
    ensures GetLong(p[SECTOR_LONGS * i + k], p[SECTOR_LONGS * i + m]) == Or(Shl(Data(l0), 1), Data(l1))
  {
    hide SectorItem, Info, SectorData, Data, Rev, IsImage, GetLong, Shl, Or;
    ImageItem(p, data, track, nsec, i, k);
    ImageItem(p, data, track, nsec, i, m);
    ImageData(p, data, track, nsec, i, k, l0);
    ImageData(p, data, track, nsec, i, m, l1);
    var a, b := p[SECTOR_LONGS * i + k], p[SECTOR_LONGS * i + m];
    RevRev(a);
    RevRev(b);
    GetLongOf(Rev(a), Rev(b));
  }

  lemma InfoItems(info: Long, x: seq<Long>)
    requires |x| == 128
    ensures SectorItem(info, x, 2) == Coded(Even(info)) && SectorItem(info, x, 3) == Coded(info)
    ensures forall k: nat :: 4 <= k < 12 ==> SectorItem(info, x, k) == Coded(Zero())
    ensures SectorItem(info, x, 12) == Coded(Zero()) && SectorItem(info, x, 13) == Coded(Xor(info, Shr(info, 1)))
    ensures SectorItem(info, x, 14) == Coded(Zero()) && SectorItem(info, x, 15) == Coded(DatChecksum(x))
    ensures forall j: nat :: j < 128 ==> SectorItem(info, x, 16 + j) == Coded(Even(x[j]))
    ensures forall j: nat :: j < 128 ==> SectorItem(info, x, 144 + j) == Coded(x[j])
  {
    hide Even, DatChecksum, Zero, Xor, Shr;
  }

  lemma DataItems(info: Long, x: seq<Long>, j: nat)
    requires |x| == 128 && j < 128
    ensures SectorItem(info, x, 16 + j) == Coded(Even(x[j])) && SectorItem(info, x, 144 + j) == Coded(x[j])
  {
    hide SectorItem;
    InfoItems(info, x);
  }

  /** The info long comes back, so format, track, sector and distance checks all pass. */
  lemma InfoGood(p: seq<Long>, data: seq<Long>, track: nat, nsec: nat, i: nat)
    requires IsImage(p, data, track, nsec) && i < nsec
    ensures InfoAt(p, nsec, i) == Info(track, i, nsec - i)
    ensures GoodInfo(InfoAt(p, nsec, i), track, nsec, i) && SectorNumber(p, nsec, i) == i
  {
    hide SectorItem, Info, SectorData, GetLong, Even, Data, Shl, Or, NumOf;
    var info := Info(track, i, nsec - i);
    InfoItems(info, SectorData(data, i));
    ImagePair(p, data, track, nsec, i, 1, 2, Even(info), info);
    MergeEvenOdd(info);
    InfoFields(track, i, nsec - i);
  }

  lemma SectorInImage(p: seq<Long>, data: seq<Long>, track: nat, nsec: nat, i: nat)
    requires IsImage(p, data, track, nsec) && i < nsec
    ensures TrackRead(p, nsec) && SECTOR_LONGS * i + 270 < |p| && 128 * i + 128 <= |data|
  {}

  lemma MergedIs(p: seq<Long>, nsec: nat, i: nat, j: nat)
    requires TrackRead(p, nsec) && i < nsec && j < 128
    ensures SECTOR_LONGS * i + 143 + j < |p|
    ensures GetLong(p[SECTOR_LONGS * i + (15 + j)], p[SECTOR_LONGS * i + (143 + j)]) == Rev(Merged(p, nsec, i, j))
  {
    hide Rev, Or, Shl, Data;
  }

  lemma SectorDataAt(data: seq<Long>, i: nat, j: nat)
    requires 128 * i + 128 <= |data| && j < 128
    ensures SectorData(data, i)[j] == data[128 * i + j]
  {}

  /** Every long of the sector comes back, in the byte order it was given. */
  lemma DataComesBack(p: seq<Long>, data: seq<Long>, track: nat, nsec: nat, i: nat, j: nat)
    requires IsImage(p, data, track, nsec) && i < nsec && j < 128
    ensures 128 * i + j < |data| && Merged(p, nsec, i, j) == Rev(data[128 * i + j])
  {
    hide SectorItem, Info, Even, Data, Shl, Or, Rev, SectorData, GetLong, IsImage, Merged;
    SectorInImage(p, data, track, nsec, i);
    MergedIs(p, nsec, i, j);
    SectorDataAt(data, i, j);
    var info, x := Info(track, i, nsec - i), SectorData(data, i);
    DataItems(info, x, j);
    ImagePair(p, data, track, nsec, i, 15 + j, 143 + j, Even(x[j]), x[j]);
    MergeEvenOdd(x[j]);
    RevRev(Merged(p, nsec, i, j));
  }

  lemma ChecksumOf(s: seq<Long>, l: seq<Long>)
    requires |s| == |l| && forall k: nat :: k < |s| ==> Data(Rev(s[k])) == Data(l[k])
    ensures MfmChecksum(s) == Data(XorAll(l))
  {
    hide Data, Rev;
    XorAllData(Values(s), l);
  }

  function HeaderLongs(info: Long): (r: seq<Long>)
    ensures |r| == 10
  {
    [Even(info), info] + seq(8, k => Zero())
  }

  lemma XorTwo(a: Long, b: Long)
    ensures XorAll([a, b]) == Xor(a, b)
  {
    hide Xor;
    assert [a, b][..1] == [a] && [a][..0] == [];
    assert XorAll([a]) == Xor(XorAll([]), a);
    Longs.XorZero(a);
  }

  lemma HeaderSum(info: Long)
    ensures XorAll(HeaderLongs(info)) == Xor(info, Shr(info, 1))
  {
    hide Xor, Shr;
    XorAllConcat([Even(info), info], seq(8, k => Zero()));
    XorAllZeros(8);
    XorTwo(Even(info), info);
    Longs.XorZero(Xor(Even(info), info));
    XorCommutes(Even(info), info);
  }

  lemma XorCommutes(a: Long, b: Long)
    ensures Xor(a, b) == Xor(b, a)
  {}

  lemma DataTwice(a: Long)
    ensures Data(Data(a)) == Data(a)
  {}

  /** The header checksum agrees. */
  lemma HeaderGood(p: seq<Long>, data: seq<Long>, track: nat, nsec: nat, i: nat)
    requires IsImage(p, data, track, nsec) && i < nsec
    ensures GoodHeader(p, nsec, i)
  {
    hide SectorItem, Info, SectorData, GetLong, Even, Data, Shl, Or, IsImage, MfmChecksum, Rev, Xor, Shr;
    ImageSize(p, data, track, nsec);
    var info, x, b := Info(track, i, nsec - i), SectorData(data, i), SECTOR_LONGS * i;
    InfoItems(info, x);
    ImageItem(p, data, track, nsec, i, 12);
    var s, l := p[b + 1..b + 11], HeaderLongs(info);
    forall k: nat | k < 10
      ensures Data(Rev(s[k])) == Data(l[k])
    {
      assert s[k] == p[b + (1 + k)];
      ImageData(p, data, track, nsec, i, 1 + k, l[k]);
    }
    ChecksumOf(s, l);
    HeaderSum(info);
    ImagePair(p, data, track, nsec, i, 11, 12, Zero(), Xor(info, Shr(info, 1)));
    MergeZero(Xor(info, Shr(info, 1)));
  }

  function HalvesOf(x: seq<Long>): (r: seq<Long>)
    requires |x| == 128
    ensures |r| == 256
  {
    seq(128, j requires 0 <= j < 128 => Even(x[j])) + x
  }

  lemma HalvesSum(x: seq<Long>)
    requires |x| == 128
    ensures XorAll(HalvesOf(x)) == Xor(XorAll(x), Shr(XorAll(x), 1))
  {
    hide Xor, Shr, XorAll;
    var e := seq(128, j requires 0 <= j < 128 => Even(x[j]));
    XorAllConcat(e, x);
    XorAllShr(x, e);
    XorCommutes(XorAll(e), XorAll(x));
  }

  /** The data checksum agrees. */
  lemma DataGood(p: seq<Long>, data: seq<Long>, track: nat, nsec: nat, i: nat)
    requires IsImage(p, data, track, nsec) && i < nsec
    ensures GoodData(p, nsec, i)
  {
    hide SectorItem, Info, SectorData, GetLong, Even, Data, Shl, Or, IsImage, MfmChecksum, Rev, Xor, Shr, XorAll;
    ImageSize(p, data, track, nsec);
    var info, x, b := Info(track, i, nsec - i), SectorData(data, i), SECTOR_LONGS * i;
    InfoItems(info, x);
    ImageItem(p, data, track, nsec, i, 270);
    var s, l := p[b + 15..b + 271], HalvesOf(x);
    forall k: nat | k < 256
      ensures Data(Rev(s[k])) == Data(l[k])
    {
      assert s[k] == p[b + (15 + k)];
      if k >= 128 { assert SectorItem(info, x, 144 + (k - 128)) == Coded(x[k - 128]); }
      ImageData(p, data, track, nsec, i, 15 + k, l[k]);
    }
    ChecksumOf(s, l);
    HalvesSum(x);
    ImagePair(p, data, track, nsec, i, 13, 14, Zero(), DatChecksum(x));
    MergeZero(DatChecksum(x));
    DataTwice(Xor(XorAll(x), Shr(XorAll(x), 1)));
  }

  // ----- what the checksums catch

  lemma RevSame(a: Long, b: Long)
    ensures Data(Rev(a)) == Data(Rev(b)) <==> Data(a) == Data(b)
  {
    hide Data, Rev;
    DataRev(a);
    DataRev(b);
    RevRev(Data(a));
    RevRev(Data(b));
  }

  /** The checksum of longs one of which has been changed is what it was if and only if no data bit of it was changed. */
  lemma SumCatches(s: seq<Long>, k: nat, x: Long)
    requires k < |s|
    ensures MfmChecksum(s[k := x]) == MfmChecksum(s) <==> Data(x) == Data(s[k])
  {
    hide Xor, Data, Rev, XorAll;
    assert Values(s[k := x]) == Values(s)[k := Rev(x)];
    XorAllUpdate(Values(s), k, Rev(x));
    SumKept(XorAll(Values(s)), Rev(s[k]), Rev(x));
    RevSame(x, s[k]);
  }

  lemma MergeBits(a: Long, b: Long, j: nat)
    requires j < 32
    ensures Or(Shl(Data(a), 1), Data(b))[j] == if j % 2 == 1 then b[j] else a[j + 1]
  {
    hide Or, Shl, Data;
    OrAt(Shl(Data(a), 1), Data(b), j);
    ShlAt(Data(a), j);
    DataAt(b, j);
    if j + 1 < 32 { DataAt(a, j + 1); }
  }

  lemma SameData(a: Long, b: Long)
    ensures Data(a) == Data(b) <==> forall j: nat :: j < 32 && j % 2 == 1 ==> a[j] == b[j]
  {
    if Data(a) == Data(b) {
      forall j: nat | j < 32 && j % 2 == 1
        ensures a[j] == b[j]
      {
        assert Data(a)[j] == Data(b)[j];
      }
    }
  }

  /** A long sent in halves is read as it was if and only if no data bit of either half has been changed. */
  lemma HalvesCatch(a: Long, b: Long, a': Long, b': Long)
    ensures GetLong(a, b) == GetLong(a', b') <==> Data(a) == Data(a') && Data(b) == Data(b')
  {
    hide Or, Shl, Data, Rev;
    var x, y := Or(Shl(Data(a), 1), Data(b)), Or(Shl(Data(a'), 1), Data(b'));
    RevRev(x);
    RevRev(y);
    SameData(a, a');
    SameData(b, b');
    if x == y {
      forall j: nat | j < 32 && j % 2 == 1
        ensures a[j] == a'[j] && b[j] == b'[j]
      {
        MergeBits(a, b, j);
        MergeBits(a', b', j);
        MergeBits(a, b, j - 1);
        MergeBits(a', b', j - 1);
      }
    }
  }

  lemma SliceUpdate(p: seq<Long>, lo: nat, hi: nat, k: nat, x: Long)
    requires lo <= hi <= |p| && k < |p|
    ensures p[k := x][lo..hi] == if lo <= k < hi then p[lo..hi][k - lo := x] else p[lo..hi]
  {}

  /** A header whose checksum came out, and one long of which has been changed since, passes if and only if none of the
      changed bits carries data. */
  lemma HeaderCatches(p: seq<Long>, nsec: nat, i: nat, k: nat, x: Long)
    requires TrackRead(p, nsec) && i < nsec && GoodHeader(p, nsec, i) && 1 <= k < 13
    ensures GoodHeader(p[SECTOR_LONGS * i + k := x], nsec, i) <==> Data(x) == Data(p[SECTOR_LONGS * i + k])
  {
    hide MfmChecksum, GetLong, Data;
    var b := SECTOR_LONGS * i;
    SliceUpdate(p, b + 1, b + 11, b + k, x);
    if k < 11 {
      SumCatches(p[b + 1..b + 11], k - 1, x);
    } else {
      HalvesCatch(p[b + 11], p[b + 12], p[b + k := x][b + 11], p[b + k := x][b + 12]);
    }
  }

  /** And so does the data of a sector, with its checksum. */
  lemma DataCatches(p: seq<Long>, nsec: nat, i: nat, k: nat, x: Long)
    requires TrackRead(p, nsec) && i < nsec && GoodData(p, nsec, i) && 13 <= k < 271
    ensures GoodData(p[SECTOR_LONGS * i + k := x], nsec, i) <==> Data(x) == Data(p[SECTOR_LONGS * i + k])
  {
    hide MfmChecksum, GetLong, Data;
    var b := SECTOR_LONGS * i;
    SliceUpdate(p, b + 15, b + 271, b + k, x);
    if k >= 15 {
      SumCatches(p[b + 15..b + 271], k - 15, x);
    } else {
      HalvesCatch(p[b + 13], p[b + 14], p[b + k := x][b + 13], p[b + k := x][b + 14]);
    }
  }

  /** The info long passes its tests if and only if it is that of a sector of the track, as far from the track gap as it is
      found. */
  lemma InfoExactly(info: Long, track: nat, nsec: nat, i: nat)
    requires track < 256 && nsec <= 255 && i <= nsec
    ensures var sec := NumOf(info[16..24]);
            GoodInfo(info, track, nsec, i) <==> sec < nsec && info == Info(track, sec, nsec - i)
  {
    hide ByteOf, NumOf;
    var sec := NumOf(info[16..24]);
    if GoodInfo(info, track, nsec, i) {
      ByteOfNum(info[0..8]);
      ByteOfNum(info[8..16]);
      ByteOfNum(info[16..24]);
      ByteOfNum(info[24..32]);
      assert info == info[0..8] + info[8..16] + info[16..24] + info[24..32];
    }
    if sec < nsec { InfoFields(track, sec, nsec - i); }
  }
}
