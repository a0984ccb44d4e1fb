/** Reading an Amiga track: the sector loop, in place, and what it makes of a track as it was written. */
module AmigaRead {
  import opened Arithmetic
  import opened Longs
  import opened AmigaFormat
  import opened AmigaDecode
  import opened Stream

  // ----- what the sector loop computes

  predicate GoodSync(p: seq<Long>, nsec: nat, i: nat)
    requires TrackRead(p, nsec) && i < nsec
  {
    p[SECTOR_LONGS * i] == Rev(SyncLong())
  }

  /** Every test of sector i passes. */
  predicate GoodSector(p: seq<Long>, track: nat, nsec: nat, i: nat)
    requires TrackRead(p, nsec) && i < nsec
  {
    GoodInfo(InfoAt(p, nsec, i), track, nsec, i) && GoodHeader(p, nsec, i) && GoodData(p, nsec, i)
  }

  function SectorLongs(p: seq<Long>, nsec: nat, i: nat): (r: seq<Long>)
    requires TrackRead(p, nsec) && i < nsec
    ensures |r| == 128
  {
    seq(128, j requires 0 <= j < 128 => Merged(p, nsec, i, j))
  }

  /** Every sector number is in range. The source only warns when one is not. */
  predicate NumbersFit(p: seq<Long>, nsec: nat)
    requires TrackRead(p, nsec)
  {
    forall i: nat :: i < nsec ==> SectorNumber(p, nsec, i) < nsec
  }

  /** buf with 128 longs replaced from sector sec on. */
  function Put(buf: seq<Long>, sec: nat, x: seq<Long>): (r: seq<Long>)
    requires |x| == 128 && 128 * sec + 128 <= |buf|
    ensures |r| == |buf|
  {
    buf[..128 * sec] + x + buf[128 * sec + 128..]
  }

  lemma {:induction false} NumBound(b: seq<bool>)
    ensures NumOf(b) < Power(2, |b|)
    decreases |b|
  {
    if b != [] { NumBound(b[..|b| - 1]); }
  }

  /** A sector number is a byte. */
  lemma NumberIsByte(p: seq<Long>, nsec: nat, i: nat)
    requires TrackRead(p, nsec) && i < nsec
    ensures SectorNumber(p, nsec, i) < 256
  {
    hide GetLong, NumOf;
    NumBound(InfoAt(p, nsec, i)[16..24]);
    assert Power(2, 2) == 4 && Power(2, 4) == 4 * Power(2, 2) && Power(2, 6) == 4 * Power(2, 4) && Power(2, 8) == 4 * Power(2, 6);
  }

  /** Longs that a byte's worth of sectors takes. */
  const REACH: nat := 32768

  /** The user's memory, from the start of the buffer, once sectors 0 to n have been copied to where their info longs
      say: memory goes on past the buffer's end, and so may the copies. */
  function Placed(p: seq<Long>, m: seq<Long>, nsec: nat, n: nat): (r: seq<Long>)
    requires TrackRead(p, nsec) && |m| >= REACH && n <= nsec
    ensures |r| == |m|
    decreases n
  {
    if n == 0 then m
    else
      NumberIsByte(p, nsec, n - 1);
      Put(Placed(p, m, nsec, n - 1), SectorNumber(p, nsec, n - 1), SectorLongs(p, nsec, n - 1))
  }

  // ----- what a sector number out of range does

  /** Nothing is written past the end of the buffer, whatever was there. */
  ghost predicate StaysInside(p: seq<Long>, nsec: nat)
    requires TrackRead(p, nsec) && 128 * nsec <= REACH
  {
    forall m: seq<Long> :: |m| >= REACH ==> Placed(p, m, nsec, nsec)[128 * nsec..] == m[128 * nsec..]
  }

  lemma PutInside(m: seq<Long>, sec: nat, x: seq<Long>, end: nat)
    requires |x| == 128 && 128 * sec + 128 <= end <= |m|
    ensures Put(m, sec, x)[end..] == m[end..]
  {}

  lemma {:induction false} FitStaysInside(p: seq<Long>, m: seq<Long>, nsec: nat, n: nat)
    requires TrackRead(p, nsec) && |m| >= REACH && n <= nsec && 128 * nsec <= |m|
    requires forall i: nat :: i < n ==> SectorNumber(p, nsec, i) < nsec
    ensures Placed(p, m, nsec, n)[128 * nsec..] == m[128 * nsec..]
    decreases n
  {
    hide SectorNumber, SectorLongs, Put;
    if n > 0 {
      FitStaysInside(p, m, nsec, n - 1);
      NumberIsByte(p, nsec, n - 1);
      PutInside(Placed(p, m, nsec, n - 1), SectorNumber(p, nsec, n - 1), SectorLongs(p, nsec, n - 1), 128 * nsec);
    }
  }

  lemma PutAt(m: seq<Long>, sec: nat, x: seq<Long>, k: nat)
    requires |x| == 128 && 128 * sec + 128 <= |m| && k < |m|
    ensures Put(m, sec, x)[k] == if 128 * sec <= k < 128 * sec + 128 then x[k - 128 * sec] else m[k]
  {}

  /** The last sector out of range leaves its first long beyond the buffer. */
  lemma {:induction false} LandsOutside(p: seq<Long>, m: seq<Long>, nsec: nat, n: nat, i: nat)
    requires TrackRead(p, nsec) && |m| >= REACH && i < n <= nsec && SectorNumber(p, nsec, i) >= nsec
    requires forall j: nat :: i < j < n ==> SectorNumber(p, nsec, j) < nsec
    ensures 128 * SectorNumber(p, nsec, i) < |m|
    ensures Placed(p, m, nsec, n)[128 * SectorNumber(p, nsec, i)] == SectorLongs(p, nsec, i)[0]
    decreases n
  {
    hide SectorNumber, SectorLongs, Put;
    NumberIsByte(p, nsec, i);
    NumberIsByte(p, nsec, n - 1);
    if i < n - 1 { LandsOutside(p, m, nsec, n - 1, i); }
    PutAt(Placed(p, m, nsec, n - 1), SectorNumber(p, nsec, n - 1), SectorLongs(p, nsec, n - 1),
          128 * SectorNumber(p, nsec, i));
  }

  lemma {:induction false} LastOutside(p: seq<Long>, nsec: nat, n: nat) returns (i: nat)
    requires TrackRead(p, nsec) && n <= nsec && exists k: nat :: k < n && SectorNumber(p, nsec, k) >= nsec
    ensures i < n && SectorNumber(p, nsec, i) >= nsec && forall j: nat :: i < j < n ==> SectorNumber(p, nsec, j) < nsec
    decreases n
  {
    hide SectorNumber;
    if SectorNumber(p, nsec, n - 1) >= nsec { i := n - 1; } else { i := LastOutside(p, nsec, n - 1); }
  }

  /** The reader keeps to its buffer if and only if every sector number it finds is in range. */
  lemma InsideExactly(p: seq<Long>, nsec: nat)
    requires TrackRead(p, nsec) && 128 * nsec <= REACH
    ensures StaysInside(p, nsec) <==> NumbersFit(p, nsec)
  {
    hide SectorNumber, SectorLongs, Placed;
    if NumbersFit(p, nsec) {
      forall m: seq<Long> | |m| >= REACH
        ensures Placed(p, m, nsec, nsec)[128 * nsec..] == m[128 * nsec..]
      {
        FitStaysInside(p, m, nsec, nsec);
      }
    } else {
      var i := LastOutside(p, nsec, nsec);
      var x := SectorLongs(p, nsec, i)[0];
      var m := Filled(OtherThan(x));
      LandsOutside(p, m, nsec, nsec, i);
      var k := 128 * SectorNumber(p, nsec, i);
      assert Placed(p, m, nsec, nsec)[128 * nsec..][k - 128 * nsec] != m[128 * nsec..][k - 128 * nsec];
    }
  }

  function OtherThan(x: Long): (y: Long)
    ensures y != x
  {
    x[0 := !x[0]]
  }

  function Filled(x: Long): (m: seq<Long>)
    ensures |m| == REACH && forall k :: 0 <= k < REACH ==> m[k] == x
  {
    seq(REACH, k => x)
  }

  /** A track whose every bit is one: its sectors all call themselves number 255. */
  function AllOnes(nsec: nat): (p: seq<Long>)
    requires nsec > 0
    ensures TrackRead(p, nsec)
  {
    seq(SECTOR_LONGS * nsec - 1, k => Not(Zero()))
  }

  lemma OnesInfo()
    ensures var o := Not(Zero()); GetLong(o, o) == o && NumOf(o[16..24]) == 255
  {
    hide GetLong, NumOf, ByteOf;
    var o := Not(Zero());
    forall j: nat | j < 32
      ensures GetLong(o, o)[j]
    {
      OnesMerged(o, j);
    }
    OnesByte();
    assert o[16..24] == ByteOf(255);
    NumByte(255);
  }

  lemma OnesMerged(o: Long, j: nat)
    requires j < 32 && forall k: nat :: k < 32 ==> o[k]
    ensures GetLong(o, o)[j]
  {
    hide Rev, Shl, Data, Or, Swap;
    var a, b := Shl(Data(o), 1), Data(o);
    RevAt(Or(a, b), j);
    OrAt(a, b, Swap(j));
    ShlAt(Data(o), Swap(j));
    DataAt(o, Swap(j));
    if Swap(j) + 1 < 32 { DataAt(o, Swap(j) + 1); }
  }

  lemma OnesByte()
    ensures ByteOf(255) == seq(8, k => true)
  {
    assert Digits(1, 1) == [true] && Digits(3, 2) == Digits(1, 1) + [true] && Digits(7, 3) == Digits(3, 2) + [true];
    assert Digits(15, 4) == Digits(7, 3) + [true] && Digits(31, 5) == Digits(15, 4) + [true];
    assert Digits(63, 6) == Digits(31, 5) + [true] && Digits(127, 7) == Digits(63, 6) + [true];
    assert Digits(255, 8) == Digits(127, 7) + [true];
  }

  /** On it no sector passes its tests, and the copies land far beyond a buffer of eleven or twenty-two sectors. */
  lemma OnesLandOutside(track: nat, nsec: nat)
    requires 0 < nsec < 256
    ensures forall i: nat :: i < nsec ==> SectorNumber(AllOnes(nsec), nsec, i) == 255
    ensures !GoodSector(AllOnes(nsec), track, nsec, 0) && !StaysInside(AllOnes(nsec), nsec)
  {
    hide GetLong, NumOf, StaysInside, Zero, Not;
    OnesInfo();
    InsideExactly(AllOnes(nsec), nsec);
    assert SectorNumber(AllOnes(nsec), nsec, 0) == 255;
  }

  // ----- a written track comes back

  lemma {:induction false} PlacedImage(p: seq<Long>, b: seq<Long>, track: nat, nsec: nat, buf: seq<Long>, n: nat)
    requires |b| == 128 * nsec && |buf| >= REACH && IsImage(p, Values(b), track, nsec) && n <= nsec
    ensures TrackRead(p, nsec) && NumbersFit(p, nsec)
    ensures Placed(p, buf, nsec, n)[..128 * n] == b[..128 * n]
    decreases n
  {
    hide IsImage, SectorNumber, Merged, InfoAt, SectorLongs, Put;
    ImageSize(p, Values(b), track, nsec);
    forall i: nat | i < nsec
      ensures SectorNumber(p, nsec, i) == i
    {
      InfoGood(p, Values(b), track, nsec, i);
    }
    if n > 0 {
      PlacedImage(p, b, track, nsec, buf, n - 1);
      SectorComesBack(p, b, track, nsec, n - 1);
      PutNext(Placed(p, buf, nsec, n - 1), b, n - 1);
    }
  }

  lemma PutNext(was: seq<Long>, b: seq<Long>, n: nat)
    requires |b| <= |was| && 128 * n + 128 <= |b| && was[..128 * n] == b[..128 * n]
    ensures Put(was, n, b[128 * n..128 * n + 128])[..128 * n + 128] == b[..128 * n + 128]
  {
    var x := b[128 * n..128 * n + 128];
    assert Put(was, n, x)[..128 * n + 128] == was[..128 * n] + x;
    assert b[..128 * n + 128] == b[..128 * n] + x;
  }

  lemma SectorComesBack(p: seq<Long>, b: seq<Long>, track: nat, nsec: nat, i: nat)
    requires |b| == 128 * nsec && IsImage(p, Values(b), track, nsec) && i < nsec
    ensures TrackRead(p, nsec) && SectorLongs(p, nsec, i) == b[128 * i..128 * i + 128]
  {
    hide IsImage, Merged, Rev;
    ImageSize(p, Values(b), track, nsec);
    assert 128 * i + 128 <= 128 * nsec;
    forall j: nat | j < 128
      ensures Merged(p, nsec, i, j) == b[128 * i + j]
    {
      DataComesBack(p, Values(b), track, nsec, i, j);
      RevRev(b[128 * i + j]);
    }
  }

  lemma SyncGood(p: seq<Long>, data: seq<Long>, track: nat, nsec: nat, i: nat)
    requires IsImage(p, data, track, nsec) && i < nsec
    ensures GoodSync(p, nsec, i)
  {
    hide IsImage, Rev, SectorItem, Info, SectorData, TrackItems, OnDisk, SyncLong;
    ImageSize(p, data, track, nsec);
    ImageItem(p, data, track, nsec, i, 0);
    RawSync(Info(track, i, nsec - i), SectorData(data, i));
    SyncOnDisk(TrackItems(data, track, nsec), POST_INDEX + SECTOR_LONGS * i + 1);
    SyncLongIs();
  }

  lemma SyncLongIs()
    ensures SyncLong() == SYNC_PAIR
  {}

  lemma RawSync(info: Long, x: seq<Long>)
    requires |x| == 128
    ensures SectorItem(info, x, 1) == Raw(SyncLong())
  {}

  /** The round trip: on a track as it was written, every sync, info, header and data test passes, and
      whatever memory held before, the buffer ends up holding the longs that were written and nothing else changes. */
  lemma TrackComesBack(p: seq<Long>, b: seq<Long>, track: nat, nsec: nat, buf: seq<Long>)
    requires |b| == 128 * nsec && |buf| >= REACH && IsImage(p, Values(b), track, nsec)
    ensures TrackRead(p, nsec) && NumbersFit(p, nsec)
    ensures forall i: nat :: i < nsec ==> GoodSync(p, nsec, i) && GoodSector(p, track, nsec, i)
    ensures Placed(p, buf, nsec, nsec) == b + buf[128 * nsec..]
  {
    hide IsImage, GoodSync, GoodInfo, GoodHeader, GoodData, Placed, InfoAt, Rev;
    PlacedImage(p, b, track, nsec, buf, nsec);
    forall i: nat | i < nsec
      ensures GoodSync(p, nsec, i) && GoodSector(p, track, nsec, i)
    {
      SyncGood(p, Values(b), track, nsec, i);
      InfoGood(p, Values(b), track, nsec, i);
      HeaderGood(p, Values(b), track, nsec, i);
      DataGood(p, Values(b), track, nsec, i);
    }
    ImageSize(p, Values(b), track, nsec);
    FitStaysInside(p, buf, nsec, nsec);
    var m := Placed(p, buf, nsec, nsec);
    assert m == m[..128 * nsec] + m[128 * nsec..] && b[..128 * nsec] == b;
  }

  // ----- the loops, in place

  /** The sync long with its dropped clocks put back: 0x44a944a9. */
  const CLOCKED_SYNC: seq<bool> := [
    false, true, false, false, false, true, false, false,
    true, false, true, false, true, false, false, true,
    false, true, false, false, false, true, false, false,
    true, false, true, false, true, false, false, true
  ]

  function ClockedSync(): Long { CLOCKED_SYNC }

  /** The track with its sync longs replaced, ready for the clock check. */
  function Reset(p: seq<Long>, nsec: nat): (r: seq<Long>)
    requires TrackRead(p, nsec)
    ensures |r| == |p|
  {
    seq(|p|, k requires 0 <= k < |p| => if k % SECTOR_LONGS == 0 then Rev(ClockedSync()) else p[k])
  }

  lemma ResetStep(p: seq<Long>, nsec: nat, i: nat, k: nat)
    requires TrackRead(p, nsec) && i < nsec && k < |p|
    requires SECTOR_LONGS * i <= k < SECTOR_LONGS * (i + 1)
    ensures k % SECTOR_LONGS == 0 <==> k == SECTOR_LONGS * i
  {}

  /** Tests and replaces the sync longs. */
  method CheckSyncs(p: array<Long>, nsec: nat) returns (good: bool)
    requires TrackRead(p[..], nsec)
    modifies p
    ensures p[..] == Reset(old(p[..]), nsec)
    ensures good <==> forall i: nat :: i < nsec ==> GoodSync(old(p[..]), nsec, i)
  {
    hide Rev, SyncLong, ClockedSync;
    good := true;
    ghost var was := p[..];
    for i := 0 to nsec
      invariant forall k: nat :: k < p.Length ==>
        p[k] == if k < SECTOR_LONGS * i then Reset(was, nsec)[k] else was[k]
      invariant good <==> forall k: nat :: k < i ==> GoodSync(was, nsec, k)
    {
      assert GoodSync(was, nsec, i) <==> p[SECTOR_LONGS * i] == Rev(SyncLong());
      if p[SECTOR_LONGS * i] != Rev(SyncLong()) { good := false; }
      p[SECTOR_LONGS * i] := Rev(ClockedSync());
      forall k: nat | k < p.Length && SECTOR_LONGS * i <= k < SECTOR_LONGS * (i + 1)
        ensures k % SECTOR_LONGS == 0 <==> k == SECTOR_LONGS * i
      {
        ResetStep(was, nsec, i, k);
      }
    }
  }

  /** The xor of n longs from index from on, data bits only. */
  method MfmChecksumOf(p: array<Long>, from: nat, n: nat) returns (csum: Long)
    requires from + n <= p.Length
    ensures csum == MfmChecksum(p[from..from + n])
  {
    hide Rev, Xor, Data;
    csum := Zero();
    ghost var v := Values(p[from..from + n]);
    for i := 0 to n
      invariant csum == XorAll(v[..i])
    {
      assert v[..i + 1][..i] == v[..i];
      csum := Xor(csum, Rev(p[from + i]));
    }
    assert v[..n] == v;
    csum := Data(csum);
  }

  /** The longs from sector n on are still as they were read, but for the sync longs. */
  predicate Untouched(p: seq<Long>, was: seq<Long>, nsec: nat, n: nat) {
    |p| == |was| && forall k: nat :: SECTOR_LONGS * n <= k < |p| && k % SECTOR_LONGS != 0 ==> p[k] == was[k]
  }

  lemma OffSync(i: nat, k: nat)
    requires 0 < k < SECTOR_LONGS
    ensures (SECTOR_LONGS * i + k) % SECTOR_LONGS == k
  {}

  lemma UntouchedAt(p: seq<Long>, was: seq<Long>, nsec: nat, i: nat, k: nat)
    requires TrackRead(p, nsec) && Untouched(p, was, nsec, i) && i < nsec && 0 < k < 271
    ensures SECTOR_LONGS * i + k < |p| && p[SECTOR_LONGS * i + k] == was[SECTOR_LONGS * i + k]
  {
    OffSync(i, k);
  }

  /** So the tests and the merges of sector i come out as they would have. */
  lemma UntouchedSector(p: seq<Long>, was: seq<Long>, track: nat, nsec: nat, i: nat)
    requires TrackRead(p, nsec) && TrackRead(was, nsec) && Untouched(p, was, nsec, i) && i < nsec
    ensures InfoAt(p, nsec, i) == InfoAt(was, nsec, i) && SectorNumber(p, nsec, i) == SectorNumber(was, nsec, i)
    ensures GoodSector(p, track, nsec, i) <==> GoodSector(was, track, nsec, i)
    ensures SectorLongs(p, nsec, i) == SectorLongs(was, nsec, i)
  {
    hide GetLong, Untouched, MfmChecksum, GoodInfo, Data, Shl, Or, NumOf;
    var b := SECTOR_LONGS * i;
    forall m: nat | b < m < b + 271
      ensures m < |p| && p[m] == was[m]
    {
      UntouchedAt(p, was, nsec, i, m - b);
    }
    assert p[b + 1..b + 11] == was[b + 1..b + 11];
    assert p[b + 15..b + 271] == was[b + 15..b + 271];
    assert p[b + 11] == was[b + 11] && p[b + 12] == was[b + 12] && p[b + 13] == was[b + 13] && p[b + 14] == was[b + 14];
    assert p[b + 1] == was[b + 1] && p[b + 2] == was[b + 2];
    forall j: nat | j < 128
      ensures Merged(p, nsec, i, j) == Merged(was, nsec, i, j)
    {
      assert p[b + (15 + j)] == was[b + (15 + j)] && p[b + (143 + j)] == was[b + (143 + j)];
    }
  }

  method CheckSector(p: array<Long>, track: nat, nsec: nat, i: nat) returns (good: bool, sec: nat)
    requires TrackRead(p[..], nsec) && i < nsec
    ensures sec == SectorNumber(p[..], nsec, i)
    ensures good <==> GoodSector(p[..], track, nsec, i)
  {
    hide GetLong, NumOf, MfmChecksum;
    var b := SECTOR_LONGS * i;
    var info := GetLong(p[b + 1], p[b + 2]);
    sec := NumOf(info[16..24]);
    good := NumOf(info[0..8]) == 0xff && NumOf(info[8..16]) == track && sec < nsec && NumOf(info[24..32]) == nsec - i;
    var csum := MfmChecksumOf(p, b + 1, 10);
    assert p[..][b + 1..b + 11] == p[b + 1..b + 11];
    if csum != GetLong(p[b + 11], p[b + 12]) { good := false; }
    csum := MfmChecksumOf(p, b + 15, 256);
    assert p[..][b + 15..b + 271] == p[b + 15..b + 271];
    if csum != GetLong(p[b + 13], p[b + 14]) { good := false; }
  }

  /** Merges the even and odd halves of sector i over the even half. */
  method MergeSector(p: array<Long>, nsec: nat, i: nat)
    requires TrackRead(p[..], nsec) && i < nsec
    modifies p
    ensures p[SECTOR_LONGS * i + 15..SECTOR_LONGS * i + 143] == SectorLongs(old(p[..]), nsec, i)
    ensures forall k: nat :: k < p.Length && !(SECTOR_LONGS * i + 15 <= k < SECTOR_LONGS * i + 143) ==> p[k] == old(p[k])
  {
    hide Data, Shl, Or;
    ghost var was := p[..];
    var b := SECTOR_LONGS * i;
    for j := 0 to 128
      invariant forall k: nat {:trigger p[k]} :: k < p.Length ==>
        p[k] == if b + 15 <= k < b + 15 + j then Merged(was, nsec, i, k - b - 15) else was[k]
    {
      p[b + 15 + j] := Or(Shl(Data(p[b + 15 + j]), 1), Data(p[b + 143 + j]));
    }
  }

  /** Copies a decoded sector to its place in the user buffer. */
  method CopySector(p: array<Long>, from: nat, buf: array<Long>, sec: nat)
    requires p != buf && from + 128 <= p.Length && 128 * sec + 128 <= buf.Length
    modifies buf
    ensures buf[..] == Put(old(buf[..]), sec, p[from..from + 128])
  {
    ghost var was := buf[..];
    for j := 0 to 128
      invariant buf[..] == was[..128 * sec] + p[from..from + j] + was[128 * sec + j..]
    {
      buf[128 * sec + j] := p[from + j];
    }
  }

  /** Decodes a track where it lies and copies each sector to the place its own info long names, in memory that starts
      with the user's buffer. The result says whether every test passed. */
  method ReadTrack(p: array<Long>, buf: array<Long>, track: nat, nsec: nat) returns (good: bool)
    requires p != buf && TrackRead(p[..], nsec) && buf.Length >= REACH
    modifies p, buf
    ensures buf[..] == Placed(old(p[..]), old(buf[..]), nsec, nsec)
    ensures good <==> forall i: nat :: i < nsec ==>
      GoodSync(old(p[..]), nsec, i) && GoodSector(old(p[..]), track, nsec, i)
  {
    hide GoodSync, GoodSector, SectorNumber, SectorLongs, Rev, ClockedSync, Put;
    ghost var was, start := p[..], buf[..];
    var syncs := CheckSyncs(p, nsec);
    good := syncs;
    for i := 0 to nsec
      invariant Untouched(p[..], was, nsec, i)
      invariant buf[..] == Placed(was, start, nsec, i)
      invariant good <==> syncs && forall k: nat :: k < i ==> GoodSector(was, track, nsec, k)
    {
      UntouchedSector(p[..], was, track, nsec, i);
      var ok, sec := CheckSector(p, track, nsec, i);
      if !ok { good := false; }
      NumberIsByte(was, nsec, i);
      MergeSector(p, nsec, i);
      CopySector(p, SECTOR_LONGS * i + 15, buf, sec);
    }
  }
}
