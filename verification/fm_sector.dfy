/** FM data fields: built in place with their one sync word, hunted for and read back. */
module FmSector {
  import opened Bits
  import opened Tables
  import opened Mfm
  import opened Crc
  import opened Reader
  import opened Fm
  import opened IbmLayout
  import Ibm

  const FM_GAP_SYNC: nat := 6

  function FmField(buf: seq<bv8>): (r: seq<bv8>)
    ensures |r| == |buf| + 3
  {
    Sealed([0xfb] + buf)
  }

  /** A data field as it is written: pre-sync gap, field, and a gap that makes the length even. */
  function FmSectorWrite(buf: seq<bv8>, gap3: nat): (r: seq<bv8>)
    ensures |r| % 2 == 0 && |r| >= 9 + |buf|
  {
    Fill(0x00, FM_GAP_SYNC) + FmField(buf) + Fill(0xff, gap3 + (9 + |buf| + gap3) % 2)
  }

  /** Encoded memory with word 6 replaced by the sync word for a data mark. */
  function FmMarked(data: seq<bv8>): (r: seq<bv8>)
    requires |data| >= 7
    ensures |r| == 2 * |data|
  {
    var e := FmEncode(data);
    e[..12] + [Hi(FmSync(0xfb, FM_SYNC_CLK)), Lo(FmSync(0xfb, FM_SYNC_CLK))] + e[14..]
  }

  lemma FmMarkedCells(data: seq<bv8>, n: nat, i: nat)
    requires n < |data| && |data| >= 7 && data[6] == 0xfb && i < 8
    ensures BitsOf(FmMarked(data))[16 * n + 2 * i] == (n != 6 || Bit(FM_SYNC_CLK, i))
    ensures BitsOf(FmMarked(data))[16 * n + 2 * i + 1] == BitsOf(data)[8 * n + i]
  {
    hide Bit, BitsOf, FmEncode, FmSync;
    var m, e := FmMarked(data), FmEncode(data);
    if n == 6 {
      FmSyncCells(0xfb, FM_SYNC_CLK, i);
      BitAt(data, 6, i);
      if i < 4 {
        BitAt(m, 12, 2 * i);
        BitAt(m, 12, 2 * i + 1);
      } else {
        BitAt(m, 13, 2 * i - 8);
        BitAt(m, 13, 2 * i - 7);
      }
    } else {
      FmEncodeCells(data, n, i);
      var b := 2 * n + 2 * i / 8;
      assert m[b] == e[b];
      BitAt(m, b, 2 * i % 8);
      BitAt(m, b, 2 * i % 8 + 1);
      BitAt(e, b, 2 * i % 8);
      BitAt(e, b, 2 * i % 8 + 1);
      assert 8 * b + 2 * i % 8 == 16 * n + 2 * i;
    }
  }

  lemma SyncClock(i: nat)
    requires i < 8
    ensures Bit(FM_SYNC_CLK, i) == !(2 <= i <= 4)
  {
    if i == 0 {} else if i == 1 {} else if i == 2 {} else if i == 3 {}
    else if i == 4 {} else if i == 5 {} else if i == 6 {} else {}
  }

  lemma FmMarkedClock(data: seq<bv8>, n: nat, i: nat)
    requires n < |data| && |data| >= 7 && data[6] == 0xfb && i < 8
    ensures BitsOf(FmMarked(data))[16 * n + 2 * i] == !FmDropped(16 * n + 2 * i, {6})
  {
    hide Bit, BitsOf, FmMarked, FmDropped;
    FmMarkedCells(data, n, i);
    SyncClock(i);
    DroppedIn({6}, n, 2 * i);
  }

  /** Only word 6 drops clocks. */
  lemma FmMarkedIsLawful(data: seq<bv8>)
    requires |data| >= 7 && data[6] == 0xfb
    ensures FmLawful(BitsOf(FmMarked(data)), {6})
  {
    hide BitsOf, FmMarked, FmDropped;
    var c := BitsOf(FmMarked(data));
    forall k: nat | k < |c| && k % 2 == 0
      ensures c[k] == !FmDropped(k, {6})
    {
      var n, i := k / 16, k % 16 / 2;
      assert k == 16 * n + 2 * i;
      FmMarkedClock(data, n, i);
    }
  }

  lemma FmDecodeMarked(data: seq<bv8>)
    requires |data| >= 7 && data[6] == 0xfb
    ensures Decode(FmMarked(data)) == data
  {
    hide Bit, BitsOf, FmMarked, Decode, Pack;
    var c := BitsOf(FmMarked(data));
    DecodeIsDataCells(FmMarked(data));
    forall k | 0 <= k < 8 * |data|
      ensures DataCells(c)[k] == BitsOf(data)[k]
    {
      FmMarkedCells(data, k / 8, k % 8);
      assert 2 * k + 1 == 16 * (k / 8) + 2 * (k % 8) + 1;
    }
    assert DataCells(c) == BitsOf(data);
    PackBitsOf(Decode(FmMarked(data)));
    PackBitsOf(data);
  }

  lemma FmSectorParts(buf: seq<bv8>, gap3: nat)
    ensures var d := FmSectorWrite(buf, gap3);
            && d[6] == 0xfb
            && d[6..9 + |buf|] == FmField(buf)
            && (forall k | 0 <= k < 6 :: d[k] == 0x00)
  {
    hide CrcOf, Hi, Lo;
    var d := FmSectorWrite(buf, gap3);
    assert d[6..9 + |buf|] == FmField(buf) && d[6..9 + |buf|][0] == d[6];
  }

  /** What each byte of a data field is as it is written. */
  lemma FmSectorLayout(buf: seq<bv8>, gap3: nat, i: nat)
    requires i < |FmSectorWrite(buf, gap3)|
    ensures var s := FmSectorWrite(buf, gap3);
            && |s| == 9 + |buf| + gap3 + (9 + |buf| + gap3) % 2
            && (i < 6 ==> s[i] == 0x00) && s[6] == 0xfb && (7 <= i < 7 + |buf| ==> s[i] == buf[i - 7])
            && (9 + |buf| <= i ==> s[i] == 0xff) && CrcOf(s[6..9 + |buf|], 0xffff) == 0
  {
    hide CrcOf, Hi, Lo;
    FmSectorParts(buf, gap3);
    CrcTheory.Residue([0xfb] + buf, 0xffff);
  }

  lemma ZeroBits(data: seq<bv8>, n: nat, i: nat)
    requires n < |data| && data[n] == 0x00 && i < 8
    ensures !BitsOf(data)[8 * n + i]
  {
    hide BitsOf;
    BitAt(data, n, i);
  }

  lemma FmWindowCell(data: seq<bv8>, j: nat)
    requires |data| >= 7 && data[4] == 0x00 && data[5] == 0x00 && data[6] == 0xfb
    requires j < 32 && FmMask()[j]
    ensures BitsOf(FmMarked(data))[79 + j] == FmValue()[j]
  {
    hide BitsOf, FmMarked, Bit, FmMask, FmValue;
    FmMaskIs(j);
    var h := (79 + j) / 2;
    var n, i := h / 8, h % 8;
    FmMarkedCells(data, n, i);
    SyncClock(i);
    if j % 2 == 1 {
      assert 79 + j == 16 * n + 2 * i;
    } else {
      assert 79 + j == 16 * n + 2 * i + 1;
      ZeroBits(data, n, i);
    }
  }

  /** The hunt fires on the mark: a gap byte of clocks and zeros, then the clocks of 0xc7. */
  lemma FmHuntFires(data: seq<bv8>)
    requires |data| >= 7 && data[4] == 0x00 && data[5] == 0x00 && data[6] == 0xfb
    ensures FmSyncAt(BitsOf(FmMarked(data)), 79)
  {
    hide BitsOf, FmMarked, Bit, FmMask, FmValue;
    forall j | 0 <= j < 32 && FmMask()[j]
      ensures BitsOf(FmMarked(data))[79..111][j] == FmValue()[j]
    {
      FmWindowCell(data, j);
    }
  }

  /** The words of a written field from the last gap byte on. */
  function FmFieldWords(buf: seq<bv8>, gap3: nat): (r: seq<bv8>)
    ensures |r| == 2 * (4 + |buf|)
  {
    hide FmSectorWrite, FmMarked;
    FmMarked(FmSectorWrite(buf, gap3))[10..2 * (9 + |buf|)]
  }

  /** The hunt over a written field stops at its mark and nowhere else, and the words from the last gap
      byte on decode to that byte, the mark, the data as written, and a checksum of residue zero. */
  lemma FmFieldReadsBack(buf: seq<bv8>, gap3: nat, o: nat)
    ensures var d := FmSectorWrite(buf, gap3);
            && (FmSyncAt(BitsOf(FmMarked(d)), o) <==> o == 79)
            && Decode(FmFieldWords(buf, gap3)) == [0x00] + FmField(buf)
    ensures FmField(buf)[1..1 + |buf|] == buf && CrcOf(FmField(buf), 0xffff) == 0
  {
    hide BitsOf, FmMarked, FmSectorWrite, CrcOf, FmSyncAt, Decode, Hi, Lo;
    var d := FmSectorWrite(buf, gap3);
    FmSectorParts(buf, gap3);
    FmHuntFires(d);
    FmMarkedIsLawful(d);
    if FmSyncAt(BitsOf(FmMarked(d)), o) {
      FmSyncUnambiguous(BitsOf(FmMarked(d)), {6}, o);
    }
    FmDecodeMarked(d);
    EndToEnd.DecodeSlice(FmMarked(d), 5, 4 + |buf|);
    assert d[5..9 + |buf|] == [d[5]] + d[6..9 + |buf|];
    CrcTheory.Residue([0xfb] + buf, 0xffff);
  }

  // ----- the checker and the builder

  predicate FmChecks(s: seq<bv8>, i: nat)
    requires |s| % 2 == 0 && 2 * i < |s|
  {
    Join(s[2 * i], s[2 * i + 1]) == FmWord(MfmToByte(Join(s[2 * i], s[2 * i + 1])))
  }

  /** Says of each word at p whether it lacks a clock. */
  method FmCheck(mem: array<bv8>, p: nat, nr: nat) returns (bad: seq<bool>)
    requires p + 2 * nr <= mem.Length
    ensures |bad| == nr
    ensures forall i: nat :: i < nr ==> bad[i] == !FmChecks(mem[p..p + 2 * nr], i)
  {
    hide MfmTab, MfmToByte, FmWord, Join, Expand;
    bad := [];
    ghost var s := mem[p..p + 2 * nr];
    for i := 0 to nr
      invariant |bad| == i
      invariant forall k: nat :: k < i ==> bad[k] == !FmChecks(s, k)
    {
      var b := Join(mem[p + 2 * i], mem[p + 2 * i + 1]);
      var c := MfmTab(MfmToByte(b)) | 0xaaaa;
      TableFmWord(MfmToByte(b));
      assert s[2 * i] == mem[p + 2 * i] && s[2 * i + 1] == mem[p + 2 * i + 1];
      bad := bad + [b != c];
    }
  }

  /** Freshly encoded data passes the check throughout. */
  lemma FmEncodeChecks(data: seq<bv8>, i: nat)
    requires i < |data|
    ensures FmChecks(FmEncode(data), i)
  {
    hide FmWord, Hi, Lo, Join, MfmToByte, Cell, Bit;
    var w := FmWord(data[i]);
    FmBytes(data, i);
    JoinSplit(w);
    forall j: nat | j < 8
      ensures Bit(MfmToByte(w), j) == Bit(data[i], j)
    {
      GatherCells(w, j);
      FmWordDataCell(data[i], j);
    }
    SameBits(MfmToByte(w), data[i]);
  }

  /** The bytes of an FM data field as it is written. */
  method LayOutFmSector(mem: array<bv8>, p: nat, buf: seq<bv8>, id: Idam, gap3: nat) returns (damBytes: nat)
    requires |buf| == SecBytes(id.n) && p + 10 + |buf| + gap3 <= mem.Length
    modifies mem
    ensures damBytes == |FmSectorWrite(buf, gap3)| <= 10 + |buf| + gap3
    ensures Ibm.Built(old(mem[..]), mem[..], p, FmSectorWrite(buf, gap3))
  {
    hide Ibm.Stored, Ibm.Built, Fill, CrcOf, Hi, Lo, SecBytes;
    ghost var was, zeros := mem[..], Fill(0x00, FM_GAP_SYNC);
    damBytes := FM_GAP_SYNC + 1 + SecBytes(id.n) + 2 + gap3;
    var gap := gap3;
    if damBytes % 2 == 1 {
      damBytes := damBytes + 1;
      gap := gap + 1;
    }
    Ibm.BuiltNothing(was, p);
    var q := Ibm.PutGap(mem, p, p, 0x00, FM_GAP_SYNC, was, []);
    assert [] + zeros == zeros;
    var s := q;
    ghost var now := mem[..];
    Ibm.Length(was, now, p, zeros);
    q := Ibm.CopyIn(mem, q, [0xfb]);
    Ibm.BuiltMore(was, now, p, zeros, [0xfb]);
    now := mem[..];
    q := Ibm.CopyIn(mem, q, buf);
    Ibm.BuiltMore(was, now, p, zeros + [0xfb], buf);
    ghost var b := zeros + [0xfb] + buf;
    Ibm.BuiltSlice(was, mem[..], p, b, 6);
    assert b[6..] == [0xfb] + buf && q == p + |b|;
    assert mem[..][s..q] == mem[s..q] == [0xfb] + buf;
    now := mem[..];
    q := Ibm.Seal(mem, s, q);
    ghost var c := CrcOf([0xfb] + buf, 0xffff);
    Ibm.BuiltMore(was, now, p, b, [Hi(c), Lo(c)]);
    assert b + [Hi(c), Lo(c)] == zeros + FmField(buf);
    q := Ibm.PutGap(mem, p, q, 0xff, gap, was, zeros + FmField(buf));
  }

  /** Builds the cells of an FM data field for writing, with its clock check. */
  method BuildFmSector(mem: array<bv8>, p: nat, buf: seq<bv8>, id: Idam, gap3: nat) returns (damBytes: nat, bad: seq<bool>)
    requires |buf| == SecBytes(id.n) && 1 <= p && p + 2 * (10 + |buf| + gap3) <= mem.Length
    modifies mem
    ensures damBytes == |FmSectorWrite(buf, gap3)| <= 10 + |buf| + gap3 && damBytes >= 7
    ensures mem[p..p + 2 * damBytes] == FmMarked(FmSectorWrite(buf, gap3))
    ensures mem[..p] == old(mem[..p]) && mem[p + 2 * damBytes..] == old(mem[p + 2 * damBytes..])
    ensures |bad| == damBytes && forall i :: 0 <= i < |bad| ==> !bad[i]
  {
    hide Ibm.Stored, Ibm.Built, SecBytes, FmSectorWrite, FmEncode, FmChecks, FmSync, Hi, Lo;
    ghost var was, data := mem[..], FmSectorWrite(buf, gap3);
    FmSectorParts(buf, gap3);
    damBytes := LayOutFmSector(mem, p, buf, id, gap3);
    Ibm.BuiltEnds(was, mem[..], p, data);
    assert mem[..][p..p + damBytes] == mem[p..p + damBytes] && mem[..][..p] == mem[..p];
    assert mem[..][p + 2 * damBytes..] == mem[p + 2 * damBytes..];
    BinToFm(mem, p, damBytes);
    ghost var e := FmEncode(data);
    bad := FmCheck(mem, p, damBytes);
    forall i: nat | i < damBytes
      ensures !bad[i]
    {
      FmEncodeChecks(data, i);
    }
    var sync := FmSyncWord(0xfb, FM_SYNC_CLK);
    var at := p + 2 * FM_GAP_SYNC;
    ghost var words := mem[p..p + 2 * damBytes];
    mem[at], mem[at + 1] := Hi(sync), Lo(sync);
    assert mem[p..p + 2 * damBytes] == words[..12] + [Hi(sync), Lo(sync)] + words[14..];
  }

  // ----- a finished read

  /** What a reader makes of the words s of a data field of so many bytes, read from the last gap byte on. */
  ghost predicate FmJudged(s: seq<bv8>, size: nat, buf: seq<bv8>, bad: seq<bool>, goodMark: bool, crc: bv16)
    requires |s| == 2 * (4 + size)
  {
    var d := Decode(s);
    && buf == d[2..2 + size]
    && (goodMark <==> d[1] == 0xfb)
    && crc == CrcOf(d[1..], 0xffff)
    && |bad| == size + 2
    && forall i: nat :: i < |bad| ==> bad[i] == !FmChecks(s[4..], i)
  }

  /** Checks and decodes the data field of a sector in place and copies out its data. */
  method FinishFmRead(mem: array<bv8>, p: nat, id: Idam) returns (buf: seq<bv8>, bad: seq<bool>, goodMark: bool, crc: bv16)
    requires p + 2 * (4 + SecBytes(id.n)) <= mem.Length
    modifies mem
    ensures FmJudged(old(mem[p..p + 2 * (4 + SecBytes(id.n))]), SecBytes(id.n), buf, bad, goodMark, crc)
    ensures mem[..p] == old(mem[..p])
    ensures mem[p + 2 * (4 + SecBytes(id.n))..] == old(mem[p + 2 * (4 + SecBytes(id.n))..])
  {
    hide FmJudged, SecBytes;
    buf, bad, goodMark, crc := FinishFmField(mem, p, SecBytes(id.n));
  }

  /** The clock check of a field, from behind its mark on. */
  method CheckFmField(mem: array<bv8>, p: nat, size: nat) returns (bad: seq<bool>)
    requires p + 2 * (4 + size) <= mem.Length
    ensures |bad| == size + 2
    ensures var s := mem[p..p + 2 * (4 + size)];
            forall i: nat :: i < |bad| ==> bad[i] == !FmChecks(s[4..], i)
  {
    hide FmChecks;
    ghost var s := mem[p..p + 2 * (4 + size)];
    Ibm.Part(mem[..], p, 2 * (4 + size), 4, 2 * (size + 2));
    assert s[4..4 + 2 * (size + 2)] == s[4..];
    bad := FmCheck(mem, p + 4, size + 2);
  }

  method FinishFmField(mem: array<bv8>, p: nat, size: nat)
      returns (buf: seq<bv8>, bad: seq<bool>, goodMark: bool, crc: bv16)
    requires p + 2 * (4 + size) <= mem.Length
    modifies mem
    ensures FmJudged(old(mem[p..p + 2 * (4 + size)]), size, buf, bad, goodMark, crc)
    ensures mem[..p] == old(mem[..p]) && mem[p + 2 * (4 + size)..] == old(mem[p + 2 * (4 + size)..])
  {
    hide Decode, FmChecks, CrcOf;
    ghost var now, s := mem[..], mem[p..p + 2 * (4 + size)];
    bad := CheckFmField(mem, p, size);
    MfmToBin(mem, p, 4 + size);
    ghost var d := mem[p..p + 4 + size];
    assert d == Decode(s);
    Ibm.SameBehind(mem[..], now, p + 4 + size, p + 2 * (4 + size));
    goodMark := mem[p + 1] == 0xfb;
    Ibm.Part(mem[..], p, 4 + size, 1, 3 + size);
    Ibm.Part(mem[..], p, 4 + size, 2, size);
    crc := Crc16Ccitt(mem, p + 1, 3 + size, 0xffff);
    buf := mem[p + 2..p + 2 + size];
    assert d[1..1 + (3 + size)] == d[1..];
  }

  /** A field as it was written is found good and gives its data back. */
  lemma FmFieldIsGood(buf: seq<bv8>, gap3: nat, bad: seq<bool>, crc: bv16, goodMark: bool, got: seq<bv8>)
    requires FmJudged(FmFieldWords(buf, gap3), |buf|, got, bad, goodMark, crc)
    ensures got == buf && goodMark && crc == 0
  {
    hide FmFieldWords, CrcOf, Decode, FmChecks, FmSectorWrite, FmMarked;
    FmFieldReadsBack(buf, gap3, 0);
    var d := [0x00] + FmField(buf);
    assert d[2..2 + |buf|] == FmField(buf)[1..1 + |buf|] && d[1..] == FmField(buf);
  }
}
