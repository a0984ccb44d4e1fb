/** The IBM track format: what a track holds, and what a scan of it must find. */
module IbmLayout {
  import opened Arithmetic
  import opened Bits
  import opened Mfm
  import opened Crc
  import opened CrcTheory
  import opened Stream
  import opened Marks
  import EndToEnd

  const GAP_SYNC: nat := 12
  const GAP2: nat := 22
  const IDAM_MARK: seq<bv8> := [0xa1, 0xa1, 0xa1, 0xfe]
  const DAM_MARK: seq<bv8> := [0xa1, 0xa1, 0xa1, 0xfb]

  /** Sector address: cylinder, head, sector number and size code. */
  datatype Idam = Idam(c: bv8, h: bv8, r: bv8, n: bv8)

  /** 128 << n. */
  function SecBytes(n: bv8): (r: nat)
    ensures r >= 128
  {
    128 * Power(2, n as nat)
  }

  /** A sector of size code zero holds 128 bytes, and each size code doubles that. */
  lemma SizeDoubles(n: bv8)
    ensures SecBytes(0) == 128
    ensures n < 255 ==> SecBytes(n + 1) == 2 * SecBytes(n)
  {
    if n < 255 { assert (n + 1) as nat == n as nat + 1; }
  }

  /** For the sizes there are it is the shift that the source writes. */
  lemma SizeIsShift(n: bv8)
    requires n <= 7
    ensures SecBytes(n) == ((128 as bv32) << n) as nat
  {
    SizeDoubles(0);
    SizeDoubles(1);
    SizeDoubles(2);
    SizeDoubles(3);
    SizeDoubles(4);
    SizeDoubles(5);
    SizeDoubles(6);
  }

  function Fill(b: bv8, n: nat): (r: seq<bv8>)
    ensures |r| == n
  {
    seq(n, k => b)
  }

  function IdamBytes(id: Idam): (r: seq<bv8>)
    ensures |r| == 4
  {
    [id.c, id.h, id.r, id.n]
  }

  /** A block followed by its checksum, high byte first. */
  function Sealed(s: seq<bv8>): (r: seq<bv8>)
    ensures |r| == |s| + 2
  {
    s + [Hi(CrcOf(s, 0xffff)), Lo(CrcOf(s, 0xffff))]
  }

  function IdamField(id: Idam): (r: seq<bv8>)
    ensures |r| == 10
  {
    Sealed(IDAM_MARK + IdamBytes(id))
  }

  function DamField(data: seq<bv8>): (r: seq<bv8>)
    ensures |r| == |data| + 6
  {
    Sealed(DAM_MARK + data)
  }

  /** One formatted sector, from its first pre-sync gap to its post-data gap. */
  function Sector(id: Idam, gap3: nat): (r: seq<bv8>)
    ensures |r| == SectorLength(id, gap3)
  {
    Fill(0x00, GAP_SYNC) + IdamField(id) + Fill(0x4e, GAP2)
    + Fill(0x00, GAP_SYNC) + DamField(Fill(0xe2, SecBytes(id.n))) + Fill(0x4e, gap3)
  }

  function SectorLength(id: Idam, gap3: nat): nat { 62 + SecBytes(id.n) + gap3 }

  function Sectors(ids: seq<Idam>, gap3: nat): seq<bv8>
    decreases |ids|
  {
    if ids == [] then [] else Sector(ids[0], gap3) + Sectors(ids[1..], gap3)
  }

  /** A whole track before the byte that may pad it to an even length. */
  function Track(ids: seq<Idam>, gap3: nat): seq<bv8> {
    Fill(0x4e, 64) + Sectors(ids, gap3) + Fill(0x4e, 64)
  }

  /** The words holding the two sync marks of a sector starting at byte b. */
  function SixMarks(b: nat): set<nat> { {b + 12, b + 13, b + 14, b + 56, b + 57, b + 58} }

  /** The words holding sync marks, for sectors starting at byte b. */
  function MarkSet(ids: seq<Idam>, gap3: nat, b: nat): set<nat>
    decreases |ids|
  {
    if ids == [] then {}
    else SixMarks(b) + MarkSet(ids[1..], gap3, b + SectorLength(ids[0], gap3))
  }

  lemma {:induction false} MarkSetBounds(ids: seq<Idam>, gap3: nat, b: nat)
    ensures forall m :: m in MarkSet(ids, gap3, b) ==> b + 12 <= m < b + |Sectors(ids, gap3)|
    decreases |ids|
  {
    if ids == [] {
    } else {
      MarkSetBounds(ids[1..], gap3, b + SectorLength(ids[0], gap3));
    }
  }

  predicate ThreeA1(s: seq<bv8>, k: nat) {
    k + 3 <= |s| && s[k] == 0xa1 && s[k + 1] == 0xa1 && s[k + 2] == 0xa1
  }

  /** Where things are inside one sector. */
  lemma SectorParts(id: Idam, gap3: nat)
    ensures var s := Sector(id, gap3);
            && s[12..22] == IdamField(id)
            && s[56..62 + SecBytes(id.n)] == DamField(Fill(0xe2, SecBytes(id.n)))
            && ThreeA1(s, 12) && ThreeA1(s, 56)
  {
    hide SecBytes, CrcOf;
    var s := Sector(id, gap3);
    var u, v := s[12..22], s[56..62 + SecBytes(id.n)];
    assert u == IdamField(id);
    assert v == DamField(Fill(0xe2, SecBytes(id.n)));
    assert u[0] == s[12] && u[1] == s[13] && u[2] == s[14];
    assert v[0] == s[56] && v[1] == s[57] && v[2] == s[58];
  }

  /** What each byte of a formatted sector is, and that both checksums come out. */
  lemma SectorLayout(id: Idam, gap3: nat, i: nat)
    requires i < SectorLength(id, gap3)
    ensures var s, n := Sector(id, gap3), SecBytes(id.n);
            && (i < 12 || 44 <= i < 56 ==> s[i] == 0x00)
            && (12 <= i < 15 || 56 <= i < 59 ==> s[i] == 0xa1)
            && s[15] == 0xfe && s[16] == id.c && s[17] == id.h && s[18] == id.r && s[19] == id.n && s[59] == 0xfb
            && (22 <= i < 44 || 62 + n <= i ==> s[i] == 0x4e)
            && (60 <= i < 60 + n ==> s[i] == 0xe2)
            && CrcOf(s[12..22], 0xffff) == 0 && CrcOf(s[56..62 + n], 0xffff) == 0
  {
    hide SecBytes, CrcOf;
    SectorParts(id, gap3);
    Residue(IDAM_MARK + IdamBytes(id), 0xffff);
    Residue(DAM_MARK + Fill(0xe2, SecBytes(id.n)), 0xffff);
  }

  /** A track is its sectors between two gaps. */
  lemma TrackLayout(ids: seq<Idam>, gap3: nat, i: nat)
    ensures var t, n := Track(ids, gap3), |Sectors(ids, gap3)|;
            && |t| == 128 + n && t[64..64 + n] == Sectors(ids, gap3)
            && (i < 64 || 64 + n <= i < |t| ==> t[i] == 0x4e)
            && (ids != [] ==> Sectors(ids, gap3) == Sector(ids[0], gap3) + Sectors(ids[1..], gap3))
  {
    hide Sector;
  }

  /** Bytes from b on are the sectors ids. */
  predicate Laid(data: seq<bv8>, b: nat, ids: seq<Idam>, gap3: nat) {
    b + |Sectors(ids, gap3)| <= |data| && data[b..b + |Sectors(ids, gap3)|] == Sectors(ids, gap3)
  }

  lemma LaidSplit(data: seq<bv8>, b: nat, ids: seq<Idam>, gap3: nat)
    requires Laid(data, b, ids, gap3) && ids != []
    ensures var l := SectorLength(ids[0], gap3);
            && b + l <= |data| && data[b..b + l] == Sector(ids[0], gap3)
            && Laid(data, b + l, ids[1..], gap3)
  {
    hide Sector, SectorLength;
    var l, t := SectorLength(ids[0], gap3), Sectors(ids[1..], gap3);
    var s := data[b..b + l + |t|];
    assert data[b..b + l] == s[..l] && data[b + l..b + l + |t|] == s[l..];
  }

  lemma ThreeA1Shifted(data: seq<bv8>, b: nat, l: nat, k: nat)
    requires b + l <= |data| && ThreeA1(data[b..b + l], k)
    ensures ThreeA1(data, b + k)
  {
    var s := data[b..b + l];
    assert s[k] == data[b + k] && s[k + 1] == data[b + k + 1] && s[k + 2] == data[b + k + 2];
  }

  lemma {:induction false} MarksOnSectors(data: seq<bv8>, b: nat, ids: seq<Idam>, gap3: nat)
    requires Laid(data, b, ids, gap3)
    ensures MarksOn(data, MarkSet(ids, gap3, b))
    decreases |ids|
  {
    hide Sector, Sectors, Laid, SecBytes;
    if ids == [] {
    } else {
      LaidSplit(data, b, ids, gap3);
      SectorParts(ids[0], gap3);
      var l := SectorLength(ids[0], gap3);
      ThreeA1Shifted(data, b, l, 12);
      ThreeA1Shifted(data, b, l, 56);
      MarksOnSectors(data, b + l, ids[1..], gap3);
    }
  }

  // ----- fields as the readers judge them

  /** What a scan takes for an address field. */
  predicate IsIdam(p: seq<bv8>) {
    |p| == 10 && p[..4] == IDAM_MARK && CrcOf(p, 0xffff) == 0
  }

  function IdamOf(p: seq<bv8>): Idam
    requires |p| == 10
  {
    Idam(p[4], p[5], p[6], p[7])
  }

  /** An address field is accepted and read back. */
  lemma IdamAccepted(id: Idam)
    ensures IsIdam(IdamField(id)) && IdamOf(IdamField(id)) == id
  {
    hide CrcOf;
    Residue(IDAM_MARK + IdamBytes(id), 0xffff);
    assert IdamField(id)[..4] == IDAM_MARK;
  }

  /** A damaged address field is not taken for one: any change confined to two neighbouring bytes is noticed. */
  lemma DamagedIdam(id: Idam, a: seq<bv8>, x1: bv8, x2: bv8, y1: bv8, y2: bv8, b: seq<bv8>)
    requires IdamField(id) == a + [x1, x2] + b && (x1 != y1 || x2 != y2)
    ensures !IsIdam(a + [y1, y2] + b)
  {
    hide CrcOf;
    Residue(IDAM_MARK + IdamBytes(id), 0xffff);
    TwoBytesDetected(0xffff, a, x1, x2, y1, y2, b);
  }

  /** Nor does a damaged data field come out with checksum zero. */
  lemma DamagedDam(data: seq<bv8>, a: seq<bv8>, x1: bv8, x2: bv8, y1: bv8, y2: bv8, b: seq<bv8>)
    requires DamField(data) == a + [x1, x2] + b && (x1 != y1 || x2 != y2)
    ensures CrcOf(a + [y1, y2] + b, 0xffff) != 0
  {
    hide CrcOf;
    DamAccepted(data);
    TwoBytesDetected(0xffff, a, x1, x2, y1, y2, b);
  }

  /** A data field never passes for an address field, whatever it holds. */
  lemma DamRejected(p: seq<bv8>, data: seq<bv8>)
    requires |p| == 10 && |data| >= 4 && p == DamField(data)[..10]
    ensures !IsIdam(p)
  {
    hide CrcOf;
    assert p[3] == 0xfb && p[..4][3] == p[3];
  }

  /** A data field is accepted and its data read back. */
  lemma DamAccepted(x: seq<bv8>)
    ensures var d := DamField(x);
            d[..4] == DAM_MARK && d[4..4 + |x|] == x && CrcOf(d, 0xffff) == 0
  {
    hide CrcOf;
    Residue(DAM_MARK + x, 0xffff);
  }

  // ----- scanning one revolution

  /** The first sync pattern at or after cell q. */
  predicate IsNextSync(c: seq<bool>, q: nat, o: nat) {
    q <= o && SyncAt(c, o) && forall o' :: q <= o' < o ==> !SyncAt(c, o')
  }

  function NextSync(c: seq<bool>, q: nat): (r: int)
    ensures r >= -1
    ensures r >= 0 ==> IsNextSync(c, q, r)
    ensures r < 0 ==> forall o' :: q <= o' ==> !SyncAt(c, o')
    decreases |c| - q
  {
    if q + 32 > |c| then -1
    else if SyncAt(c, q) then q
    else NextSync(c, q + 1)
  }

  /** The ten bytes a read starting at cell o delivers. */
  function TenBytes(c: seq<bool>, o: nat): (r: seq<bv8>)
    requires o + 160 <= |c|
    ensures |r| == 10
  {
    Decode(PackBytes(c[o..o + 160]))
  }

  /** The scan loop over one revolution. Read number i starts latency(i) cells after the one before
      ended; the scan ends with the read that runs into the index. */
  function Scan(c: seq<bool>, pos: nat, latency: nat -> nat, i: nat): seq<Idam>
    decreases |c| - pos
  {
    var o := NextSync(c, pos + latency(i));
    if o < 0 || o + 160 > |c| then []
    else
      var p := TenBytes(c, o);
      (if IsIdam(p) then [IdamOf(p)] else []) + Scan(c, o + 160, latency, i + 1)
  }

  /** The slack between the end of one ten-byte read and the next sync mark: gap 2 and a pre-sync gap. */
  const MAX_LATENCY: nat := 544

  /** A sync mark with its second pair sixteen cells later: ten bytes are what a read from it delivers, and a read that
      catches only the second pair delivers no address. */
  ghost predicate MarkAt(c: seq<bool>, at: nat, ten: seq<bv8>) {
    && at + 176 <= |c| && SyncAt(c, at) && SyncAt(c, at + 16)
    && (forall o: nat :: at <= o < at + 160 && SyncAt(c, o) ==> o == at || o == at + 16)
    && TenBytes(c, at) == ten && !IsIdam(TenBytes(c, at + 16))
  }

  /** The first sync mark from cell from on is this one, after no less than the slack. */
  ghost predicate NextBlock(c: seq<bool>, from: nat, at: nat, ten: seq<bv8>) {
    from + MAX_LATENCY <= at && MarkAt(c, at, ten) && forall o: nat :: from <= o < at ==> !SyncAt(c, o)
  }

  lemma BlockIsNext(c: seq<bool>, from: nat, at: nat, ten: seq<bv8>, q: nat)
    requires NextBlock(c, from, at, ten) && from <= q <= at
    ensures NextSync(c, q) == at && at + 160 <= |c| && TenBytes(c, at) == ten
  {
    hide SyncAt, TenBytes, IsIdam, NextSync;
    var o := NextSync(c, q);
  }

  lemma BlockAhead(c: seq<bool>, from: nat, at: nat, ten: seq<bv8>)
    requires NextBlock(c, from, at, ten)
    ensures from + MAX_LATENCY <= at && at + 176 <= |c|
  {
    hide SyncAt, TenBytes, IsIdam;
  }

  /** A sector on a track: its address, the word it starts at, the cell of its data mark, and its data. */
  datatype Placed = Placed(id: Idam, s: nat, at: nat, data: seq<bv8>)

  function WordsAt(c: seq<bool>, o: nat, n: nat): (r: seq<bv8>)
    requires o + 16 * n <= |c|
    ensures |r| == 2 * n
  {
    PackBytes(c[o..o + 16 * n])
  }

  /** The bytes a read of n words delivers, when it starts at cell o. */
  function BytesAt(c: seq<bool>, o: nat, n: nat): (r: seq<bv8>)
    requires o + 16 * n <= |c|
    ensures |r| == n
  {
    Decode(WordsAt(c, o, n))
  }

  /** A whole data field that holds x lies at cell o. */
  predicate FieldAt(c: seq<bool>, o: int, x: seq<bv8>) {
    0 <= o && o + 16 * (6 + |x|) <= |c| && BytesAt(c, o, 6 + |x|) == DamField(x)
  }

  /** One sector as a reader meets it: its address field, then its data field. */
  ghost predicate SectorAt(c: seq<bool>, from: nat, p: Placed) {
    && NextBlock(c, from, 16 * (p.s + 12), IdamField(p.id))
    && |p.data| >= 128 && NextBlock(c, 16 * (p.s + 22), p.at, DamField(p.data)[..10])
    && FieldAt(c, p.at, p.data)
  }

  /** From cell from on the cells hold these sectors, and no other sync marks. */
  ghost predicate Holds(c: seq<bool>, from: nat, ps: seq<Placed>)
    decreases |ps|
  {
    if ps == [] then forall o: nat :: from <= o ==> !SyncAt(c, o)
    else SectorAt(c, from, ps[0]) && Holds(c, ps[0].at + 160, ps[1..])
  }

  function Ids(ps: seq<Placed>): (r: seq<Idam>)
    ensures |r| == |ps|
  {
    seq(|ps|, i requires 0 <= i < |ps| => ps[i].id)
  }

  /** A scan of cells that hold sectors reports their addresses, in order. */
  lemma {:induction false} ScanHolds(c: seq<bool>, from: nat, ps: seq<Placed>, latency: nat -> nat, i: nat)
    requires Holds(c, from, ps) && forall j :: latency(j) <= MAX_LATENCY
    ensures Scan(c, from, latency, i) == Ids(ps)
    decreases |ps|
  {
    hide NextSync, SyncAt, TenBytes, IsIdam, IdamField, DamField, NextBlock, FieldAt, Scan;
    ScanStep(c, from, latency, i);
    if ps == [] {
    } else {
      var a, b := 16 * (ps[0].s + 12), ps[0].at;
      BlockAhead(c, from, a, IdamField(ps[0].id));
      BlockAhead(c, a + 160, b, DamField(ps[0].data)[..10]);
      BlockIsNext(c, from, a, IdamField(ps[0].id), from + latency(i));
      ScanStep(c, a + 160, latency, i + 1);
      BlockIsNext(c, a + 160, b, DamField(ps[0].data)[..10], a + 160 + latency(i + 1));
      IdamAccepted(ps[0].id);
      DamRejected(DamField(ps[0].data)[..10], ps[0].data);
      ScanHolds(c, b + 160, ps[1..], latency, i + 2);
      assert [ps[0].id] + ([] + Ids(ps[1..])) == Ids(ps);
    }
  }

  lemma ScanStep(c: seq<bool>, pos: nat, latency: nat -> nat, i: nat)
    ensures var o := NextSync(c, pos + latency(i));
            if o < 0 || o + 160 > |c| then Scan(c, pos, latency, i) == []
            else
              && o >= pos + latency(i)
              && Scan(c, pos, latency, i)
                 == (if IsIdam(TenBytes(c, o)) then [IdamOf(TenBytes(c, o))] else []) + Scan(c, o + 160, latency, i + 1)
  {
    hide IsIdam, TenBytes, NextSync;
  }

  // ----- the track as formatted

  lemma BytesOfMarked(before: bv8, data: seq<bv8>, marks: set<nat>, s: nat, n: nat)
    requires MarksOn(data, marks) && s + n <= |data|
    ensures var c := MarkedCellStream(before, data, marks);
            16 * s + 16 * n <= |c| && BytesAt(c, 16 * s, n) == data[s..s + n]
  {
    hide MarkedCellStream, Decode, PackBytes, MarksOn;
    EndToEnd.CellsToBytes(before, data, marks, s, n);
    assert 16 * (s + n) == 16 * s + 16 * n;
  }

  lemma ReadTen(before: bv8, data: seq<bv8>, marks: set<nat>, s: nat)
    requires MarksOn(data, marks) && s + 10 <= |data|
    ensures TenBytes(MarkedCellStream(before, data, marks), 16 * s) == data[s..s + 10]
  {
    hide MarkedCellStream, Decode, PackBytes;
    EndToEnd.CellsToBytes(before, data, marks, s, 10);
  }

  lemma NotShifted(p: seq<bv8>)
    requires |p| == 10 && p[2] != 0xa1
    ensures !IsIdam(p)
  {
    hide CrcOf;
    assert p[..4][2] == p[2];
  }

  /** Three marks and no others in reach. */
  lemma MarkOfThree(before: bv8, data: seq<bv8>, marks: set<nat>, m: nat)
    requires MarksOn(data, marks) && {m, m + 1, m + 2} <= marks
    requires forall k :: k in marks && m <= k < m + 10 ==> k <= m + 2
    requires m + 11 <= |data| && data[m + 3] != 0xa1
    ensures MarkAt(MarkedCellStream(before, data, marks), 16 * m, data[m..m + 10])
  {
    hide MarkedCellStream, Lawful, SyncAt, TenBytes, IsIdam, MarksOn;
    var c := MarkedCellStream(before, data, marks);
    MarkedIsLawful(before, data, marks);
    SyncUnambiguous(c, marks, 16 * m);
    SyncUnambiguous(c, marks, 16 * m + 16);
    forall o: nat | 16 * m <= o < 16 * m + 160 && SyncAt(c, o)
      ensures o == 16 * m || o == 16 * m + 16
    {
      SyncUnambiguous(c, marks, o);
    }
    ReadTen(before, data, marks, m);
    ReadTen(before, data, marks, m + 1);
    NotShifted(data[m + 1..m + 11]);
  }

  lemma BlockOfThree(before: bv8, data: seq<bv8>, marks: set<nat>, from: nat, m: nat)
    requires MarksOn(data, marks) && {m, m + 1, m + 2} <= marks
    requires forall k :: k in marks && from <= 16 * k && k < m + 10 ==> m <= k <= m + 2
    requires from + MAX_LATENCY <= 16 * m && m + 11 <= |data| && data[m + 3] != 0xa1
    ensures NextBlock(MarkedCellStream(before, data, marks), from, 16 * m, data[m..m + 10])
  {
    hide MarkedCellStream, Lawful, SyncAt, MarkAt, MarksOn;
    var c := MarkedCellStream(before, data, marks);
    MarkedIsLawful(before, data, marks);
    MarkOfThree(before, data, marks, m);
    forall o: nat | from <= o < 16 * m
      ensures !SyncAt(c, o)
    {
      SyncUnambiguous(c, marks, o);
    }
  }

  /** From word w on, the marks are those of the sectors ids laid at b. */
  ghost predicate MarksFrom(marks: set<nat>, w: nat, ids: seq<Idam>, gap3: nat, b: nat) {
    forall m :: w <= m ==> (m in marks <==> m in MarkSet(ids, gap3, b))
  }

  /** A mark is one of the first sector's six, or belongs to a later sector. */
  lemma MarkIn(m: nat, ids: seq<Idam>, gap3: nat, b: nat)
    requires ids != []
    ensures var next := b + SectorLength(ids[0], gap3);
            && (m in MarkSet(ids, gap3, b) <==> m in SixMarks(b) || m in MarkSet(ids[1..], gap3, next))
            && (m in MarkSet(ids[1..], gap3, next) ==> next + 12 <= m)
  {
    hide SecBytes, Sectors, SixMarks;
    MarkSetBounds(ids[1..], gap3, b + SectorLength(ids[0], gap3));
  }

  /** The marks of the first sector, and no others before the next one's. */
  lemma SectorMarks(marks: set<nat>, w: nat, ids: seq<Idam>, gap3: nat, b: nat)
    requires MarksFrom(marks, w, ids, gap3, b) && ids != [] && w <= b
    ensures SixMarks(b) <= marks
    ensures forall m :: m in marks && w <= m < b + SectorLength(ids[0], gap3) + 12 ==> m in SixMarks(b)
    ensures MarksFrom(marks, b + 66, ids[1..], gap3, b + SectorLength(ids[0], gap3))
  {
    hide MarkSet, SectorLength, SixMarks;
    var next := b + SectorLength(ids[0], gap3);
    forall m: nat | m in SixMarks(b)
      ensures m in marks
    {
      MarkIn(m, ids, gap3, b);
      SixMarksFrom(b, m);
    }
    forall m: nat | m in marks && w <= m < next + 12
      ensures m in SixMarks(b)
    {
      MarkIn(m, ids, gap3, b);
    }
    forall m: nat | b + 66 <= m
      ensures m in marks <==> m in MarkSet(ids[1..], gap3, next)
    {
      MarkIn(m, ids, gap3, b);
      if m in SixMarks(b) { SixMarksFrom(b, m); }
    }
  }

  /** Behind the first sector the marks are those of the rest. */
  lemma LaterMarks(marks: set<nat>, w: nat, ids: seq<Idam>, gap3: nat, b: nat)
    requires MarksFrom(marks, w, ids, gap3, b) && ids != [] && w <= b
    ensures MarksFrom(marks, b + 66, ids[1..], gap3, b + SectorLength(ids[0], gap3))
  {
    hide MarksFrom, SectorLength, SixMarks;
    SectorMarks(marks, w, ids, gap3, b);
  }

  lemma SixMarksFrom(b: nat, m: nat)
    requires m in SixMarks(b)
    ensures b + 12 <= m <= b + 14 || b + 56 <= m <= b + 58
  {}

  lemma Within(data: seq<bv8>, b: nat, l: nat, s: seq<bv8>, i: nat, j: nat)
    requires b + l <= |data| && data[b..b + l] == s && i <= j <= l
    ensures data[b + i..b + j] == s[i..j]
  {
    var u, v := data[b + i..b + j], s[i..j];
    forall k | 0 <= k < j - i
      ensures u[k] == v[k]
    {
      assert data[b..b + l][i + k] == s[i + k];
    }
  }

  /** The two fields of the first sector laid at b. */
  lemma SectorFields(data: seq<bv8>, b: nat, ids: seq<Idam>, gap3: nat)
    requires Laid(data, b, ids, gap3) && ids != []
    ensures b + SectorLength(ids[0], gap3) <= |data|
    ensures data[b + 12..b + 22] == IdamField(ids[0])
    ensures data[b + 56..b + 62 + SecBytes(ids[0].n)] == DamField(Fill(0xe2, SecBytes(ids[0].n)))
  {
    hide Sector, Sectors, Laid, SecBytes, IdamField, DamField, Fill;
    LaidSplit(data, b, ids, gap3);
    SectorParts(ids[0], gap3);
    var l, s := SectorLength(ids[0], gap3), Sector(ids[0], gap3);
    Within(data, b, l, s, 12, 22);
    Within(data, b, l, s, 56, 62 + SecBytes(ids[0].n));
  }

  lemma FieldMarks(id: Idam, x: seq<bv8>)
    ensures IdamField(id)[3] == 0xfe && DamField(x)[3] == 0xfb
  {
    hide CrcOf;
  }

  /** The sector that starts at word b, as it was formatted. */
  function Formatted(id: Idam, b: nat): Placed { Placed(id, b, 16 * (b + 56), Fill(0xe2, SecBytes(id.n))) }

  lemma FormattedSector(before: bv8, data: seq<bv8>, marks: set<nat>, ids: seq<Idam>, gap3: nat, b: nat, w: nat, from: nat)
    requires MarksOn(data, marks) && Laid(data, b, ids, gap3) && ids != [] && MarksFrom(marks, w, ids, gap3, b)
    requires w <= b && 16 * w <= from && from + MAX_LATENCY <= 16 * (b + 12)
    ensures SectorAt(MarkedCellStream(before, data, marks), from, Formatted(ids[0], b))
  {
    hide MarkedCellStream, Sectors, IdamField, DamField, Laid, MarksOn, NextBlock, MarksFrom, Fill, SecBytes, BytesAt;
    var n := SecBytes(ids[0].n);
    var x := Fill(0xe2, n);
    SectorFields(data, b, ids, gap3);
    SectorMarks(marks, w, ids, gap3, b);
    FieldMarks(ids[0], x);
    assert data[b + 15] == data[b + 12..b + 22][3] && data[b + 59] == data[b + 56..b + 62 + n][3];
    BlockOfThree(before, data, marks, from, b + 12);
    BlockOfThree(before, data, marks, 16 * (b + 22), b + 56);
    Within(data, b + 56, 6 + n, DamField(x), 0, 10);
    BytesOfMarked(before, data, marks, b + 56, 6 + n);
  }

  /** The sectors of a track, the first at word b. */
  function Places(ids: seq<Idam>, gap3: nat, b: nat): (r: seq<Placed>)
    ensures |r| == |ids|
    decreases |ids|
  {
    if ids == [] then [] else [Formatted(ids[0], b)] + Places(ids[1..], gap3, b + SectorLength(ids[0], gap3))
  }

  lemma {:induction false} PlacesIds(ids: seq<Idam>, gap3: nat, b: nat)
    ensures Ids(Places(ids, gap3, b)) == ids
    decreases |ids|
  {
    if ids == [] {
    } else {
      PlacesIds(ids[1..], gap3, b + SectorLength(ids[0], gap3));
      assert ids == [ids[0]] + ids[1..];
    }
  }

  lemma LongSector(id: Idam, gap3: nat)
    ensures SectorLength(id, gap3) >= 190 + gap3
  {}

  lemma {:induction false} SectorsHeld(before: bv8, data: seq<bv8>, marks: set<nat>, ids: seq<Idam>, gap3: nat, b: nat,
                                       w: nat, from: nat)
    requires MarksOn(data, marks) && Laid(data, b, ids, gap3) && MarksFrom(marks, w, ids, gap3, b)
    requires w <= b && 16 * w <= from && from + MAX_LATENCY <= 16 * (b + 12)
    ensures Holds(MarkedCellStream(before, data, marks), from, Places(ids, gap3, b))
    decreases |ids|
  {
    hide MarkedCellStream, Lawful, Sectors, SecBytes, Laid, MarksOn, MarksFrom, SectorAt, SectorLength, Fill, SyncAt;
    var c := MarkedCellStream(before, data, marks);
    if ids == [] {
      MarkedIsLawful(before, data, marks);
      NoMoreMarks(c, marks, gap3, b, w, from);
    } else {
      FormattedSector(before, data, marks, ids, gap3, b, w, from);
      LaterMarks(marks, w, ids, gap3, b);
      LaidSplit(data, b, ids, gap3);
      LongSector(ids[0], gap3);
      SectorsHeld(before, data, marks, ids[1..], gap3, b + SectorLength(ids[0], gap3), b + 66, 16 * (b + 66));
      assert Places(ids, gap3, b)[1..] == Places(ids[1..], gap3, b + SectorLength(ids[0], gap3));
    }
  }

  lemma NoMoreMarks(c: seq<bool>, marks: set<nat>, gap3: nat, b: nat, w: nat, from: nat)
    requires Lawful(c, marks) && MarksFrom(marks, w, [], gap3, b) && 16 * w <= from
    ensures forall o: nat :: from <= o ==> !SyncAt(c, o)
  {
    hide Lawful, SyncAt;
    forall o: nat | from <= o
      ensures !SyncAt(c, o)
    {
      SyncUnambiguous(c, marks, o);
    }
  }

  /** The track as it lies in memory: padded to an even length by whatever byte follows it. */
  function PaddedTrack(ids: seq<Idam>, gap3: nat, pad: bv8): (r: seq<bv8>)
    ensures |r| % 2 == 0
  {
    var t := Track(ids, gap3);
    if |t| % 2 == 1 then t + [pad] else t
  }

  function TrackMarks(ids: seq<Idam>, gap3: nat): set<nat> { MarkSet(ids, gap3, 64) }

  lemma TrackLaid(ids: seq<Idam>, gap3: nat, pad: bv8)
    ensures Laid(PaddedTrack(ids, gap3, pad), 64, ids, gap3)
    ensures MarksOn(PaddedTrack(ids, gap3, pad), TrackMarks(ids, gap3))
  {
    hide Sectors;
    var d, s := PaddedTrack(ids, gap3, pad), Sectors(ids, gap3);
    assert d[64..64 + |s|] == s;
    MarksOnSectors(d, 64, ids, gap3);
  }

  function TrackCells(before: bv8, ids: seq<Idam>, gap3: nat, pad: bv8): seq<bool> {
    MarkedCellStream(before, PaddedTrack(ids, gap3, pad), TrackMarks(ids, gap3))
  }

  lemma AllMarks(ids: seq<Idam>, gap3: nat)
    ensures MarksFrom(TrackMarks(ids, gap3), 0, ids, gap3, 64)
  {}

  lemma TrackCellsLawful(before: bv8, ids: seq<Idam>, gap3: nat, pad: bv8)
    ensures Lawful(TrackCells(before, ids, gap3, pad), TrackMarks(ids, gap3))
  {
    hide PaddedTrack, TrackMarks, Lawful, MarkedCellStream;
    TrackLaid(ids, gap3, pad);
    MarkedIsLawful(before, PaddedTrack(ids, gap3, pad), TrackMarks(ids, gap3));
  }

  /** A formatted track holds its sectors. */
  lemma TrackHolds(before: bv8, ids: seq<Idam>, gap3: nat, pad: bv8)
    ensures Holds(TrackCells(before, ids, gap3, pad), 0, Places(ids, gap3, 64))
  {
    hide MarkedCellStream, PaddedTrack, Sectors, Laid, MarksOn, MarksFrom, Places, TrackMarks;
    TrackLaid(ids, gap3, pad);
    AllMarks(ids, gap3);
    SectorsHeld(before, PaddedTrack(ids, gap3, pad), TrackMarks(ids, gap3), ids, gap3, 64, 0, 0);
  }

  /** Formatting and scanning: whatever the sector addresses and sizes, the gap, the padding byte and the
      byte before the buffer, a scan reports exactly the formatted addresses, in order. */
  lemma ScanFindsTrack(before: bv8, ids: seq<Idam>, gap3: nat, pad: bv8, latency: nat -> nat)
    requires forall j :: latency(j) <= MAX_LATENCY
    ensures Scan(TrackCells(before, ids, gap3, pad), 0, latency, 0) == ids
  {
    hide TrackCells, Places, Scan, Holds;
    TrackHolds(before, ids, gap3, pad);
    ScanHolds(TrackCells(before, ids, gap3, pad), 0, Places(ids, gap3, 64), latency, 0);
    PlacesIds(ids, gap3, 64);
  }

  lemma {:induction false} SectorsLength(ids: seq<Idam>, gap3: nat)
    ensures |Sectors(ids, gap3)| == TotalLength(ids, gap3)
    decreases |ids|
  {
    if ids == [] {
    } else {
      SectorsLength(ids[1..], gap3);
    }
  }

  /** The byte count the builder computes before it allocates. */
  function TotalLength(ids: seq<Idam>, gap3: nat): nat
    decreases |ids|
  {
    if ids == [] then 0 else SectorLength(ids[0], gap3) + TotalLength(ids[1..], gap3)
  }
}
