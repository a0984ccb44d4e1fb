/** IBM track and sector builders, working in place in the bit-cell buffer, and the readers that undo them. */
module Ibm {
  import opened Bits
  import opened Mfm
  import opened Crc
  import opened Stream
  import opened Marks
  import opened IbmLayout

  // ----- a cursor over memory

  /** Memory with s stored at q. */
  function Stored(mem: seq<bv8>, q: nat, s: seq<bv8>): (r: seq<bv8>)
    requires q + |s| <= |mem|
    ensures |r| == |mem|
  {
    mem[..q] + s + mem[q + |s|..]
  }

  method Memset(mem: array<bv8>, q: nat, b: bv8, n: nat) returns (q': nat)
    requires q + n <= mem.Length
    modifies mem
    ensures q' == q + n && mem[..] == Stored(old(mem[..]), q, Fill(b, n))
  {
    for i := 0 to n
      invariant forall k :: 0 <= k < mem.Length ==> mem[k] == if q <= k < q + i then b else old(mem[k])
    {
      mem[q + i] := b;
    }
    q' := q + n;
  }

  method CopyIn(mem: array<bv8>, q: nat, s: seq<bv8>) returns (q': nat)
    requires q + |s| <= mem.Length
    modifies mem
    ensures q' == q + |s| && mem[..] == Stored(old(mem[..]), q, s)
  {
    for i := 0 to |s|
      invariant forall k :: 0 <= k < mem.Length ==> mem[k] == if q <= k < q + i then s[k - q] else old(mem[k])
    {
      mem[q + i] := s[i];
    }
    q' := q + |s|;
  }

  /** The buffer at p has been filled with built, and nothing else has changed since. */
  predicate Built(was: seq<bv8>, now: seq<bv8>, p: nat, built: seq<bv8>) {
    p + |built| <= |was| && now == Stored(was, p, built)
  }

  lemma BuiltMore(was: seq<bv8>, now: seq<bv8>, p: nat, built: seq<bv8>, s: seq<bv8>)
    requires Built(was, now, p, built) && p + |built| + |s| <= |was|
    ensures Built(was, Stored(now, p + |built|, s), p, built + s)
  {
    assert Stored(now, p + |built|, s) == Stored(was, p, built + s);
  }

  lemma BuiltSlice(was: seq<bv8>, now: seq<bv8>, p: nat, built: seq<bv8>, k: nat)
    requires Built(was, now, p, built) && k <= |built|
    ensures now[p + k..p + |built|] == built[k..]
  {}

  lemma BuiltNothing(was: seq<bv8>, p: nat)
    requires p <= |was|
    ensures Built(was, was, p, [])
  {}

  /** Appends the two checksum bytes of everything from s to q. */
  method Seal(mem: array<bv8>, s: nat, q: nat) returns (q': nat)
    requires s <= q && q + 2 <= mem.Length
    modifies mem
    ensures var c := CrcOf(old(mem[s..q]), 0xffff);
            q' == q + 2 && mem[..] == Stored(old(mem[..]), q, [Hi(c), Lo(c)])
  {
    hide CrcOf, Hi, Lo, Stored;
    var crc := Crc16Ccitt(mem, s, q - s, 0xffff);
    q' := CopyIn(mem, q, [Hi(crc), Lo(crc)]);
  }

  // ----- building one sector

  /** Sync, address mark, address and checksum. */
  method PutIdam(mem: array<bv8>, p: nat, q0: nat, id: Idam, ghost was: seq<bv8>, ghost built: seq<bv8>) returns (q: nat)
    requires Built(was, mem[..], p, built) && q0 == p + |built| && q0 + 10 <= mem.Length
    modifies mem
    ensures q == q0 + 10 && Built(was, mem[..], p, built + IdamField(id))
  {
    hide CrcOf, Hi, Lo, Stored, Built;
    Length(was, mem[..], p, built);
    q := CopyIn(mem, q0, IDAM_MARK);
    BuiltMore(was, old(mem[..]), p, built, IDAM_MARK);
    ghost var now := mem[..];
    q := CopyIn(mem, q, IdamBytes(id));
    BuiltMore(was, now, p, built + IDAM_MARK, IdamBytes(id));
    ghost var b := built + IDAM_MARK + IdamBytes(id);
    BuiltSlice(was, mem[..], p, b, |built|);
    assert b[|built|..] == IDAM_MARK + IdamBytes(id) && q == p + |b|;
    assert mem[..][q0..q] == mem[q0..q] == IDAM_MARK + IdamBytes(id);
    now := mem[..];
    q := Seal(mem, q0, q);
    ghost var c := CrcOf(IDAM_MARK + IdamBytes(id), 0xffff);
    BuiltMore(was, now, p, b, [Hi(c), Lo(c)]);
    assert b + [Hi(c), Lo(c)] == built + IdamField(id);
  }

  lemma Length(was: seq<bv8>, now: seq<bv8>, p: nat, built: seq<bv8>)
    requires Built(was, now, p, built)
    ensures |was| == |now|
  {}

  /** Sync, data mark, data and checksum. */
  method PutDam(mem: array<bv8>, p: nat, q0: nat, data: seq<bv8>, ghost was: seq<bv8>, ghost built: seq<bv8>)
      returns (q: nat)
    requires Built(was, mem[..], p, built) && q0 == p + |built| && q0 + 6 + |data| <= mem.Length
    modifies mem
    ensures q == q0 + 6 + |data| && Built(was, mem[..], p, built + DamField(data))
  {
    hide CrcOf, Hi, Lo, Stored, Built;
    Length(was, mem[..], p, built);
    q := CopyIn(mem, q0, DAM_MARK);
    BuiltMore(was, old(mem[..]), p, built, DAM_MARK);
    ghost var now := mem[..];
    q := CopyIn(mem, q, data);
    BuiltMore(was, now, p, built + DAM_MARK, data);
    ghost var b := built + DAM_MARK + data;
    BuiltSlice(was, mem[..], p, b, |built|);
    assert b[|built|..] == DAM_MARK + data && q == p + |b|;
    assert mem[..][q0..q] == mem[q0..q] == DAM_MARK + data;
    now := mem[..];
    q := Seal(mem, q0, q);
    ghost var c := CrcOf(DAM_MARK + data, 0xffff);
    BuiltMore(was, now, p, b, [Hi(c), Lo(c)]);
    assert b + [Hi(c), Lo(c)] == built + DamField(data);
  }

  method PutGap(mem: array<bv8>, p: nat, q0: nat, b: bv8, n: nat, ghost was: seq<bv8>, ghost built: seq<bv8>)
      returns (q: nat)
    requires Built(was, mem[..], p, built) && q0 == p + |built| && q0 + n <= mem.Length
    modifies mem
    ensures q == q0 + n && Built(was, mem[..], p, built + Fill(b, n))
  {
    hide Stored, Built;
    Length(was, mem[..], p, built);
    q := Memset(mem, q0, b, n);
    BuiltMore(was, old(mem[..]), p, built, Fill(b, n));
  }

  // ----- fixing the sync words

  /** The marks of three words from each offset. */
  function OffMarks(offs: seq<nat>): set<nat>
    decreases |offs|
  {
    if offs == [] then {}
    else OffMarks(offs[..|offs| - 1]) + {offs[|offs| - 1], offs[|offs| - 1] + 1, offs[|offs| - 1] + 2}
  }

  const SYNC_BYTES: seq<bv8> := [0x44, 0x89, 0x44, 0x89, 0x44, 0x89]

  lemma PatchThree(e: seq<bv8>, marks: set<nat>, o: nat)
    requires 2 * o + 6 <= |e|
    ensures Stored(Patch(e, marks), 2 * o, SYNC_BYTES) == Patch(e, marks + {o, o + 1, o + 2})
  {
    var a, b := Stored(Patch(e, marks), 2 * o, SYNC_BYTES), Patch(e, marks + {o, o + 1, o + 2});
    forall k | 0 <= k < |e|
      ensures a[k] == b[k]
    {
      if 2 * o <= k < 2 * o + 6 {
        var j := k - 2 * o;
        assert a[k] == SYNC_BYTES[j];
        assert k / 2 == o + j / 2 && k % 2 == j % 2;
      }
    }
  }

  lemma PatchNone(e: seq<bv8>)
    ensures Patch(e, {}) == e
  {}

  lemma StoredInside(was: seq<bv8>, p: nat, part: seq<bv8>, k: nat, s: seq<bv8>)
    requires p + |part| <= |was| && k + |s| <= |part|
    ensures Stored(Stored(was, p, part), p + k, s) == Stored(was, p, Stored(part, k, s))
  {}

  /** Overwrites three words with 0x4489 at each recorded offset. */
  method FixSyncs(mem: array<bv8>, p: nat, offs: seq<nat>, ghost was: seq<bv8>, ghost e: seq<bv8>)
    requires Built(was, mem[..], p, e)
    requires forall i :: 0 <= i < |offs| ==> 2 * offs[i] + 6 <= |e|
    modifies mem
    ensures Built(was, mem[..], p, Patch(e, OffMarks(offs)))
  {
    hide Stored, Patch;
    PatchNone(e);
    assert offs[..0] == [];
    for i := 0 to |offs|
      invariant Built(was, mem[..], p, Patch(e, OffMarks(offs[..i])))
    {
      Length(was, mem[..], p, Patch(e, OffMarks(offs[..i])));
      StoredInside(was, p, Patch(e, OffMarks(offs[..i])), 2 * offs[i], SYNC_BYTES);
      PatchThree(e, OffMarks(offs[..i]), offs[i]);
      assert offs[..i + 1][..i] == offs[..i];
      var q := CopyIn(mem, p + 2 * offs[i], SYNC_BYTES);
    }
    assert offs[..|offs|] == offs;
  }

  /** Memory that holds d at p, and is as it was before p and beyond the room d takes once encoded. */
  ghost predicate Ready(was: seq<bv8>, now: seq<bv8>, p: nat, d: seq<bv8>) {
    && 1 <= p && p + 2 * |d| <= |now| == |was|
    && now[p..p + |d|] == d && now[..p] == was[..p] && now[p + 2 * |d|..] == was[p + 2 * |d|..]
  }

  /** Encodes the built bytes where they lie. */
  method EncodeBuilt(mem: array<bv8>, p: nat, n: nat, ghost was: seq<bv8>, ghost data: seq<bv8>)
    requires n == |data| && Ready(was, mem[..], p, data)
    modifies mem
    ensures Built(was, mem[..], p, Encode(was[p - 1], data))
  {
    hide Encode;
    assert mem[p - 1] == mem[..][..p][p - 1] == was[p - 1];
    assert mem[p..p + n] == mem[..][p..p + n] && mem[..p] == mem[..][..p] && mem[p + 2 * n..] == mem[..][p + 2 * n..];
    BinToMfm(mem, p, n);
    assert mem[..] == mem[..p] + mem[p..p + 2 * n] + mem[p + 2 * n..];
  }

  /** Encodes them and checks the clocks of all words but the first. */
  method EncodeChecked(mem: array<bv8>, p: nat, n: nat, ghost was: seq<bv8>, ghost data: seq<bv8>) returns (bad: seq<bool>)
    requires 0 < n == |data| && Ready(was, mem[..], p, data)
    requires var e := Encode(was[p - 1], data);
             forall i: nat :: i + 1 < n ==> Checks(e[2..], e[0], i)
    modifies mem
    ensures Built(was, mem[..], p, Encode(was[p - 1], data))
    ensures |bad| == n - 1 && forall i :: 0 <= i < |bad| ==> !bad[i]
  {
    hide Encode, Checks, Built;
    EncodeBuilt(mem, p, n, was, data);
    ghost var e := Encode(was[p - 1], data);
    EncodedSlice(was, mem[..], p, e);
    assert mem[p + 2..p + 2 * n] == mem[..][p + 2..p + 2 * n];
    bad := MfmCheck(mem, p + 2, n - 1);
  }

  // ----- writing a track

  lemma {:induction false} OneMoreSector(ids: seq<Idam>, id: Idam, gap3: nat)
    ensures Sectors(ids + [id], gap3) == Sectors(ids, gap3) + Sector(id, gap3)
    ensures TotalLength(ids + [id], gap3) == TotalLength(ids, gap3) + SectorLength(id, gap3)
    decreases |ids|
  {
    hide Sector, SectorLength;
    var all := ids + [id];
    if ids == [] {
      assert all[0] == id && all[1..] == [];
    } else {
      assert all[0] == ids[0] && all[1..] == ids[1..] + [id];
      OneMoreSector(ids[1..], id, gap3);
    }
  }

  lemma {:induction false} OneMoreMark(ids: seq<Idam>, id: Idam, gap3: nat, b: nat)
    ensures MarkSet(ids + [id], gap3, b) == MarkSet(ids, gap3, b) + SixMarks(b + |Sectors(ids, gap3)|)
    decreases |ids|
  {
    hide Sector, SectorLength, SixMarks;
    var all := ids + [id];
    if ids == [] {
      assert all[0] == id && all[1..] == [];
    } else {
      var l := SectorLength(ids[0], gap3);
      assert all[0] == ids[0] && all[1..] == ids[1..] + [id];
      OneMoreMark(ids[1..], id, gap3, b + l);
      assert b + |Sectors(ids, gap3)| == b + l + |Sectors(ids[1..], gap3)|;
    }
  }

  lemma SectorsUpTo(ids: seq<Idam>, gap3: nat, b: nat, i: nat)
    requires i < |ids|
    ensures Sectors(ids[..i + 1], gap3) == Sectors(ids[..i], gap3) + Sector(ids[i], gap3)
    ensures TotalLength(ids[..i + 1], gap3) == TotalLength(ids[..i], gap3) + SectorLength(ids[i], gap3)
    ensures MarkSet(ids[..i + 1], gap3, b) == MarkSet(ids[..i], gap3, b) + SixMarks(b + |Sectors(ids[..i], gap3)|)
  {
    hide Sector, SectorLength, Sectors, TotalLength, MarkSet, SixMarks;
    assert ids[..i + 1] == ids[..i] + [ids[i]];
    OneMoreSector(ids[..i], ids[i], gap3);
    OneMoreMark(ids[..i], ids[i], gap3, b);
  }

  /** The length computed before the buffer is allocated. */
  method TrackBytes(ids: seq<Idam>, gap3: nat) returns (trackBytes: nat)
    ensures trackBytes == 128 + TotalLength(ids, gap3) + (128 + TotalLength(ids, gap3)) % 2
    ensures forall pad :: trackBytes == |PaddedTrack(ids, gap3, pad)|
  {
    hide TotalLength, Sectors, MarkSet, Sector, PaddedTrack, Track;
    var idamBytes := GAP_SYNC + 8 + 2 + GAP2;
    var damBytes := GAP_SYNC + 4 + 2 + gap3;
    trackBytes := 64;
    NoSectors(gap3);
    assert ids[..0] == [];
    for i := 0 to |ids|
      invariant trackBytes == 64 + TotalLength(ids[..i], gap3)
    {
      SectorsUpTo(ids, gap3, 64, i);
      trackBytes := trackBytes + idamBytes;
      trackBytes := trackBytes + damBytes;
      trackBytes := trackBytes + SecBytes(ids[i].n);
    }
    assert ids[..|ids|] == ids;
    trackBytes := trackBytes + 64;
    if trackBytes % 2 == 1 {
      trackBytes := trackBytes + 1;
    }
    TrackLength(ids, gap3);
    forall pad: bv8
      ensures trackBytes == |PaddedTrack(ids, gap3, pad)|
    {
      PaddedLength(ids, gap3, pad);
    }
  }

  lemma NoSectors(gap3: nat)
    ensures TotalLength([], gap3) == 0 && Sectors([], gap3) == [] && MarkSet([], gap3, 64) == {} && OffMarks([]) == {}
  {}

  lemma TrackLength(ids: seq<Idam>, gap3: nat)
    ensures |Track(ids, gap3)| == 128 + TotalLength(ids, gap3)
  {
    SectorsLength(ids, gap3);
  }

  lemma {:induction false} TotalMonotone(ids: seq<Idam>, gap3: nat, i: nat)
    requires i <= |ids|
    ensures TotalLength(ids[..i], gap3) <= TotalLength(ids, gap3)
    decreases |ids| - i
  {
    if i == |ids| {
      assert ids[..i] == ids;
    } else {
      SectorsUpTo(ids, gap3, 64, i);
      TotalMonotone(ids, gap3, i + 1);
    }
  }

  lemma SectorPieces(head: seq<bv8>, id: Idam, gap3: nat)
    ensures head + Fill(0x00, GAP_SYNC) + IdamField(id) + Fill(0x4e, GAP2)
            + Fill(0x00, GAP_SYNC) + DamField(Fill(0xe2, SecBytes(id.n))) + Fill(0x4e, gap3)
         == head + Sector(id, gap3)
  {
    hide IdamField, DamField, Fill, SecBytes;
  }

  /** One sector of a track, with the offsets of its two sync marks. */
  method PutSector(mem: array<bv8>, p: nat, q0: nat, id: Idam, gap3: nat, ghost was: seq<bv8>, ghost built: seq<bv8>)
      returns (q: nat, idamOff: nat, damOff: nat)
    requires Built(was, mem[..], p, built) && q0 == p + |built| && q0 + SectorLength(id, gap3) <= mem.Length
    modifies mem
    ensures q == q0 + SectorLength(id, gap3) && Built(was, mem[..], p, built + Sector(id, gap3))
    ensures idamOff == |built| + 12 && damOff == |built| + 56
  {
    hide Built, IdamField, DamField, Fill, SecBytes, Sector;
    ghost var b := built;
    q := PutGap(mem, p, q0, 0x00, GAP_SYNC, was, b);
    b := b + Fill(0x00, GAP_SYNC);
    idamOff := q - p;
    q := PutIdam(mem, p, q, id, was, b);
    b := b + IdamField(id);
    q := PutGap(mem, p, q, 0x4e, GAP2, was, b);
    b := b + Fill(0x4e, GAP2);
    q := PutGap(mem, p, q, 0x00, GAP_SYNC, was, b);
    b := b + Fill(0x00, GAP_SYNC);
    damOff := q - p;
    q := PutDam(mem, p, q, Fill(0xe2, SecBytes(id.n)), was, b);
    b := b + DamField(Fill(0xe2, SecBytes(id.n)));
    q := PutGap(mem, p, q, 0x4e, gap3, was, b);
    SectorPieces(built, id, gap3);
  }

  lemma TwoOffsets(offs: seq<nat>, s: nat, marks: set<nat>)
    requires OffMarks(offs) == marks
    ensures OffMarks(offs + [s + 12, s + 56]) == marks + SixMarks(s)
  {
    var a, b := offs + [s + 12], offs + [s + 12, s + 56];
    assert b[..|b| - 1] == a && a[..|a| - 1] == offs;
  }

  /** Gaps and sectors of a whole track, and the offsets of its sync marks. */
  method PutTrack(mem: array<bv8>, p: nat, ids: seq<Idam>, gap3: nat) returns (q: nat, syncOff: seq<nat>)
    requires p + |Track(ids, gap3)| <= mem.Length
    modifies mem
    ensures q == p + |Track(ids, gap3)| && Built(old(mem[..]), mem[..], p, Track(ids, gap3))
    ensures OffMarks(syncOff) == TrackMarks(ids, gap3)
    ensures forall i :: 0 <= i < |syncOff| ==> syncOff[i] + 3 <= |Track(ids, gap3)|
  {
    hide Built, Fill, Sectors, Sector, MarkSet, SecBytes, OffMarks, TotalLength;
    ghost var was := mem[..];
    BuiltNothing(was, p);
    TrackLength(ids, gap3);
    NoSectors(gap3);
    syncOff := [];
    q := PutGap(mem, p, p, 0x4e, 64, was, []);
    ghost var built := Fill(0x4e, 64);
    assert [] + built == built && ids[..0] == [] && built + Sectors([], gap3) == built;
    for i := 0 to |ids|
      invariant built == Fill(0x4e, 64) + Sectors(ids[..i], gap3) && |built| == 64 + TotalLength(ids[..i], gap3)
      invariant q == p + |built| && Built(was, mem[..], p, built) && |was| == mem.Length
      invariant OffMarks(syncOff) == MarkSet(ids[..i], gap3, 64)
      invariant forall k :: 0 <= k < |syncOff| ==> syncOff[k] + 3 <= |built|
    {
      SectorsUpTo(ids, gap3, 64, i);
      TotalMonotone(ids, gap3, i + 1);
      var idamOff, damOff;
      q, idamOff, damOff := PutSector(mem, p, q, ids[i], gap3, was, built);
      TwoOffsets(syncOff, |built|, OffMarks(syncOff));
      syncOff := syncOff + [idamOff, damOff];
      built := built + Sector(ids[i], gap3);
      assert built == Fill(0x4e, 64) + Sectors(ids[..i + 1], gap3);
    }
    assert ids[..|ids|] == ids;
    q := PutGap(mem, p, q, 0x4e, 64, was, built);
  }

  lemma PaddedInPlace(was: seq<bv8>, now: seq<bv8>, p: nat, ids: seq<Idam>, gap3: nat)
    requires Built(was, now, p, Track(ids, gap3)) && 1 <= p && p + 2 * |Track(ids, gap3)| + 2 <= |was|
    ensures Ready(was, now, p, PaddedTrack(ids, gap3, was[p + |Track(ids, gap3)|]))
  {
    hide Track;
    var t := |Track(ids, gap3)|;
    assert now[p..p + t] == Track(ids, gap3) && now[p + t] == was[p + t];
    var n := |PaddedTrack(ids, gap3, was[p + t])|;
    assert now[p + 2 * n..] == now[p + t..][2 * n - t..] && was[p + 2 * n..] == was[p + t..][2 * n - t..];
  }

  lemma TrackStarts(ids: seq<Idam>, gap3: nat, pad: bv8)
    ensures var d := PaddedTrack(ids, gap3, pad);
            |d| >= 128 && d[0] == 0x4e && d[1] == 0x4e
  {}

  lemma GapByteChecks()
    ensures Bit(0x4e, 3) == Bit(0x4e, 7)
  {}

  /** The clock check made before the sync words are fixed never complains. */
  lemma TrackPassesCheck(before: bv8, ids: seq<Idam>, gap3: nat, pad: bv8)
    ensures var d := PaddedTrack(ids, gap3, pad);
            var e := Encode(before, d);
            forall i: nat :: i + 1 < |d| ==> Checks(e[2..], e[0], i)
  {
    hide Encode, Checks, Bit, PaddedTrack;
    var d := PaddedTrack(ids, gap3, pad);
    TrackStarts(ids, gap3, pad);
    GapByteChecks();
    forall i: nat | i + 1 < |d|
      ensures Checks(Encode(before, d)[2..], Encode(before, d)[0], i)
    {
      CheckAfterEncode(before, d, i);
    }
  }

  /** The track's bytes, encoded where they lie and checked: every part of the job but the sync words. */
  method EncodeTrack(mem: array<bv8>, p: nat, ids: seq<Idam>, gap3: nat)
      returns (trackBytes: nat, syncOff: seq<nat>, bad: seq<bool>)
    requires 1 <= p && p + 2 * (129 + TotalLength(ids, gap3)) <= mem.Length
    modifies mem
    ensures trackBytes <= 129 + TotalLength(ids, gap3)
    ensures var data := PaddedTrack(ids, gap3, old(mem[p + 128 + TotalLength(ids, gap3)]));
            trackBytes == |data| && Built(old(mem[..]), mem[..], p, Encode(old(mem[p - 1]), data))
    ensures OffMarks(syncOff) == TrackMarks(ids, gap3)
    ensures forall i :: 0 <= i < |syncOff| ==> syncOff[i] + 3 <= trackBytes
    ensures |bad| == trackBytes - 1 && forall i :: 0 <= i < |bad| ==> !bad[i]
  {
    hide Stored, Fill, Sectors, MarkSet, SecBytes, OffMarks, TotalLength, Encode, Track, Checks, Built, Ready, PaddedTrack;
    TrackLength(ids, gap3);
    ghost var was := mem[..];
    ghost var pad := was[p + 128 + TotalLength(ids, gap3)];
    ghost var data := PaddedTrack(ids, gap3, pad);
    trackBytes := TrackBytes(ids, gap3);
    var q;
    q, syncOff := PutTrack(mem, p, ids, gap3);
    PaddedInPlace(was, mem[..], p, ids, gap3);
    PaddedLength(ids, gap3, pad);
    TrackPassesCheck(was[p - 1], ids, gap3, pad);
    TrackStarts(ids, gap3, pad);
    bad := EncodeChecked(mem, p, trackBytes, was, data);
  }

  lemma PaddedLength(ids: seq<Idam>, gap3: nat, pad: bv8)
    ensures |PaddedTrack(ids, gap3, pad)| == |Track(ids, gap3)| + |Track(ids, gap3)| % 2
  {
    hide Track;
  }

  lemma BuiltEnds(was: seq<bv8>, now: seq<bv8>, p: nat, d: seq<bv8>)
    requires Built(was, now, p, d) && p + 2 * |d| <= |was|
    ensures 1 <= p ==> Ready(was, now, p, d)
  {
    assert now[p + 2 * |d|..] == now[p + |d|..][|d|..] && was[p + 2 * |d|..] == was[p + |d|..][|d|..];
  }

  lemma EncodedSlice(was: seq<bv8>, now: seq<bv8>, p: nat, e: seq<bv8>)
    requires Built(was, now, p, e) && |e| >= 2
    ensures now[p..p + |e|] == e && now[p + 2..p + |e|] == e[2..] && now[p] == e[0]
    ensures now[..p] == was[..p] && now[p + |e|..] == was[p + |e|..]
  {}

  /** Formats a track in the buffer at p: gaps and sectors laid out, encoded in place, checked, and the sync
      words fixed. A track of odd length is padded by whatever byte the buffer holds there. */
  method WriteTrack(mem: array<bv8>, p: nat, ids: seq<Idam>, gap3: nat) returns (trackBytes: nat)
    requires 1 <= p && p + 2 * (129 + TotalLength(ids, gap3)) <= mem.Length
    modifies mem
    ensures trackBytes <= 129 + TotalLength(ids, gap3)
    ensures var pad := old(mem[p + 128 + TotalLength(ids, gap3)]);
            && trackBytes == |PaddedTrack(ids, gap3, pad)|
            && mem[p..p + 2 * trackBytes]
               == MarkedBytes(old(mem[p - 1]), PaddedTrack(ids, gap3, pad), TrackMarks(ids, gap3))
    ensures mem[..p] == old(mem[..p]) && mem[p + 2 * trackBytes..] == old(mem[p + 2 * trackBytes..])
  {
    hide Stored, MarkSet, OffMarks, TotalLength, Encode, Patch, PaddedTrack;
    ghost var was := mem[..];
    ghost var data := PaddedTrack(ids, gap3, was[p + 128 + TotalLength(ids, gap3)]);
    var syncOff, bad;
    trackBytes, syncOff, bad := EncodeTrack(mem, p, ids, gap3);
    ghost var e := Encode(was[p - 1], data);
    FixSyncs(mem, p, syncOff, was, e);
    TrackStarts(ids, gap3, was[p + 128 + TotalLength(ids, gap3)]);
    EncodedSlice(was, mem[..], p, Patch(e, OffMarks(syncOff)));
  }

  // ----- one sector

  /** A data field as it is written: pre-sync gap, field, and a gap that makes the length even. */
  function SectorWrite(buf: seq<bv8>, gap3: nat): (r: seq<bv8>)
    ensures |r| % 2 == 0
  {
    Fill(0x00, GAP_SYNC) + DamField(buf) + Fill(0x4e, gap3 + (18 + |buf| + gap3) % 2)
  }

  const SECTOR_MARKS: set<nat> := {12, 13, 14}

  /** The cells of a data field as they are written. */
  function SectorCells(before: bv8, buf: seq<bv8>, gap3: nat): seq<bool> {
    MarkedCellStream(before, SectorWrite(buf, gap3), SECTOR_MARKS)
  }

  lemma SectorWriteParts(buf: seq<bv8>, gap3: nat)
    ensures var d := SectorWrite(buf, gap3);
            && 18 + |buf| <= |d| && MarksOn(d, SECTOR_MARKS)
            && d[12..18 + |buf|] == DamField(buf)
            && d[0] == 0x00 && d[1] == 0x00
  {
    hide CrcOf, Hi, Lo;
    var d := SectorWrite(buf, gap3);
    var f := d[12..18 + |buf|];
    assert f == DamField(buf);
    assert f[0] == d[12] && f[1] == d[13] && f[2] == d[14];
  }

  /** What each byte of a data field is as it is written. */
  lemma SectorWriteLayout(buf: seq<bv8>, gap3: nat, i: nat)
    requires i < |SectorWrite(buf, gap3)|
    ensures var s := SectorWrite(buf, gap3);
            && |s| == 18 + |buf| + gap3 + (18 + |buf| + gap3) % 2
            && (i < 12 ==> s[i] == 0x00) && (12 <= i < 15 ==> s[i] == 0xa1) && s[15] == 0xfb
            && (16 <= i < 16 + |buf| ==> s[i] == buf[i - 16]) && (18 + |buf| <= i ==> s[i] == 0x4e)
            && CrcOf(s[12..18 + |buf|], 0xffff) == 0
  {
    hide CrcOf;
    SectorWriteParts(buf, gap3);
    DamAccepted(buf);
  }

  lemma ZeroByteChecks()
    ensures Bit(0x00, 3) == Bit(0x00, 7)
  {}

  lemma SectorPassesCheck(before: bv8, buf: seq<bv8>, gap3: nat)
    ensures var d := SectorWrite(buf, gap3);
            var e := Encode(before, d);
            forall i: nat :: i + 1 < |d| ==> Checks(e[2..], e[0], i)
  {
    hide Encode, Checks, SectorWrite, DamField, MarksOn, Bit;
    var d := SectorWrite(buf, gap3);
    SectorWriteParts(buf, gap3);
    ZeroByteChecks();
    forall i: nat | i + 1 < |d|
      ensures Checks(Encode(before, d)[2..], Encode(before, d)[0], i)
    {
      CheckAfterEncode(before, d, i);
    }
  }

  /** The bytes of a data field as it is written. */
  method LayOutSector(mem: array<bv8>, p: nat, buf: seq<bv8>, id: Idam, gap3: nat) returns (damBytes: nat)
    requires |buf| == SecBytes(id.n) && p + 19 + |buf| + gap3 <= mem.Length
    modifies mem
    ensures damBytes == |SectorWrite(buf, gap3)| <= 19 + |buf| + gap3
    ensures Built(old(mem[..]), mem[..], p, SectorWrite(buf, gap3))
  {
    hide Stored, Fill, DamField, Built, SecBytes;
    ghost var was := mem[..];
    damBytes := GAP_SYNC + 4 + SecBytes(id.n) + 2 + gap3;
    var gap := gap3;
    if damBytes % 2 == 1 {
      damBytes := damBytes + 1;
      gap := gap + 1;
    }
    BuiltNothing(was, p);
    var q := PutGap(mem, p, p, 0x00, GAP_SYNC, was, []);
    assert [] + Fill(0x00, GAP_SYNC) == Fill(0x00, GAP_SYNC);
    q := PutDam(mem, p, q, buf, was, Fill(0x00, GAP_SYNC));
    q := PutGap(mem, p, q, 0x4e, gap, was, Fill(0x00, GAP_SYNC) + DamField(buf));
  }

  /** Builds the cells of a data field for writing, with its clock check. */
  method BuildSector(mem: array<bv8>, p: nat, buf: seq<bv8>, id: Idam, gap3: nat) returns (damBytes: nat, bad: seq<bool>)
    requires |buf| == SecBytes(id.n) && 1 <= p && p + 2 * (19 + |buf| + gap3) <= mem.Length
    modifies mem
    ensures damBytes == |SectorWrite(buf, gap3)| <= 19 + |buf| + gap3
    ensures mem[p..p + 2 * damBytes] == MarkedBytes(old(mem[p - 1]), SectorWrite(buf, gap3), SECTOR_MARKS)
    ensures mem[..p] == old(mem[..p]) && mem[p + 2 * damBytes..] == old(mem[p + 2 * damBytes..])
    ensures |bad| == damBytes - 1 && forall i :: 0 <= i < |bad| ==> !bad[i]
  {
    hide Stored, Encode, Patch, Checks, Built, Ready, SectorWrite, OffMarks, MarksOn, Bit;
    ghost var was, data := mem[..], SectorWrite(buf, gap3);
    SectorWriteParts(buf, gap3);
    damBytes := LayOutSector(mem, p, buf, id, gap3);
    BuiltEnds(was, mem[..], p, data);
    SectorPassesCheck(was[p - 1], buf, gap3);
    bad := EncodeChecked(mem, p, damBytes, was, data);
    ghost var e := Encode(was[p - 1], data);
    OneMark(12);
    FixSyncs(mem, p, [12], was, e);
    EncodedSlice(was, mem[..], p, Patch(e, SECTOR_MARKS));
  }

  lemma OneMark(o: nat)
    ensures OffMarks([o]) == {o, o + 1, o + 2}
  {
    assert [o][..0] == [];
  }

  /** The memory of a finished read of a data field: sync words and all. */
  function FieldWords(before: bv8, buf: seq<bv8>, gap3: nat): (r: seq<bv8>)
    ensures |r| == 2 * (6 + |buf|)
  {
    MarkedBytes(before, SectorWrite(buf, gap3), SECTOR_MARKS)[24..2 * (18 + |buf|)]
  }

  /** The clock check of a field that starts with three sync words, from behind them on. */
  method CheckField(mem: array<bv8>, p: nat, size: nat) returns (bad: seq<bool>)
    requires p + 2 * (6 + size) <= mem.Length
    ensures |bad| == size + 3
    ensures var s := mem[p..p + 2 * (6 + size)];
            forall i: nat :: i < |bad| ==> bad[i] == !Checks(s[6..], s[4], i)
  {
    hide Checks;
    Tail6(mem[..], p, 2 * (6 + size));
    assert mem[..][p..p + 2 * (6 + size)] == mem[p..p + 2 * (6 + size)];
    assert mem[..][p + 6..p + 2 * (6 + size)] == mem[p + 6..p + 6 + 2 * (size + 3)];
    bad := MfmCheck(mem, p + 6, size + 3);
  }

  /** What a reader makes of the words s of a data field of so many bytes. */
  ghost predicate Judged(s: seq<bv8>, size: nat, buf: seq<bv8>, bad: seq<bool>, goodMark: bool, crc: bv16)
    requires |s| == 2 * (6 + size)
  {
    var d := Decode(s);
    && buf == d[4..4 + size]
    && (goodMark <==> d[..4] == DAM_MARK)
    && crc == CrcOf(d, 0xffff)
    && |bad| == size + 3
    && forall i: nat :: i < |bad| ==> bad[i] == !Checks(s[6..], s[4], i)
  }

  /** Checks and decodes the data field of a sector in place and copies out its data. */
  method FinishRead(mem: array<bv8>, p: nat, id: Idam) returns (buf: seq<bv8>, bad: seq<bool>, goodMark: bool, crc: bv16)
    requires p + 2 * (6 + SecBytes(id.n)) <= mem.Length
    modifies mem
    ensures Judged(old(mem[p..p + 2 * (6 + SecBytes(id.n))]), SecBytes(id.n), buf, bad, goodMark, crc)
    ensures mem[..p] == old(mem[..p])
    ensures mem[p + 2 * (6 + SecBytes(id.n))..] == old(mem[p + 2 * (6 + SecBytes(id.n))..])
  {
    hide Judged, SecBytes;
    buf, bad, goodMark, crc := FinishField(mem, p, SecBytes(id.n));
  }

  method FinishField(mem: array<bv8>, p: nat, size: nat) returns (buf: seq<bv8>, bad: seq<bool>, goodMark: bool, crc: bv16)
    requires p + 2 * (6 + size) <= mem.Length
    modifies mem
    ensures Judged(old(mem[p..p + 2 * (6 + size)]), size, buf, bad, goodMark, crc)
    ensures mem[..p] == old(mem[..p]) && mem[p + 2 * (6 + size)..] == old(mem[p + 2 * (6 + size)..])
  {
    hide Decode, Checks, CrcOf;
    ghost var now, s := mem[..], mem[p..p + 2 * (6 + size)];
    bad := CheckField(mem, p, size);
    MfmToBin(mem, p, 6 + size);
    ghost var d := mem[p..p + 6 + size];
    assert d == Decode(s);
    SameBehind(mem[..], now, p + 6 + size, p + 2 * (6 + size));
    MarkIs(d);
    goodMark := mem[p] == 0xa1 && mem[p + 1] == 0xa1 && mem[p + 2] == 0xa1 && mem[p + 3] == 0xfb;
    crc := Crc16Ccitt(mem, p, 6 + size, 0xffff);
    buf := mem[p + 4..p + 4 + size];
    Part(mem[..], p, 6 + size, 4, size);
    assert mem[..][p..p + 6 + size] == d && mem[..][p + 4..p + 4 + size] == buf;
  }

  lemma SameBehind(a: seq<bv8>, b: seq<bv8>, lo: nat, hi: nat)
    requires lo <= hi <= |a| == |b| && a[lo..] == b[lo..]
    ensures a[hi..] == b[hi..]
  {
    assert a[hi..] == a[lo..][hi - lo..] && b[hi..] == b[lo..][hi - lo..];
  }

  lemma Part(m: seq<bv8>, p: nat, n: nat, k: nat, len: nat)
    requires p + n <= |m| && k + len <= n
    ensures m[p..p + n][k..k + len] == m[p + k..p + k + len]
  {
    var a, b := m[p..p + n][k..k + len], m[p + k..p + k + len];
    forall j | 0 <= j < len
      ensures a[j] == b[j]
    {
      assert a[j] == m[p..p + n][k + j];
    }
  }

  lemma Tail6(m: seq<bv8>, p: nat, n: nat)
    requires 6 <= n && p + n <= |m|
    ensures m[p + 6..p + n] == m[p..p + n][6..] && m[p + 4] == m[p..p + n][4]
  {}

  lemma MarkIs(d: seq<bv8>)
    requires |d| >= 4
    ensures d[..4] == DAM_MARK <==> d[0] == 0xa1 && d[1] == 0xa1 && d[2] == 0xa1 && d[3] == 0xfb
  {
    assert d[..4] == [d[0], d[1], d[2], d[3]];
  }

  lemma FieldDecodes(before: bv8, buf: seq<bv8>, gap3: nat)
    ensures var s := FieldWords(before, buf, gap3);
            Decode(s) == DamField(buf)
  {
    hide SectorWrite, MarkedBytes, Decode, DamField;
    var d := SectorWrite(buf, gap3);
    SectorWriteParts(buf, gap3);
    DecodeMarked(before, d, SECTOR_MARKS);
    EndToEnd.DecodeSlice(MarkedBytes(before, d, SECTOR_MARKS), 12, 6 + |buf|);
  }

  /** The clock check made on a freshly read field, which starts after the sync words, does not complain. */
  lemma FieldPassesCheck(before: bv8, buf: seq<bv8>, gap3: nat, i: nat)
    requires i < |buf| + 3
    ensures var s := FieldWords(before, buf, gap3);
            Checks(s[6..], s[4], i)
  {
    hide FieldWords, Checks, BitsOf, Bit, FieldClock, ClockRule;
    var s := FieldWords(before, buf, gap3);
    ChecksIsClockRule(s[6..], s[4], i);
    forall j: nat | j < 8
      ensures FieldClock(BitsOf(s[6..]), Bit(s[4], 7), i, j)
    {
      FieldClockHolds(before, buf, gap3, i, j);
    }
    FieldClocks(BitsOf(s[6..]), Bit(s[4], 7), i);
  }

  /** Clock j of word i of a field's cells obeys the clock rule, given the data cell before the field. */
  predicate FieldClock(t: seq<bool>, raw: bool, i: nat, j: nat) {
    && 16 * i + 2 * j + 1 < |t|
    && t[16 * i + 2 * j] == (!t[16 * i + 2 * j + 1] && !(if i == 0 && j == 0 then raw else t[16 * i + 2 * j - 1]))
  }

  lemma FieldClocks(t: seq<bool>, raw: bool, i: nat)
    requires 16 * i + 16 <= |t| && forall j: nat :: j < 8 ==> FieldClock(t, raw, i, j)
    ensures ClockRule(t, raw, i)
  {
    forall j: nat | j < 8
      ensures t[16 * i + 2 * j] == (!t[16 * i + 2 * j + 1] && !(if i == 0 && j == 0 then raw else t[16 * i + 2 * j - 1]))
    {
      assert FieldClock(t, raw, i, j);
    }
  }

  lemma FieldClockHolds(before: bv8, buf: seq<bv8>, gap3: nat, i: nat, j: nat)
    requires i < |buf| + 3 && j < 8
    ensures var s := FieldWords(before, buf, gap3);
            FieldClock(BitsOf(s[6..]), Bit(s[4], 7), i, j)
  {
    hide SectorWrite, Checks, DamField, MarkedBytes, Lawful, BitsOf, Bit;
    var d := SectorWrite(buf, gap3);
    var m, c := MarkedBytes(before, d, SECTOR_MARKS), MarkedCellStream(before, d, SECTOR_MARKS);
    SectorWriteParts(buf, gap3);
    MarkedIsLawful(before, d, SECTOR_MARKS);
    FieldTail(m, buf);
    FieldLead(before, buf, gap3);
    ClockInField(c, i, j);
    var t, k := BitsOf(FieldWords(before, buf, gap3)[6..]), 240 + 16 * i + 2 * j;
    assert t[16 * i + 2 * j] == c[k] && t[16 * i + 2 * j + 1] == c[k + 1];
    if !(i == 0 && j == 0) { assert t[16 * i + 2 * j - 1] == c[k - 1]; }
  }

  lemma FieldTail(m: seq<bv8>, buf: seq<bv8>)
    requires |m| >= 2 * (18 + |buf|)
    ensures m[24..2 * (18 + |buf|)][6..] == m[30..2 * (18 + |buf|)]
    ensures BitsOf(m[30..2 * (18 + |buf|)]) == BitsOf(m)[240..16 * (18 + |buf|)]
  {
    hide BitsOf;
    BitsOfSlice(m, 30, 2 * (18 + |buf|));
  }

  /** The byte the first comparison looks at is the first of the last sync word, and the field's own first
      cells are those of its address mark. */
  lemma FieldLead(before: bv8, buf: seq<bv8>, gap3: nat)
    ensures var c := MarkedCellStream(before, SectorWrite(buf, gap3), SECTOR_MARKS);
            |c| >= 16 * (18 + |buf|) && !c[240] && c[241]
    ensures var s := FieldWords(before, buf, gap3);
            !Bit(s[4], 7)
  {
    hide SectorWrite, DamField, Encode, BitsOf;
    var d := SectorWrite(buf, gap3);
    SectorWriteParts(buf, gap3);
    FieldDecodes(before, buf, gap3);
    var s, b := FieldWords(before, buf, gap3), MarkedBytes(before, d, SECTOR_MARKS);
    assert s[4] == b[28] == 0x44;
    MarkByte(buf);
    assert d[15] == d[12..18 + |buf|][3] == 0xfb;
    PatchedCell(before, d, SECTOR_MARKS, 240);
    PatchedCell(before, d, SECTOR_MARKS, 241);
    EncodeDataCell(before, d, 15, 0);
    EncodeClockCell(before, d, 15, 0);
    BitAt(d, 15, 0);
  }

  lemma MarkByte(buf: seq<bv8>)
    ensures DamField(buf)[3] == 0xfb
  {}

  lemma ClockInField(c: seq<bool>, i: nat, j: nat)
    requires Lawful(c, SECTOR_MARKS) && 16 * (15 + i) + 16 <= |c| && j < 8
    ensures var k := 240 + 16 * i + 2 * j;
            c[k] == (!c[k + 1] && !c[k - 1])
  {
    var k := 240 + 16 * i + 2 * j;
    assert !Dropped(k, SECTOR_MARKS);
    assert ClockOk(c, k);
  }

  /** No word of a field after its sync words fails the clock check made when it has been read. */
  predicate FieldChecks(s: seq<bv8>)
    requires |s| % 2 == 0 && |s| >= 12
  {
    forall i: nat :: i < |s| / 2 - 3 ==> Checks(s[6..], s[4], i)
  }

  /** What finishing a read of a written data field finds: no clock error, the right mark, residue zero, and
      the very bytes that were written. */
  lemma FieldReadsBack(before: bv8, buf: seq<bv8>, gap3: nat)
    ensures var s := FieldWords(before, buf, gap3);
            && Decode(s)[..4] == DAM_MARK && CrcOf(Decode(s), 0xffff) == 0
            && Decode(s)[4..4 + |buf|] == buf
            && FieldChecks(s)
  {
    hide FieldWords, CrcOf, Decode, Checks;
    FieldDecodes(before, buf, gap3);
    CrcTheory.Residue(DAM_MARK + buf, 0xffff);
    forall i: nat | i < |buf| + 3
      ensures Checks(FieldWords(before, buf, gap3)[6..], FieldWords(before, buf, gap3)[4], i)
    {
      FieldPassesCheck(before, buf, gap3, i);
    }
  }
}
