/** Amiga track writing and reading, in place in buffers of raw longs. */
module Amiga {
  import opened Longs
  import opened AmigaFormat
  import opened AmigaDecode

  /** The emitter: the buffer, the write position and the last value emitted. */
  class TrackWriter {
    const p: array<Long>
    var q: nat
    var pr: Long
    ghost var items: seq<Item>

    ghost predicate Valid()
      reads this, p
    {
      && q == |items| <= p.Length
      && pr == Before(items, q)
      && forall i: nat :: i < q ==> p[i] == Rev(OnDisk(items, i))
    }

    constructor (p: array<Long>)
      ensures Valid() && this.p == p && items == []
    {
      this.p := p;
      q, pr, items := 0, Zero(), [];
    }

    /** Emits a value as the next item of the track all. */
    method EmitRaw(r: Long, ghost all: seq<Item>)
      requires Valid() && q < p.Length && q < |all| && items == all[..q] && Value(all[q]) == r
      modifies this, p
      ensures Valid() && q == old(q) + 1 && items == all[..q]
    {
      hide Rev, Value, And, Not, Shl, Zero;
      p[q] := Rev(And(r, Not(Shl(pr, 31))));
      Extend(items, all[q]);
      pr := r;
      items := items + [all[q]];
      q := q + 1;
    }

    method EmitLong(l: Long, ghost all: seq<Item>)
      requires Valid() && q < p.Length && q < |all| && items == all[..q] && all[q] == Coded(l)
      modifies this, p
      ensures Valid() && q == old(q) + 1 && items == all[..q]
    {
      hide Or, Shl, Not, Shr, Data, Rev, OnDisk;
      var v := Data(l);
      v := Or(v, Shl(Data(Not(Or(Shr(l, 2), l))), 1));
      EmitRaw(v, all);
    }

    /** Gap, sync, info and label of a sector. */
    method EmitLabel(data: seq<Long>, track: nat, sec: nat, nsec: nat, ghost all: seq<Item>)
      requires Valid() && |data| == 128 * nsec && (nsec == 11 || nsec == 22) && sec < nsec && p.Length == TrackLongs(nsec)
      requires all == TrackItems(data, track, nsec)
      requires q == POST_INDEX + SECTOR_LONGS * sec && items == all[..q]
      modifies this, p
      ensures Valid() && q == POST_INDEX + SECTOR_LONGS * sec + 12 && items == all[..q]
    {
      hide Info, Xor, Shr, Rev, DatChecksum, SectorItem, TrackItems, Zero, SyncLong, Even, OnDisk, Value;
      ghost var start := q;
      var info := Info(track, sec, nsec - sec);
      SectorItems(data, track, nsec, sec);
      EmitLong(Zero(), all);
      RawSyncValue();
      EmitRaw(SyncLong(), all);
      EmitLong(Even(info), all);
      EmitLong(info, all);
      for i := 0 to 8
        invariant Valid() && q == start + 4 + i && items == all[..q]
      {
        EmitLong(Zero(), all);
      }
    }

    /** The two checksums of a sector. */
    method EmitChecksums(b: seq<Long>, track: nat, sec: nat, nsec: nat, ghost all: seq<Item>)
      requires Valid() && |b| == 128 * nsec && (nsec == 11 || nsec == 22) && sec < nsec && p.Length == TrackLongs(nsec)
      requires all == TrackItems(Values(b), track, nsec)
      requires q == POST_INDEX + SECTOR_LONGS * sec + 12 && items == all[..q]
      modifies this, p
      ensures Valid() && q == POST_INDEX + SECTOR_LONGS * sec + 16 && items == all[..q]
    {
      hide Info, Xor, Shr, Rev, DatChecksum, SectorItem, TrackItems, Zero, SyncLong, Even, OnDisk, Value;
      var info := Info(track, sec, nsec - sec);
      SectorItems(Values(b), track, nsec, sec);
      var csum := Xor(info, Shr(info, 1));
      EmitLong(Zero(), all);
      EmitLong(csum, all);
      csum := DatChecksumOf(b, 128 * sec);
      EmitLong(Zero(), all);
      EmitLong(csum, all);
    }

    /** One sector: header, even halves, odd halves. */
    method EmitSector(b: seq<Long>, track: nat, sec: nat, nsec: nat, ghost all: seq<Item>)
      requires Valid() && |b| == 128 * nsec && (nsec == 11 || nsec == 22) && sec < nsec && p.Length == TrackLongs(nsec)
      requires all == TrackItems(Values(b), track, nsec)
      requires q == POST_INDEX + SECTOR_LONGS * sec && items == all[..q]
      modifies this, p
      ensures Valid() && q == POST_INDEX + SECTOR_LONGS * (sec + 1) && items == all[..q]
    {
      hide Info, Rev, SectorItem, TrackItems, Zero, Even, OnDisk, Value;
      ghost var start := q;
      EmitLabel(Values(b), track, sec, nsec, all);
      EmitChecksums(b, track, sec, nsec, all);
      SectorItems(Values(b), track, nsec, sec);
      for i := 0 to 128
        invariant Valid() && q == start + 16 + i && items == all[..q]
      {
        EmitLong(Even(Rev(b[128 * sec + i])), all);
      }
      for i := 0 to 128
        invariant Valid() && q == start + 144 + i && items == all[..q]
      {
        EmitLong(Rev(b[128 * sec + i]), all);
      }
    }

    /** A whole track: post-index gap, sectors, and gap to the end. */
    method WriteTrack(b: seq<Long>, track: nat, nsec: nat)
      requires Valid() && items == [] && |b| == 128 * nsec && (nsec == 11 || nsec == 22) && p.Length == TrackLongs(nsec)
      modifies this, p
      ensures Valid() && items == TrackItems(Values(b), track, nsec) && q == p.Length
    {
      hide TrackItems, OnDisk, Value, Zero, SectorItem, Info, SectorData, Rev;
      ghost var all := TrackItems(Values(b), track, nsec);
      SectorsFit(nsec);
      for i := 0 to 32
        invariant Valid() && q == i && items == all[..q]
      {
        GapItem(Values(b), track, nsec, q);
        EmitLong(Zero(), all);
      }
      for sec := 0 to nsec
        invariant Valid() && q == POST_INDEX + SECTOR_LONGS * sec && items == all[..q]
      {
        EmitSector(b, track, sec, nsec, all);
      }
      while q < p.Length
        invariant Valid() && POST_INDEX + SECTOR_LONGS * nsec <= q && items == all[..q]
        decreases p.Length - q
      {
        GapItem(Values(b), track, nsec, q);
        EmitLong(Zero(), all);
      }
      assert all[..q] == all;
    }
  }

  /** Earlier longs keep their place on disk when one is added. */
  lemma Extend(items: seq<Item>, item: Item)
    ensures forall i: nat :: i < |items| ==> OnDisk(items + [item], i) == OnDisk(items, i)
    ensures OnDisk(items + [item], |items|) == Emitted(Value(item), Before(items, |items|))
  {
    hide Emitted, Value;
  }

  lemma RawSyncValue()
    ensures Value(Raw(SyncLong())) == SyncLong()
  {}

  lemma GapItem(data: seq<Long>, track: nat, nsec: nat, i: nat)
    requires |data| == 128 * nsec && i < TrackLongs(nsec)
    requires i < POST_INDEX || POST_INDEX + SECTOR_LONGS * nsec <= i
    ensures TrackItems(data, track, nsec)[i] == Coded(Zero())
  {
    hide SectorItem, Zero;
  }

  /** The items of one sector, in terms of the raw user longs. */
  lemma SectorItems(data: seq<Long>, track: nat, nsec: nat, s: nat)
    requires |data| == 128 * nsec && (nsec == 11 || nsec == 22) && s < nsec
    ensures var a, b, info := TrackItems(data, track, nsec), POST_INDEX + SECTOR_LONGS * s, Info(track, s, nsec - s);
            && b + SECTOR_LONGS <= |a|
            && a[b] == Coded(Zero()) && a[b + 1] == Raw(SyncLong())
            && a[b + 2] == Coded(Even(info)) && a[b + 3] == Coded(info)
            && (forall k: nat {:trigger a[k]} :: b + 4 <= k < b + 13 ==> a[k] == Coded(Zero()))
            && a[b + 13] == Coded(Xor(info, Shr(info, 1)))
            && a[b + 14] == Coded(Zero()) && a[b + 15] == Coded(DatChecksum(SectorData(data, s)))
            && (forall k: nat {:trigger a[k]} :: b + 16 <= k < b + 144 ==> a[k] == Coded(Even(data[128 * s + k - b - 16])))
            && (forall k: nat {:trigger a[k]} :: b + 144 <= k < b + 272 ==> a[k] == Coded(data[128 * s + k - b - 144]))
  {
    hide Info, Zero, SyncLong, Even, Xor, Shr, DatChecksum, TrackItems;
    var a, b := TrackItems(data, track, nsec), POST_INDEX + SECTOR_LONGS * s;
    forall k: nat | b <= k < b + SECTOR_LONGS
      ensures k < |a| && a[k] == SectorItem(Info(track, s, nsec - s), SectorData(data, s), k - b)
    {
      ItemAt(data, track, nsec, s, k - b);
    }
  }

  /** The xor of 128 big-endian longs. */
  method DatChecksumOf(b: seq<Long>, from: nat) returns (csum: Long)
    requires from + 128 <= |b|
    ensures csum == DatChecksum(Values(b)[from..from + 128])
  {
    hide Rev, Xor, Shr, Data;
    csum := Zero();
    ghost var v := Values(b);
    assert v[from..from] == [];
    for i := 0 to 128
      invariant csum == XorAll(v[from..from + i])
    {
      assert v[from..from + i + 1][..i] == v[from..from + i];
      csum := Xor(csum, Rev(b[from + i]));
    }
    csum := Xor(csum, Shr(csum, 1));
    csum := Data(csum);
  }
}
