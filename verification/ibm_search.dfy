/** Searching a formatted track for one sector, from anywhere, and reading what the format put there. */
module IbmSearch {
  import opened Bits
  import opened Stream
  import opened Marks
  import opened IbmLayout
  import opened Splice

  /** The search loop: read number i starts latency(i) cells after the one before ended; the result is where the read
      that found the address ended, or -1 when the cells end first. */
  function Search(c: seq<bool>, pos: nat, latency: nat -> nat, i: nat, id: Idam): int
    decreases |c| - pos
  {
    var o := NextSync(c, pos + latency(i));
    if o < 0 || o + 160 > |c| then -1
    else if IsIdam(TenBytes(c, o)) && IdamOf(TenBytes(c, o)) == id then o + 160
    else Search(c, o + 160, latency, i + 1, id)
  }

  lemma SearchStep(c: seq<bool>, pos: nat, latency: nat -> nat, i: nat, id: Idam, o: nat)
    requires NextSync(c, pos + latency(i)) == o && o + 160 <= |c|
    ensures Search(c, pos, latency, i, id)
         == if IsIdam(TenBytes(c, o)) && IdamOf(TenBytes(c, o)) == id then o + 160
            else Search(c, o + 160, latency, i + 1, id)
  {
    hide IsIdam, TenBytes;
  }

  /** Where the address field of the first sector with this address ends. */
  function Find(ps: seq<Placed>, id: Idam): int
    decreases |ps|
  {
    if ps == [] then -1 else if ps[0].id == id then 16 * (ps[0].s + 22) else Find(ps[1..], id)
  }

  /** Sector k is the first with this address. */
  predicate FirstWith(ids: seq<Idam>, id: Idam, k: nat) {
    k < |ids| && ids[k] == id && forall j :: 0 <= j < k ==> ids[j] != id
  }

  lemma {:induction false} FindIs(ps: seq<Placed>, id: Idam) returns (k: int)
    ensures k < 0 ==> id !in Ids(ps) && Find(ps, id) == -1
    ensures k >= 0 ==> FirstWith(Ids(ps), id, k) && Find(ps, id) == 16 * (ps[k].s + 22)
    decreases |ps|
  {
    if ps == [] {
      k := -1;
    } else if ps[0].id == id {
      k := 0;
    } else {
      var j := FindIs(ps[1..], id);
      k := if j < 0 then -1 else j + 1;
      assert Ids(ps) == [ps[0].id] + Ids(ps[1..]);
    }
  }

  lemma OneFirst(ids: seq<Idam>, id: Idam, j: nat, k: nat)
    requires FirstWith(ids, id, j) && FirstWith(ids, id, k)
    ensures j == k
  {}

  /** A search that meets a data field next goes on behind it. */
  lemma PastData(c: seq<bool>, from: nat, p: Placed, pos: nat, latency: nat -> nat, i: nat, id: Idam)
    requires SectorAt(c, from, p) && 16 * (p.s + 22) <= pos + latency(i) <= p.at
    ensures Search(c, pos, latency, i, id) == Search(c, p.at + 160, latency, i + 1, id)
  {
    hide NextBlock, IsIdam, TenBytes, DamField, IdamField, FieldAt, Search, NextSync;
    var ten := DamField(p.data)[..10];
    BlockIsNext(c, 16 * (p.s + 22), p.at, ten, pos + latency(i));
    DamRejected(ten, p.data);
    SearchStep(c, pos, latency, i, id, p.at);
  }

  /** One that meets an address field next stops there or goes on behind it. */
  lemma AtAddress(c: seq<bool>, from: nat, p: Placed, pos: nat, latency: nat -> nat, i: nat, id: Idam)
    requires SectorAt(c, from, p) && from <= pos + latency(i) <= 16 * (p.s + 12) && forall j :: latency(j) <= MAX_LATENCY
    ensures Search(c, pos, latency, i, id)
         == if p.id == id then 16 * (p.s + 22) else Search(c, p.at + 160, latency, i + 2, id)
  {
    hide NextBlock, IsIdam, TenBytes, DamField, IdamField, FieldAt, Search, NextSync;
    var a := 16 * (p.s + 12);
    BlockIsNext(c, from, a, IdamField(p.id), pos + latency(i));
    IdamAccepted(p.id);
    SearchStep(c, pos, latency, i, id, a);
    if p.id != id {
      BlockAhead(c, a + 160, p.at, DamField(p.data)[..10]);
      PastData(c, from, p, a + 160, latency, i + 1, id);
    }
  }

  lemma {:induction false} SearchHolds(c: seq<bool>, from: nat, ps: seq<Placed>, pos: nat, latency: nat -> nat, i: nat,
                                       id: Idam)
    requires Holds(c, from, ps) && from <= pos + latency(i) <= from + MAX_LATENCY
    requires forall j :: latency(j) <= MAX_LATENCY
    ensures Search(c, pos, latency, i, id) == Find(ps, id)
    decreases |ps|
  {
    hide NextBlock, DamField, IdamField, FieldAt, SyncAt, IsIdam, TenBytes;
    if ps == [] {
    } else {
      hide Search;
      BlockAhead(c, from, 16 * (ps[0].s + 12), IdamField(ps[0].id));
      AtAddress(c, from, ps[0], pos, latency, i, id);
      if ps[0].id != id {
        SearchHolds(c, ps[0].at + 160, ps[1..], ps[0].at + 160, latency, i + 2, id);
      }
    }
  }

  /** The data field of sector k, found from any cell after its address field. */
  lemma {:induction false} FieldHolds(c: seq<bool>, from: nat, ps: seq<Placed>, k: nat, late: nat)
    requires Holds(c, from, ps) && k < |ps| && late <= MAX_LATENCY
    ensures FieldAt(c, NextSync(c, 16 * (ps[k].s + 22) + late), ps[k].data)
    decreases |ps|
  {
    hide NextBlock, DamField, IdamField, FieldAt, NextSync;
    if k == 0 {
      var p := ps[0];
      BlockAhead(c, 16 * (p.s + 22), p.at, DamField(p.data)[..10]);
      BlockIsNext(c, 16 * (p.s + 22), p.at, DamField(p.data)[..10], 16 * (p.s + 22) + late);
    } else {
      FieldHolds(c, ps[0].at + 160, ps[1..], k - 1, late);
    }
  }

  // ----- a formatted track

  lemma {:induction false} PlaceIs(ids: seq<Idam>, gap3: nat, b: nat, k: nat)
    requires k < |ids|
    ensures var p := Places(ids, gap3, b)[k]; p.id == ids[k] && p.data == Fill(0xe2, SecBytes(ids[k].n))
    decreases k
  {
    if k > 0 {
      PlaceIs(ids[1..], gap3, b + SectorLength(ids[0], gap3), k - 1);
    }
  }

  /** A search over one revolution of a formatted track ends exactly when the address is on the track. */
  lemma SearchIsExact(before: bv8, ids: seq<Idam>, gap3: nat, pad: bv8, latency: nat -> nat, id: Idam)
    requires forall j :: latency(j) <= MAX_LATENCY
    ensures Search(TrackCells(before, ids, gap3, pad), 0, latency, 0, id) >= 0 <==> id in ids
  {
    hide TrackCells, Places, Search, Holds;
    var ps := Places(ids, gap3, 64);
    TrackHolds(before, ids, gap3, pad);
    SearchHolds(TrackCells(before, ids, gap3, pad), 0, ps, 0, latency, 0, id);
    PlacesIds(ids, gap3, 64);
    var k := FindIs(ps, id);
    if k >= 0 { PlaceIs(ids, gap3, 64, k); }
  }

  /** Any sector of a formatted track can be searched for and read: however late the reads are within the slack of the
      gaps, the search ends on the first sector with the address, and the read that follows it delivers the data field
      the format wrote: its mark, its fill bytes and their checksum. */
  lemma FormattedSectorReads(before: bv8, ids: seq<Idam>, gap3: nat, pad: bv8, latency: nat -> nat, id: Idam, k: nat,
                             late: nat)
    requires FirstWith(ids, id, k) && late <= MAX_LATENCY && forall j :: latency(j) <= MAX_LATENCY
    ensures var c := TrackCells(before, ids, gap3, pad);
            var end := Search(c, 0, latency, 0, id);
            end == 16 * (Places(ids, gap3, 64)[k].s + 22)
            && FieldAt(c, NextSync(c, end + late), Fill(0xe2, SecBytes(id.n)))
  {
    hide TrackCells, Places, Search, Holds, NextSync, FieldAt, Fill, SecBytes;
    var ps := Places(ids, gap3, 64);
    TrackHolds(before, ids, gap3, pad);
    SearchHolds(TrackCells(before, ids, gap3, pad), 0, ps, 0, latency, 0, id);
    PlacesIds(ids, gap3, 64);
    var j := FindIs(ps, id);
    assert ids[k] in ids;
    OneFirst(ids, id, j, k);
    PlaceIs(ids, gap3, 64, k);
    FieldHolds(TrackCells(before, ids, gap3, pad), 0, ps, k, late);
  }

  // ----- starting anywhere

  /** How late a read may be when the first of a search can start inside a sync mark and catch its second pair alone. */
  const SAFE_LATENCY: nat := 528

  /** The distance from the first word of one mark to that of the next is at least the read between them and slack. */
  lemma Unheard(c: seq<bool>, from: nat, at: nat, ten: seq<bv8>, q: nat)
    requires NextBlock(c, from, at, ten) && at < q
    ensures q <= at + 16 ==> NextSync(c, q) == at + 16 && !IsIdam(TenBytes(c, at + 16))
    ensures at + 16 < q <= at + 160 ==> NextSync(c, q) == NextSync(c, at + 160)
  {
    hide SyncAt, IsIdam, TenBytes;
    if q <= at + 16 {
      var o := NextSync(c, q);
    } else if q <= at + 160 {
      SameNext(c, q, at + 160);
    }
  }

  lemma SameNext(c: seq<bool>, q: nat, r: nat)
    requires q <= r && forall o: nat :: q <= o < r ==> !SyncAt(c, o)
    ensures NextSync(c, q) == NextSync(c, r)
  {
    hide SyncAt;
    var o, o' := NextSync(c, q), NextSync(c, r);
  }

  lemma SameSearch(c: seq<bool>, pos: nat, pos': nat, latency: nat -> nat, i: nat, id: Idam)
    requires NextSync(c, pos + latency(i)) == NextSync(c, pos' + latency(i))
    ensures Search(c, pos, latency, i, id) == Search(c, pos', latency, i, id)
  {
    hide NextSync, IsIdam, TenBytes;
  }

  /** A block found by its second pair alone is passed over. */
  lemma HalfHeard(c: seq<bool>, from: nat, at: nat, ten: seq<bv8>, pos: nat, latency: nat -> nat, i: nat, id: Idam)
    requires NextBlock(c, from, at, ten) && at < pos + latency(i) <= at + 16
    ensures Search(c, pos, latency, i, id) == Search(c, at + 176, latency, i + 1, id)
  {
    hide SyncAt, IsIdam, TenBytes, Search, NextSync;
    Unheard(c, from, at, ten, pos + latency(i));
    SearchStep(c, pos, latency, i, id, at + 16);
  }

  /** A search that starts within a block behind both its pairs is one that starts at its end. */
  lemma Skip(c: seq<bool>, from: nat, at: nat, ten: seq<bv8>, pos: nat, latency: nat -> nat, i: nat, id: Idam)
    returns (pos': nat)
    requires NextBlock(c, from, at, ten) && at + 16 < pos + latency(i) && latency(i) <= SAFE_LATENCY
    ensures Search(c, pos, latency, i, id) == Search(c, pos', latency, i, id)
    ensures pos' + latency(i) == if pos + latency(i) <= at + 160 then at + 160 else pos + latency(i)
  {
    hide SyncAt, IsIdam, TenBytes, Search, NextSync;
    pos' := pos;
    if pos + latency(i) <= at + 160 {
      pos' := at + 160 - latency(i);
      Unheard(c, from, at, ten, pos + latency(i));
      SameSearch(c, pos, pos', latency, i, id);
    }
  }

  lemma NothingAhead(c: seq<bool>, pos: nat, latency: nat -> nat, i: nat, id: Idam)
    requires forall o: nat :: pos + latency(i) <= o ==> !SyncAt(c, o)
    ensures Search(c, pos, latency, i, id) == -1
  {
    hide SyncAt, IsIdam, TenBytes;
    var o := NextSync(c, pos + latency(i));
  }

  /** A search that starts anywhere finds what it would have found from one of the sectors ahead on: at worst it misses
      those for whose address it is too late. */
  lemma {:induction false} SearchAnywhere(c: seq<bool>, from: nat, ps: seq<Placed>, pos: nat, latency: nat -> nat, i: nat,
                                          id: Idam) returns (missed: nat)
    requires Holds(c, from, ps) && from <= pos + latency(i) && forall j :: latency(j) <= SAFE_LATENCY
    ensures missed <= |ps| && Search(c, pos, latency, i, id) == Find(ps[missed..], id)
    ensures missed > 0 ==> 16 * (ps[missed - 1].s + 12) < pos + latency(i)
    decreases |ps|
  {
    hide NextBlock, DamField, IdamField, FieldAt, SyncAt, IsIdam, TenBytes, Search, NextSync, Find;
    missed := 0;
    if ps == [] {
      NothingAhead(c, pos, latency, i, id);
      SearchHolds(c, pos + latency(i), ps, pos, latency, i, id);
    } else if pos + latency(i) <= 16 * (ps[0].s + 12) {
      FromAddress(c, from, ps, pos, latency, i, id);
      assert ps[0..] == ps;
    } else {
      var a, b := 16 * (ps[0].s + 12), ps[0].at;
      var addr, dam := IdamField(ps[0].id), DamField(ps[0].data)[..10];
      BlockAhead(c, from, a, addr);
      BlockAhead(c, a + 160, b, dam);
      missed := 1;
      if pos + latency(i) <= a + 16 {
        HalfHeard(c, from, a, addr, pos, latency, i, id);
        PastData(c, from, ps[0], a + 176, latency, i + 1, id);
        SearchHolds(c, b + 160, ps[1..], b + 160, latency, i + 2, id);
      } else {
        var pos' := Skip(c, from, a, addr, pos, latency, i, id);
        if pos' + latency(i) <= b {
          PastData(c, from, ps[0], pos', latency, i, id);
          SearchHolds(c, b + 160, ps[1..], b + 160, latency, i + 1, id);
        } else if pos' + latency(i) <= b + 16 {
          HalfHeard(c, a + 160, b, dam, pos', latency, i, id);
          SearchHolds(c, b + 160, ps[1..], b + 176, latency, i + 1, id);
        } else {
          var pos'' := Skip(c, a + 160, b, dam, pos', latency, i, id);
          var m := SearchAnywhere(c, b + 160, ps[1..], pos'', latency, i, id);
          missed := m + 1;
          assert ps[1..][m..] == ps[missed..];
          if m > 0 {
            LaterAddress(c, b + 160, ps[1..], m - 1);
          }
        }
      }
    }
  }

  lemma FromAddress(c: seq<bool>, from: nat, ps: seq<Placed>, pos: nat, latency: nat -> nat, i: nat, id: Idam)
    requires Holds(c, from, ps) && ps != [] && from <= pos + latency(i) <= 16 * (ps[0].s + 12)
    requires forall j :: latency(j) <= MAX_LATENCY
    ensures Search(c, pos, latency, i, id) == Find(ps, id)
  {
    hide SectorAt, SyncAt, Search;
    AtAddress(c, from, ps[0], pos, latency, i, id);
    if ps[0].id != id {
      SearchHolds(c, ps[0].at + 160, ps[1..], ps[0].at + 160, latency, i + 2, id);
    }
  }

  lemma {:induction false} LaterAddress(c: seq<bool>, from: nat, ps: seq<Placed>, k: nat)
    requires Holds(c, from, ps) && k < |ps|
    ensures from + MAX_LATENCY <= 16 * (ps[k].s + 12) && ps[k].at + 176 <= |c|
    decreases |ps|
  {
    hide NextBlock, DamField, IdamField, FieldAt;
    BlockAhead(c, from, 16 * (ps[0].s + 12), IdamField(ps[0].id));
    BlockAhead(c, 16 * (ps[0].s + 22), ps[0].at, DamField(ps[0].data)[..10]);
    if k > 0 {
      LaterAddress(c, ps[0].at + 160, ps[1..], k - 1);
    }
  }

  /** Two turns of a formatted track, one after the other, hold its sectors twice. */
  lemma TwoTurns(before: bv8, ids: seq<Idam>, gap3: nat, pad: bv8)
    ensures var t, ps := TrackCells(before, ids, gap3, pad), Places(ids, gap3, 64);
            Holds(t + t, 0, ps + MovedAll(ps, |t|))
  {
    hide Holds, SyncAt, Places, Lawful, Agree, TrackMarks, PaddedTrack, MarkedBytes, BitsOf;
    var t, ps, marks := TrackCells(before, ids, gap3, pad), Places(ids, gap3, 64), TrackMarks(ids, gap3);
    TrackHolds(before, ids, gap3, pad);
    HoldsBehind(t, t, 0, ps);
    TrackCellsLawful(before, ids, gap3, pad);
    Behind(t, t);
    MarksInside(before, ids, gap3, pad);
    forall o: nat | |t| - 32 < o < |t|
      ensures !SyncAt(t + t, o)
    {
      NoneAcross(t + t, 0, |t|, |t + t|, t, 0, marks, t, |t|, marks, o);
    }
    HoldsBoth(t, t, 0, ps, MovedAll(ps, |t|));
  }

  lemma MarksInside(before: bv8, ids: seq<Idam>, gap3: nat, pad: bv8)
    ensures var t, marks := TrackCells(before, ids, gap3, pad), TrackMarks(ids, gap3);
            && |t| % 16 == 0 && |t| >= 1216
            && Clear(marks, |t| - 31, |t| - 15) && Clear(marks, 0, 16)
  {
    hide Sectors, MarkedBytes, BitsOf, MarkSet;
    MarkSetBounds(ids, gap3, 64);
  }

  /** Which of the first turn's sectors sector k of two turns is. */
  function Turned(n: nat, k: nat): nat
    requires k < 2 * n
    ensures Turned(n, k) < n
  {
    if k < n then k else k - n
  }

  lemma SectorOfTwo(ps: seq<Placed>, d: nat, k: nat)
    requires k < 2 * |ps|
    ensures var p, q := ps[Turned(|ps|, k)], (ps + MovedAll(ps, d))[k];
            q.id == p.id && q.data == p.data && Ids(ps)[Turned(|ps|, k)] == q.id
  {}

  lemma IdAt(ps: seq<Placed>, k: nat)
    requires k < |ps|
    ensures Ids(ps)[k] == ps[k].id && ps[k].id in Ids(ps)
  {
    assert Ids(ps)[k] in Ids(ps);
  }

  /** What is found after missing no more than the first turn. */
  lemma LastOfTwo(ps: seq<Placed>, d: nat, missed: nat, id: Idam) returns (k: int)
    requires missed <= |ps|
    ensures var qs := ps + MovedAll(ps, d);
            && (k < 0 ==> id !in Ids(ps) && Find(qs[missed..], id) == -1)
            && (k >= 0 ==> k < |qs| && qs[k].id == id && id in Ids(ps) && Find(qs[missed..], id) == 16 * (qs[k].s + 22))
  {
    hide Find, Ids, MovedAll;
    var qs := ps + MovedAll(ps, d);
    var j := FindIs(qs[missed..], id);
    if j < 0 {
      k := -1;
      forall i: nat | i < |ps|
        ensures Ids(ps)[i] != id
      {
        SectorOfTwo(ps, d, |ps| + i);
        IdAt(qs[missed..], |ps| + i - missed);
      }
    } else {
      k := missed + j;
      IdAt(qs[missed..], j);
      SectorOfTwo(ps, d, k);
      IdAt(ps, Turned(|ps|, k));
    }
  }

  lemma NotAllMissed(c: seq<bool>, ps: seq<Placed>, d: nat, missed: nat, q: nat)
    requires Holds(c, 0, ps) && d % 16 == 0 && q < d + MAX_LATENCY && missed <= 2 * |ps|
    requires missed > 0 ==> 16 * ((ps + MovedAll(ps, d))[missed - 1].s + 12) < q
    ensures missed <= |ps|
  {
    hide Holds;
    if missed > |ps| {
      LaterAddress(c, 0, ps, missed - 1 - |ps|);
    }
  }

  /** A search started anywhere in one revolution ends before the next is over exactly when the address is on the track,
      so no read of it begins after a second index pulse; and the read that follows delivers that sector's data field. */
  lemma SearchEnds(before: bv8, ids: seq<Idam>, gap3: nat, pad: bv8, pos: nat, latency: nat -> nat, id: Idam, late: nat)
    requires pos < |TrackCells(before, ids, gap3, pad)| && late <= MAX_LATENCY
    requires forall j :: latency(j) <= SAFE_LATENCY
    ensures var t := TrackCells(before, ids, gap3, pad);
            var end := Search(t + t, pos, latency, 0, id);
            && (end >= 0 <==> id in ids)
            && (end >= 0 ==> FieldAt(t + t, NextSync(t + t, end + late), Fill(0xe2, SecBytes(id.n))))
  {
    hide Holds, Places, TrackCells, Search, Find, FieldAt, NextSync, SecBytes, Fill, Ids, MovedAll, Turned;
    var t, ps := TrackCells(before, ids, gap3, pad), Places(ids, gap3, 64);
    var qs := ps + MovedAll(ps, |t|);
    TwoTurns(before, ids, gap3, pad);
    TrackHolds(before, ids, gap3, pad);
    MarksInside(before, ids, gap3, pad);
    PlacesIds(ids, gap3, 64);
    var missed := SearchAnywhere(t + t, 0, qs, pos, latency, 0, id);
    NotAllMissed(t, ps, |t|, missed, pos + latency(0));
    var k := LastOfTwo(ps, |t|, missed, id);
    if k >= 0 {
      FieldHolds(t + t, 0, qs, k, late);
      SectorOfTwo(ps, |t|, k);
      PlaceIs(ids, gap3, 64, Turned(|ids|, k));
    }
  }
}
