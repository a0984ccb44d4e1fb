/** Writing sectors of a formatted track, in any order and at any cell within their gaps: what a track then holds. */
module IbmRewrite {
  import opened Bits
  import opened Stream
  import opened Marks
  import opened IbmLayout
  import opened IbmSearch
  import opened Splice
  import opened Seams

  /** The track once the head has passed. */
  function Over(c: seq<bool>, w: Write): (r: seq<bool>)
    requires Stop(w) <= |c|
    ensures |r| == |c|
  {
    c[..w.p] + Cells(w) + c[Stop(w)..]
  }

  /** The write starts no sooner than gap 2 ends and no later than the formatted data mark, and stops a word short of the
      next sector's mark. */
  predicate FitsSector(w: Write, s: nat, id: Idam, gap3: nat) {
    && |w.buf| == SecBytes(id.n)
    && 16 * (s + 44) <= w.p <= 16 * (s + 56)
    && Stop(w) <= 16 * (s + SectorLength(id, gap3) + 11)
  }

  /** A write begun within 192 cells of the end of gap 2, counted from the end of the address field, fits when its last
      gap is at least two bytes shorter than the format's. */
  lemma TimelyWriteFits(w: Write, s: nat, id: Idam, gap3: nat)
    requires |w.buf| == SecBytes(id.n) && w.gap3 + 2 <= gap3
    requires var deadline := 16 * (s + 22) + 16 * GAP2; deadline <= w.p <= deadline + 192
    ensures FitsSector(w, s, id, gap3)
  {
    hide SecBytes, MarkedBytes, BitsOf, DamField;
    assert |Ibm.SectorWrite(w.buf, w.gap3)| <= 19 + |w.buf| + w.gap3;
  }

  predicate FitAll(ws: seq<Write>, s: nat, id: Idam, gap3: nat) {
    forall i :: 0 <= i < |ws| ==> FitsSector(ws[i], s, id, gap3)
  }

  lemma SizeIsEven(n: bv8)
    ensures SecBytes(n) % 2 == 0
  {}

  lemma FitsStart(ws: seq<Write>, s: nat, id: Idam, gap3: nat)
    requires FitAll(ws, s, id, gap3)
    ensures AllStartIn(ws, s)
  {
    hide SecBytes, Stop, SectorLength;
    SizeIsEven(id.n);
    forall i | 0 <= i < |ws|
      ensures StartsIn(ws[i], s)
    {
      assert FitsSector(ws[i], s, id, gap3);
    }
  }

  /** The cells a sector answers for: from a word before its address mark to the words of the next. */
  predicate Region(c: seq<bool>, t: seq<bool>, s: nat, id: Idam, gap3: nat, ws: seq<Write>) {
    FitAll(ws, s, id, gap3) && Shows(c, t, ws, 16 * (s + 11), 16 * (s + SectorLength(id, gap3) + 13))
  }

  /** On every sector of track t the cells show what has been written to it. */
  predicate Regions(c: seq<bool>, t: seq<bool>, ids: seq<Idam>, gap3: nat, s: nat, xs: seq<seq<Write>>)
    decreases |ids|
  {
    && |xs| == |ids| && |c| == |t|
    && if ids == [] then 16 * (s + 13) <= |t| && Shows(c, t, [], 16 * (s + 11), |t|)
       else
         && Region(c, t, s, ids[0], gap3, xs[0])
         && Regions(c, t, ids[1..], gap3, s + SectorLength(ids[0], gap3), xs[1..])
  }

  /** The word sector k starts at, when the first starts at s. */
  function StartOf(ids: seq<Idam>, gap3: nat, s: nat, k: nat): (r: nat)
    requires k <= |ids|
    ensures r >= s
    decreases k
  {
    if k == 0 then s else StartOf(ids[1..], gap3, s + SectorLength(ids[0], gap3), k - 1)
  }

  // ----- a write touches its own region alone

  lemma OverAt(c: seq<bool>, w: Write, x: nat)
    requires Stop(w) <= |c| && x < |c|
    ensures Over(c, w)[x] == if w.p <= x < Stop(w) then Cells(w)[x - w.p] else c[x]
  {
    hide Cells;
  }

  lemma ShowsOver(c: seq<bool>, t: seq<bool>, ws: seq<Write>, a: nat, b: nat, w: Write)
    requires Shows(c, t, ws, a, b) && Stop(w) <= |c|
    ensures Shows(Over(c, w), t, ws + [w], a, b)
  {
    hide Cells, Over, Stop;
    forall x | a <= x < b
      ensures Over(c, w)[x] == Shown(ws + [w], t, x)
    {
      OverAt(c, w, x);
      assert (ws + [w])[..|ws|] == ws;
    }
  }

  lemma ShowsOther(c: seq<bool>, t: seq<bool>, ws: seq<Write>, a: nat, b: nat, w: Write)
    requires Shows(c, t, ws, a, b) && Stop(w) <= |c| && (Stop(w) <= a || b <= w.p)
    ensures Shows(Over(c, w), t, ws, a, b)
  {
    hide Cells, Over, Stop, Shown;
    forall x | a <= x < b
      ensures Over(c, w)[x] == Shown(ws, t, x)
    {
      OverAt(c, w, x);
    }
  }

  lemma {:induction false} RegionsBehind(c: seq<bool>, t: seq<bool>, ids: seq<Idam>, gap3: nat, s: nat,
                                         xs: seq<seq<Write>>, w: Write)
    requires Regions(c, t, ids, gap3, s, xs) && Stop(w) <= 16 * (s + 11) <= |c|
    ensures Regions(Over(c, w), t, ids, gap3, s, xs)
    decreases |ids|
  {
    hide Shows, SectorLength, Stop, Over, FitAll;
    if ids == [] {
      ShowsOther(c, t, [], 16 * (s + 11), |t|, w);
    } else {
      var next := s + SectorLength(ids[0], gap3);
      ShowsSize(c, t, xs[0], 16 * (s + 11), 16 * (next + 13));
      ShowsOther(c, t, xs[0], 16 * (s + 11), 16 * (next + 13), w);
      RegionsBehind(c, t, ids[1..], gap3, next, xs[1..], w);
    }
  }

  lemma ShowsSize(c: seq<bool>, t: seq<bool>, ws: seq<Write>, a: nat, b: nat)
    requires Shows(c, t, ws, a, b)
    ensures b <= |c| && b <= |t|
  {}

  /** Writing sector k adds to what that sector shows and changes no other. */
  lemma {:induction false} WriteKeepsRegions(c: seq<bool>, t: seq<bool>, ids: seq<Idam>, gap3: nat, s: nat,
                                             xs: seq<seq<Write>>, k: nat, w: Write)
    requires Regions(c, t, ids, gap3, s, xs) && k < |ids|
    requires FitsSector(w, StartOf(ids, gap3, s, k), ids[k], gap3)
    ensures Stop(w) <= |c| && Regions(Over(c, w), t, ids, gap3, s, xs[k := xs[k] + [w]])
    decreases k
  {
    hide Shows, SectorLength, Stop, Over, SecBytes;
    var next := s + SectorLength(ids[0], gap3);
    ShowsSize(c, t, xs[0], 16 * (s + 11), 16 * (next + 13));
    if k == 0 {
      ShowsOver(c, t, xs[0], 16 * (s + 11), 16 * (next + 13), w);
      RegionsBehind(c, t, ids[1..], gap3, next, xs[1..], w);
      assert xs[0 := xs[0] + [w]][1..] == xs[1..];
    } else {
      WriteKeepsRegions(c, t, ids[1..], gap3, next, xs[1..], k - 1, w);
      ShowsOther(c, t, xs[0], 16 * (s + 11), 16 * (next + 13), w);
      assert xs[k := xs[k] + [w]][1..] == xs[1..][k - 1 := xs[k] + [w]];
    }
  }

  // ----- runs of writes

  /** Write sector k. */
  datatype Event = Event(k: nat, w: Write)

  predicate FitsTrack(ids: seq<Idam>, gap3: nat, e: Event) {
    e.k < |ids| && FitsSector(e.w, StartOf(ids, gap3, 64, e.k), ids[e.k], gap3)
  }

  /** Every write is of a sector of the track, and fits it. */
  predicate Fitting(ids: seq<Idam>, gap3: nat, log: seq<Event>) {
    forall i :: 0 <= i < |log| ==> FitsTrack(ids, gap3, log[i])
  }

  function NoWrites(n: nat): seq<seq<Write>> { seq(n, i => []) }

  /** The writes of each sector, in order. */
  function Contents(n: nat, log: seq<Event>): (xs: seq<seq<Write>>)
    ensures |xs| == n
    decreases |log|
  {
    if log == [] then NoWrites(n)
    else
      var xs, e := Contents(n, log[..|log| - 1]), log[|log| - 1];
      if e.k < n then xs[e.k := xs[e.k] + [e.w]] else xs
  }

  /** The track after the writes. */
  function After(t: seq<bool>, log: seq<Event>): (c: seq<bool>)
    ensures |c| == |t|
    decreases |log|
  {
    if log == [] then t
    else
      var c, w := After(t, log[..|log| - 1]), log[|log| - 1].w;
      if Stop(w) <= |c| then Over(c, w) else c
  }

  lemma {:induction false} AsFormattedRegions(t: seq<bool>, ids: seq<Idam>, gap3: nat, s: nat)
    requires 16 * (s + TotalLength(ids, gap3) + 13) <= |t|
    ensures Regions(t, t, ids, gap3, s, NoWrites(|ids|))
    decreases |ids|
  {
    hide SectorLength;
    if ids == [] {
    } else {
      AsFormattedRegions(t, ids[1..], gap3, s + SectorLength(ids[0], gap3));
      assert NoWrites(|ids|)[1..] == NoWrites(|ids| - 1);
    }
  }

  lemma {:induction false} WritesKeepRegions(t: seq<bool>, ids: seq<Idam>, gap3: nat, log: seq<Event>)
    requires 16 * (128 + TotalLength(ids, gap3)) <= |t| && Fitting(ids, gap3, log)
    ensures Regions(After(t, log), t, ids, gap3, 64, Contents(|ids|, log))
    ensures Shows(After(t, log), t, [], 0, 16 * 80)
    decreases |log|
  {
    hide Regions, FitsSector, Over, Stop, Shows, TotalLength;
    if log == [] {
      AsFormattedRegions(t, ids, gap3, 64);
      TrackShows(t);
    } else {
      var init, e := log[..|log| - 1], log[|log| - 1];
      WritesKeepRegions(t, ids, gap3, init);
      assert FitsTrack(ids, gap3, e);
      WriteKeepsRegions(After(t, init), t, ids, gap3, 64, Contents(|ids|, init), e.k, e.w);
      StartsLate(e.w, StartOf(ids, gap3, 64, e.k), ids[e.k], gap3);
      ShowsOther(After(t, init), t, [], 0, 16 * 80, e.w);
    }
  }

  lemma StartsLate(w: Write, s: nat, id: Idam, gap3: nat)
    requires FitsSector(w, s, id, gap3) && s >= 64
    ensures 16 * 80 <= w.p
  {
    hide Stop, SectorLength, SecBytes;
  }

  lemma TrackShows(t: seq<bool>)
    requires 16 * 80 <= |t|
    ensures Shows(t, t, [], 0, 16 * 80)
  {}

  // ----- what a reader then meets

  /** The cells of a write: a lawful stream with one sync mark, and behind it the data field. */
  lemma WriteHolds(w: Write)
    requires |w.buf| >= 128
    ensures |Cells(w)| >= 16 * (18 + |w.buf|)
    ensures MarkAt(Cells(w), 192, DamField(w.buf)[..10]) && FieldAt(Cells(w), 192, w.buf)
  {
    hide MarkAt, Ibm.SectorWrite, MarkedBytes, BitsOf, DamField, BytesAt, MarksOn;
    var d := Ibm.SectorWrite(w.buf, w.gap3);
    Ibm.SectorWriteParts(w.buf, w.gap3);
    Ibm.MarkByte(w.buf);
    assert d[15] == d[12..18 + |w.buf|][3];
    MarkOfThree(w.before, d, Ibm.SECTOR_MARKS, 12);
    Within(d, 12, 6 + |w.buf|, DamField(w.buf), 0, 10);
    BytesOfMarked(w.before, d, Ibm.SECTOR_MARKS, 12, 6 + |w.buf|);
  }

  /** A sector as it stands on a track. */
  function PlaceOf(id: Idam, s: nat, ws: seq<Write>): Placed {
    if ws == [] then Formatted(id, s) else Placed(id, s, ws[|ws| - 1].p + 192, ws[|ws| - 1].buf)
  }

  /** The writes of a sector leave no false mark, before its data mark or behind its data. */
  predicate Clear(t: seq<bool>, s: nat, id: Idam, gap3: nat, ws: seq<Write>) {
    StartsClear(ws, s) && EndsClear(ws, t, s, 16 * (s + SectorLength(id, gap3) + 11))
  }

  predicate AllClear(t: seq<bool>, ids: seq<Idam>, gap3: nat, s: nat, xs: seq<seq<Write>>)
    requires |xs| == |ids|
    decreases |ids|
  {
    ids != [] ==>
      Clear(t, s, ids[0], gap3, xs[0]) && AllClear(t, ids[1..], gap3, s + SectorLength(ids[0], gap3), xs[1..])
  }

  /** Up to the end of gap 2 a region is as formatted. */
  lemma HeadAgrees(c: seq<bool>, t: seq<bool>, s: nat, id: Idam, gap3: nat, ws: seq<Write>)
    requires Region(c, t, s, id, gap3, ws)
    ensures Agree(c, 16 * (s + 11), 16 * (s + 44), t, 0)
  {
    hide SectorLength, FitAll, Shown;
    FitsStart(ws, s, id, gap3);
    LongSector(id, gap3);
    var a, b := 16 * (s + 11), 16 * (s + 44);
    forall x | a <= x < b
      ensures c[x] == t[x]
    {
      BeneathStarts(ws, t, s, x);
    }
    assert c[a..b] == t[a..b];
  }

  /** A region no write has reached is as formatted throughout. */
  lemma UnwrittenAgrees(c: seq<bool>, t: seq<bool>, a: nat, b: nat)
    requires Shows(c, t, [], a, b) && a <= b
    ensures Agree(c, a, b, t, 0)
  {
    assert c[a..b] == t[a..b];
  }

  /** No mark comes sooner than the next address. */
  lemma NoneSooner(c: seq<bool>, t: seq<bool>, marks: set<nat>, m: nat, f: nat, s: nat)
    requires Lawful(t, marks) && Agree(c, 16 * (s + 11), 16 * (s + 44), t, 0) && 16 * m <= f && m <= s
    requires forall o: nat :: f <= o < 16 * (s + 11) ==> !SyncAt(c, o)
    requires forall k :: k in marks && m <= k ==> s + 12 <= k
    ensures forall o: nat :: f <= o < 16 * (s + 12) ==> !SyncAt(c, o)
  {
    hide Agree, Lawful, SyncAt;
    forall o: nat | f <= o < 16 * (s + 12)
      ensures !SyncAt(c, o)
    {
      if o >= 16 * (s + 11) {
        SyncAgrees(c, 16 * (s + 11), 16 * (s + 44), t, 0, o);
        SyncUnambiguous(t, marks, o);
      }
    }
  }

  /** What the format leaves before a data mark. */
  lemma FormatGap(before: bv8, data: seq<bv8>, marks: set<nat>, ids: seq<Idam>, gap3: nat, s: nat)
    requires MarksOn(data, marks) && Laid(data, s, ids, gap3) && ids != []
    requires forall k :: k in marks && s + 15 <= k ==> s + 56 <= k
    ensures GapOf(MarkedCellStream(before, data, marks), s)
  {
    hide MarkedCellStream, Laid, MarksOn, FormatCell;
    GapBytes(data, s, ids, gap3);
    var t := MarkedCellStream(before, data, marks);
    assert 16 * (s + 56) <= |t|;
    forall x | 16 * (s + 42) <= x < 16 * (s + 56)
      ensures t[x] == FormatCell(s, x)
    {
      FormatGapCell(before, data, marks, s, x / 16, x % 16);
      assert x == 16 * (x / 16) + x % 16;
    }
  }

  lemma FormatGapCell(before: bv8, data: seq<bv8>, marks: set<nat>, s: nat, n: nat, j: nat)
    requires MarksOn(data, marks) && s + 42 <= n < s + 56 <= |data| && j < 16 && n !in marks
    requires forall i :: s + 41 <= i < s + 44 ==> data[i] == 0x4e
    requires forall i :: s + 44 <= i < s + 56 ==> data[i] == 0x00
    ensures MarkedCellStream(before, data, marks)[16 * n + j] == FormatCell(s, 16 * n + j)
  {
    hide MarkedCellStream, MarksOn, FormatCell, Bit;
    GapEndsInZero();
    ZeroBit(7);
    FormatAt(s, n, j);
    if n < s + 44 {
      GapWord(before, data, marks, n, j);
    } else {
      ZeroWord(before, data, marks, n, j);
    }
  }

  lemma FormatAt(s: nat, n: nat, j: nat)
    requires s + 42 <= n && j < 16
    ensures FormatCell(s, 16 * n + j) == if n < s + 44 then GAP_WORD[j] else j % 2 == 0
  {
    WordCell(n, j);
  }

  lemma WordCell(n: nat, j: nat)
    requires j < 16
    ensures (16 * n + j) % 16 == j && (16 * n + j) % 2 == j % 2
  {}

  lemma GapBytes(data: seq<bv8>, s: nat, ids: seq<Idam>, gap3: nat)
    requires Laid(data, s, ids, gap3) && ids != []
    ensures s + 56 <= |data|
    ensures forall i :: s + 41 <= i < s + 44 ==> data[i] == 0x4e
    ensures forall i :: s + 44 <= i < s + 56 ==> data[i] == 0x00
  {
    hide Laid, Sectors;
    LaidSplit(data, s, ids, gap3);
    var l := SectorLength(ids[0], gap3);
    LongSector(ids[0], gap3);
    SectorGaps(ids[0], gap3);
    forall i | s + 41 <= i < s + 56
      ensures data[i] == Sector(ids[0], gap3)[i - s]
    {
      assert data[s..s + l][i - s] == data[i];
    }
  }

  lemma SectorGaps(id: Idam, gap3: nat)
    ensures SectorLength(id, gap3) >= 56
    ensures forall i :: 41 <= i < 44 ==> Sector(id, gap3)[i] == 0x4e
    ensures forall i :: 44 <= i < 56 ==> Sector(id, gap3)[i] == 0x00
  {
    hide IdamField, DamField, SecBytes;
  }

  lemma WrittenSector(c: seq<bool>, t: seq<bool>, marks: set<nat>, f: nat, s: nat, id: Idam, gap3: nat, ws: seq<Write>)
    requires Region(c, t, s, id, gap3, ws) && ws != [] && Lawful(t, marks) && GapOf(t, s) && StartsClear(ws, s)
    requires SectorAt(t, f, Formatted(id, s)) && Agree(c, 16 * (s + 11), 16 * (s + 44), t, 0)
    requires forall m :: m in marks && s + 15 <= m ==> s + 56 <= m
    requires forall o: nat :: f <= o < 16 * (s + 12) ==> !SyncAt(c, o)
    ensures SectorAt(c, f, PlaceOf(id, s, ws))
  {
    hide Agree, Lawful, SyncAt, Cells, MarkAt, FieldAt, SecBytes, IdamField, DamField, Fill, GapOf, Spelled, Shows, FitAll,
         SectorLength;
    var w := ws[|ws| - 1];
    FitsStart(ws, s, id, gap3);
    LastStarts(ws, s);
    SectorEnds(t, f, Formatted(id, s));
    WriteHolds(w);
    LastFits(c, t, s, id, gap3, ws);
    PartAgree(c, 16 * (s + 11), 16 * (s + 44), t, 0, 16 * (s + 12), 16 * (s + 44));
    MarkAgrees(c, 16 * (s + 44), t, 0, 16 * (s + 12), IdamField(id));
    forall o: nat | 16 * (s + 22) <= o < w.p + 192
      ensures !SyncAt(c, o)
    {
      NoneInGap(c, t, ws, marks, s, o);
    }
    PartAgree(c, w.p, Stop(w), Cells(w), w.p, w.p + 192, Stop(w));
    MarkAgrees(c, Stop(w), Cells(w), w.p, 192, DamField(w.buf)[..10]);
    FieldAgrees(c, w.p, Stop(w), Cells(w), w.p, w.p + 192, w.buf);
  }

  /** The last write shows whole. */
  lemma LastFits(c: seq<bool>, t: seq<bool>, s: nat, id: Idam, gap3: nat, ws: seq<Write>)
    requires Region(c, t, s, id, gap3, ws) && ws != []
    ensures var w := ws[|ws| - 1];
            && Agree(c, w.p, Stop(w), Cells(w), w.p)
            && Shows(c, t, ws, 16 * (s + 22), w.p + 224) && w.p <= 16 * (s + 56)
  {
    hide Cells, Shown, Agree, SectorLength, SecBytes;
    var w, b := ws[|ws| - 1], 16 * (s + SectorLength(id, gap3) + 13);
    assert FitsSector(w, s, id, gap3);
    LongSector(id, gap3);
    LastShows(c, t, ws, w.p, Stop(w));
  }

  /** The sectors of a track after writes, the first at word s. */
  function PlacesAfter(ids: seq<Idam>, gap3: nat, s: nat, xs: seq<seq<Write>>): (r: seq<Placed>)
    requires |xs| == |ids|
    ensures |r| == |ids|
    decreases |ids|
  {
    if ids == [] then []
    else [PlaceOf(ids[0], s, xs[0])] + PlacesAfter(ids[1..], gap3, s + SectorLength(ids[0], gap3), xs[1..])
  }

  /** From where a sector has been read to the words of the next no mark shows. */
  lemma RegionTail(c: seq<bool>, t: seq<bool>, s: nat, id: Idam, gap3: nat, ws: seq<Write>)
    requires Region(c, t, s, id, gap3, ws)
    ensures var f, hi := PlaceOf(id, s, ws).at + 160, 16 * (s + SectorLength(id, gap3) + 11);
            && f == BehindData(ws, s) && 16 * (s + 66) <= f <= 16 * (s + 78)
            && forall o: nat :: f <= o < hi ==> (SyncAt(c, o) <==> ShowsMark(ws, t, o))
  {
    hide SyncAt, ShowsMark, SectorLength, FitAll, Shows;
    FitsStart(ws, s, id, gap3);
    if ws != [] { LastStarts(ws, s); }
    LongSector(id, gap3);
    var hi := 16 * (s + SectorLength(id, gap3) + 11);
    forall o: nat | BehindData(ws, s) <= o < hi
      ensures SyncAt(c, o) <==> ShowsMark(ws, t, o)
    {
      ShowsPart(c, t, ws, 16 * (s + 11), hi + 32, o, o + 32);
      MarkShown(c, t, ws, o);
    }
  }

  /** One sector of a track that has been written to, found from behind the one before it. */
  lemma SectorAfter(c: seq<bool>, t: seq<bool>, marks: set<nat>, m: nat, f: nat, s: nat, id: Idam, gap3: nat, ws: seq<Write>)
    requires Region(c, t, s, id, gap3, ws) && Lawful(t, marks) && SectorAt(t, f, Formatted(id, s))
    requires GapOf(t, s) && StartsClear(ws, s) && 16 * m <= f && m <= s
    requires forall o: nat :: f <= o < 16 * (s + 11) ==> !SyncAt(c, o)
    requires forall k :: k in marks && m <= k ==> s + 12 <= k && (s + 15 <= k ==> s + 56 <= k)
    ensures SectorAt(c, f, PlaceOf(id, s, ws))
  {
    hide Agree, Lawful, SyncAt, Cells, SectorAt, SectorLength, Shows, FitAll, GapOf, StartsClear;
    HeadAgrees(c, t, s, id, gap3, ws);
    NoneSooner(c, t, marks, m, f, s);
    if ws != [] {
      WrittenSector(c, t, marks, f, s, id, gap3, ws);
    } else {
      var hi := 16 * (s + SectorLength(id, gap3) + 13);
      LongSector(id, gap3);
      UnwrittenAgrees(c, t, 16 * (s + 11), hi);
      PartAgree(c, 16 * (s + 11), hi, t, 0, 16 * (s + 12), hi);
      FieldInside(id, s, gap3);
      SectorEnds(t, f, Formatted(id, s));
      SectorAgrees(c, hi, t, 0, f, Formatted(id, s), f);
    }
  }

  lemma FieldInside(id: Idam, s: nat, gap3: nat)
    ensures var p := Formatted(id, s);
            Moved(p, 0) == p && p.at + 16 * (6 + |p.data|) <= 16 * (s + SectorLength(id, gap3) + 11)
  {
    hide SecBytes;
  }

  lemma {:induction false} RegionsHold(c: seq<bool>, before: bv8, data: seq<bv8>, marks: set<nat>, ids: seq<Idam>, gap3: nat,
                                       s: nat, xs: seq<seq<Write>>, m: nat, f: nat)
    requires MarksOn(data, marks) && Laid(data, s, ids, gap3) && MarksFrom(marks, m, ids, gap3, s) && m <= s
    requires Regions(c, MarkedCellStream(before, data, marks), ids, gap3, s, xs)
    requires AllClear(MarkedCellStream(before, data, marks), ids, gap3, s, xs)
    requires 16 * m <= f && f + MAX_LATENCY <= 16 * (s + 12)
    requires forall o: nat :: f <= o < 16 * (s + 11) ==> !SyncAt(c, o)
    ensures Holds(c, f, PlacesAfter(ids, gap3, s, xs))
    decreases |ids|
  {
    hide MarkedCellStream, Lawful, Laid, MarksOn, MarksFrom, SectorAt, SyncAt, Agree, Region, SectorLength, PlaceOf, Shows,
         GapOf, StartsClear, ShowsMark, BehindData;
    var t := MarkedCellStream(before, data, marks);
    MarkedIsLawful(before, data, marks);
    if ids == [] {
      NoMarksLeft(marks, m, gap3, s);
      NothingLeft(c, t, marks, m, f, s);
    } else {
      var next := s + SectorLength(ids[0], gap3);
      FormattedSector(before, data, marks, ids, gap3, s, m, f);
      LongSector(ids[0], gap3);
      SectorsMarks(marks, m, ids, gap3, s);
      FormatGap(before, data, marks, ids, gap3, s);
      SectorAfter(c, t, marks, m, f, s, ids[0], gap3, xs[0]);
      RegionTail(c, t, s, ids[0], gap3, xs[0]);
      LaidSplit(data, s, ids, gap3);
      RegionsHold(c, before, data, marks, ids[1..], gap3, next, xs[1..], s + 66, PlaceOf(ids[0], s, xs[0]).at + 160);
      assert PlacesAfter(ids, gap3, s, xs)[1..] == PlacesAfter(ids[1..], gap3, next, xs[1..]);
    }
  }

  lemma NoMarksLeft(marks: set<nat>, m: nat, gap3: nat, s: nat)
    requires MarksFrom(marks, m, [], gap3, s)
    ensures forall k :: k in marks ==> k < m
  {}

  lemma NothingLeft(c: seq<bool>, t: seq<bool>, marks: set<nat>, m: nat, f: nat, s: nat)
    requires Lawful(t, marks) && 16 * m <= f && |c| == |t| && 16 * (s + 11) <= |t|
    requires Shows(c, t, [], 16 * (s + 11), |t|) && forall o: nat :: f <= o < 16 * (s + 11) ==> !SyncAt(c, o)
    requires forall k :: k in marks ==> k < m
    ensures forall o: nat :: f <= o ==> !SyncAt(c, o)
  {
    hide Lawful, SyncAt, Agree, Shows;
    UnwrittenAgrees(c, t, 16 * (s + 11), |t|);
    forall o: nat | f <= o
      ensures !SyncAt(c, o)
    {
      if o + 32 > |c| {
        SyncFits(c, o);
      } else if o >= 16 * (s + 11) {
        SyncAgrees(c, 16 * (s + 11), |t|, t, 0, o);
        SyncUnambiguous(t, marks, o);
      }
    }
  }

  lemma SectorsMarks(marks: set<nat>, m: nat, ids: seq<Idam>, gap3: nat, s: nat)
    requires MarksFrom(marks, m, ids, gap3, s) && ids != [] && m <= s
    ensures forall k :: k in marks && m <= k ==> s + 12 <= k && (s + 15 <= k ==> s + 56 <= k)
    ensures forall k :: k in marks && s + 66 <= k ==> s + SectorLength(ids[0], gap3) + 12 <= k
    ensures MarksFrom(marks, s + 66, ids[1..], gap3, s + SectorLength(ids[0], gap3))
  {
    hide MarksFrom, SectorLength, SixMarks;
    SectorMarks(marks, m, ids, gap3, s);
    LongSector(ids[0], gap3);
    forall k: nat | k in marks && m <= k && k < s + SectorLength(ids[0], gap3) + 12
      ensures s + 12 <= k <= s + 14 || s + 56 <= k <= s + 58
    {
      SixMarksFrom(s, k);
    }
  }

  /** The bytes a sector's data field holds. */
  function DataOf(id: Idam, ws: seq<Write>): seq<bv8> {
    if ws == [] then Fill(0xe2, SecBytes(id.n)) else ws[|ws| - 1].buf
  }

  lemma {:induction false} PlaceAfterIs(ids: seq<Idam>, gap3: nat, s: nat, xs: seq<seq<Write>>, k: nat)
    requires |xs| == |ids| && k < |ids|
    ensures PlacesAfter(ids, gap3, s, xs)[k] == PlaceOf(ids[k], StartOf(ids, gap3, s, k), xs[k])
    decreases k
  {
    hide PlaceOf, SectorLength;
    if k > 0 {
      PlaceAfterIs(ids[1..], gap3, s + SectorLength(ids[0], gap3), xs[1..], k - 1);
    }
  }

  lemma PlacesAfterIds(ids: seq<Idam>, gap3: nat, s: nat, xs: seq<seq<Write>>)
    requires |xs| == |ids|
    ensures Ids(PlacesAfter(ids, gap3, s, xs)) == ids
  {
    forall k: nat | k < |ids|
      ensures Ids(PlacesAfter(ids, gap3, s, xs))[k] == ids[k]
    {
      PlaceAfterIs(ids, gap3, s, xs, k);
    }
  }

  /** One sector of the converse: where it is found as it was written, its writes leave no false mark. */
  lemma ClearIfFound(c: seq<bool>, t: seq<bool>, marks: set<nat>, f: nat, s: nat, id: Idam, gap3: nat, ws: seq<Write>)
    requires Region(c, t, s, id, gap3, ws) && Lawful(t, marks) && GapOf(t, s) && SectorAt(c, f, PlaceOf(id, s, ws))
    requires forall m :: m in marks && s + 15 <= m ==> s + 56 <= m
    requires forall o: nat :: PlaceOf(id, s, ws).at + 160 <= o < 16 * (s + SectorLength(id, gap3) + 11) ==> !SyncAt(c, o)
    ensures Clear(t, s, id, gap3, ws)
  {
    hide Lawful, SyncAt, SectorLength, FitAll, GapOf, Spelled, Shows, NextBlock, FieldAt, IdamField, DamField, ShowsMark, Cells,
         Fill, SecBytes, BehindData;
    FitsStart(ws, s, id, gap3);
    RegionTail(c, t, s, id, gap3, ws);
    if ws != [] {
      var p := PlaceOf(id, s, ws);
      LastFits(c, t, s, id, gap3, ws);
      forall o: nat | 16 * (s + 42) <= o < ws[|ws| - 1].p
        ensures !Spelled(ws, s, o)
      {
        NoneInGap(c, t, ws, marks, s, o);
        BlockAlone(c, 16 * (s + 22), p.at, DamField(p.data)[..10], o);
      }
    }
  }

  lemma {:induction false} ClearIfHeld(c: seq<bool>, before: bv8, data: seq<bv8>, marks: set<nat>, ids: seq<Idam>, gap3: nat,
                                       s: nat, xs: seq<seq<Write>>, m: nat, f: nat)
    requires MarksOn(data, marks) && Laid(data, s, ids, gap3) && MarksFrom(marks, m, ids, gap3, s) && m <= s
    requires Regions(c, MarkedCellStream(before, data, marks), ids, gap3, s, xs)
    requires Holds(c, f, PlacesAfter(ids, gap3, s, xs))
    ensures AllClear(MarkedCellStream(before, data, marks), ids, gap3, s, xs)
    decreases |ids|
  {
    hide MarkedCellStream, Lawful, Laid, MarksOn, MarksFrom, SectorAt, SyncAt, Region, SectorLength, PlaceOf, GapOf, Clear,
         Shows;
    if ids != [] {
      var t, next, ps := MarkedCellStream(before, data, marks), s + SectorLength(ids[0], gap3), PlacesAfter(ids, gap3, s, xs);
      MarkedIsLawful(before, data, marks);
      SectorsMarks(marks, m, ids, gap3, s);
      FormatGap(before, data, marks, ids, gap3, s);
      assert ps[1..] == PlacesAfter(ids[1..], gap3, next, xs[1..]);
      NoneUntilNext(c, ps[0].at + 160, ids[1..], gap3, next, xs[1..]);
      ClearIfFound(c, t, marks, f, s, ids[0], gap3, xs[0]);
      LaidSplit(data, s, ids, gap3);
      LongSector(ids[0], gap3);
      ClearIfHeld(c, before, data, marks, ids[1..], gap3, next, xs[1..], s + 66, ps[0].at + 160);
    }
  }

  lemma NoneUntilNext(c: seq<bool>, f: nat, ids: seq<Idam>, gap3: nat, s: nat, xs: seq<seq<Write>>)
    requires |xs| == |ids| && Holds(c, f, PlacesAfter(ids, gap3, s, xs))
    ensures forall o: nat :: f <= o < 16 * (s + 11) ==> !SyncAt(c, o)
  {
    hide SyncAt, SectorAt, SectorLength;
    if ids != [] {
      var p := PlacesAfter(ids, gap3, s, xs)[0];
      assert p.s == s;
      forall o: nat | f <= o < 16 * (s + 11)
        ensures !SyncAt(c, o)
      {
        NoneBefore(c, f, p, o);
      }
    }
  }

  /** A track that has been written to holds its sectors, each with what was last written to it, if and only if the writes
      of no sector leave a false mark. */
  lemma TrackHoldsExactly(before: bv8, ids: seq<Idam>, gap3: nat, pad: bv8, log: seq<Event>)
    requires Fitting(ids, gap3, log)
    ensures var t, xs := TrackCells(before, ids, gap3, pad), Contents(|ids|, log);
            Holds(After(t, log), 0, PlacesAfter(ids, gap3, 64, xs)) <==> AllClear(t, ids, gap3, 64, xs)
  {
    hide PaddedTrack, TrackMarks, MarksOn, Laid, MarksFrom, Regions, After, Contents, Fitting, PlacesAfter, Holds,
         MarkedCellStream, AllClear, SyncAt, Shows;
    var t, data, marks := TrackCells(before, ids, gap3, pad), PaddedTrack(ids, gap3, pad), TrackMarks(ids, gap3);
    var c, xs := After(t, log), Contents(|ids|, log);
    TrackLaid(ids, gap3, pad);
    AllMarks(ids, gap3);
    TrackSize(before, ids, gap3, pad);
    WritesKeepRegions(t, ids, gap3, log);
    if AllClear(t, ids, gap3, 64, xs) {
      NoneAhead(before, ids, gap3, pad, c);
      RegionsHold(c, before, data, marks, ids, gap3, 64, xs, 0, 0);
    }
    if Holds(c, 0, PlacesAfter(ids, gap3, 64, xs)) {
      ClearIfHeld(c, before, data, marks, ids, gap3, 64, xs, 0, 0);
    }
  }

  lemma NoneAhead(before: bv8, ids: seq<Idam>, gap3: nat, pad: bv8, c: seq<bool>)
    requires Shows(c, TrackCells(before, ids, gap3, pad), [], 0, 16 * 80)
    ensures forall o: nat :: o < 16 * 75 ==> !SyncAt(c, o)
  {
    hide SyncAt, Shows, TrackCells, TrackMarks, Lawful, Agree;
    var t, marks := TrackCells(before, ids, gap3, pad), TrackMarks(ids, gap3);
    TrackCellsLawful(before, ids, gap3, pad);
    UnwrittenAgrees(c, t, 0, 16 * 80);
    FirstMark(ids, gap3);
    forall o: nat | o < 16 * 75
      ensures !SyncAt(c, o)
    {
      SyncAgrees(c, 0, 16 * 80, t, 0, o);
      SyncUnambiguous(t, marks, o);
    }
  }

  lemma FirstMark(ids: seq<Idam>, gap3: nat)
    ensures forall m :: m in TrackMarks(ids, gap3) ==> m >= 76
  {
    hide MarkSet, Sectors;
    MarkSetBounds(ids, gap3, 64);
  }

  lemma TrackSize(before: bv8, ids: seq<Idam>, gap3: nat, pad: bv8)
    ensures |TrackCells(before, ids, gap3, pad)| >= 16 * (128 + TotalLength(ids, gap3))
  {
    hide Sectors, TotalLength, MarkedBytes, BitsOf;
    SectorsLength(ids, gap3);
  }

  /** Fewer than eight writes of the sector had an odd byte before them, and the stops that show are clear. */
  ghost predicate Seldom(ws: seq<Write>) { OddWrites(ws) < 8 && StopsClear(ws) }

  lemma {:induction false} SeldomClear(c: seq<bool>, before: bv8, data: seq<bv8>, marks: set<nat>, ids: seq<Idam>, gap3: nat,
                                       s: nat, xs: seq<seq<Write>>, m: nat)
    requires MarksOn(data, marks) && Laid(data, s, ids, gap3) && MarksFrom(marks, m, ids, gap3, s) && m <= s
    requires Regions(c, MarkedCellStream(before, data, marks), ids, gap3, s, xs)
    requires forall k :: 0 <= k < |xs| ==> Seldom(xs[k])
    ensures AllClear(MarkedCellStream(before, data, marks), ids, gap3, s, xs)
    decreases |ids|
  {
    hide MarkedCellStream, Lawful, Laid, MarksOn, MarksFrom, SectorLength, StartsClear, EndsClear, OddWrites, StopsClear,
         Shows, FitAll;
    if ids != [] {
      var next := s + SectorLength(ids[0], gap3);
      assert Seldom(xs[0]);
      MarkedIsLawful(before, data, marks);
      SectorsMarks(marks, m, ids, gap3, s);
      FitsStart(xs[0], s, ids[0], gap3);
      FewStarts(xs[0], s);
      StopsKeepEnds(xs[0], MarkedCellStream(before, data, marks), marks, s, 16 * (next + 11));
      LaidSplit(data, s, ids, gap3);
      LongSector(ids[0], gap3);
      SeldomClear(c, before, data, marks, ids[1..], gap3, next, xs[1..], s + 66);
    }
  }

  /** A condition that is easy to keep to: it is enough that this holds of every sector. */
  lemma SeldomIsClear(before: bv8, ids: seq<Idam>, gap3: nat, pad: bv8, log: seq<Event>)
    requires Fitting(ids, gap3, log) && forall k :: 0 <= k < |ids| ==> Seldom(Contents(|ids|, log)[k])
    ensures AllClear(TrackCells(before, ids, gap3, pad), ids, gap3, 64, Contents(|ids|, log))
  {
    hide PaddedTrack, TrackMarks, MarksOn, Laid, MarksFrom, Regions, After, Contents, Fitting, MarkedCellStream, AllClear,
         Seldom, Shows;
    var t := TrackCells(before, ids, gap3, pad);
    TrackLaid(ids, gap3, pad);
    AllMarks(ids, gap3);
    TrackSize(before, ids, gap3, pad);
    WritesKeepRegions(t, ids, gap3, log);
    SeldomClear(After(t, log), before, PaddedTrack(ids, gap3, pad), TrackMarks(ids, gap3), ids, gap3, 64,
                Contents(|ids|, log), 0);
  }

  /** And it holds of a sector written no more than twice, wherever the writes start, if each ends in a gap. */
  lemma TwiceIsSeldom(ws: seq<Write>, s: nat)
    requires AllStartIn(ws, s) && |ws| <= 2 && Gapped(ws)
    ensures Seldom(ws)
  {
    hide OddWrites, StopsClear, Gapped, AllStartIn;
    FewOdd(ws);
    TwoWritesClear(ws, s);
  }

  /** After any run of writes that leaves no false mark a scan still reports every address in order, any sector can still
      be searched for, and the read that follows delivers what was last written to it, or what the format put there. */
  lemma TrackAfterWrites(before: bv8, ids: seq<Idam>, gap3: nat, pad: bv8, log: seq<Event>, latency: nat -> nat, id: Idam,
                         k: nat, late: nat)
    requires Fitting(ids, gap3, log) && FirstWith(ids, id, k)
    requires AllClear(TrackCells(before, ids, gap3, pad), ids, gap3, 64, Contents(|ids|, log))
    requires late <= MAX_LATENCY && forall j :: latency(j) <= MAX_LATENCY
    ensures var c := After(TrackCells(before, ids, gap3, pad), log);
            var end := Search(c, 0, latency, 0, id);
            && Scan(c, 0, latency, 0) == ids
            && end == 16 * (StartOf(ids, gap3, 64, k) + 22)
            && FieldAt(c, NextSync(c, end + late), DataOf(id, Contents(|ids|, log)[k]))
  {
    hide TrackCells, After, Contents, Fitting, PlacesAfter, Holds, Scan, Search, NextSync, FieldAt, Fill, SecBytes, Ids,
         StartOf, AllClear;
    var c, xs := After(TrackCells(before, ids, gap3, pad), log), Contents(|ids|, log);
    var ps := PlacesAfter(ids, gap3, 64, xs);
    TrackHoldsExactly(before, ids, gap3, pad, log);
    ScanHolds(c, 0, ps, latency, 0);
    PlacesAfterIds(ids, gap3, 64, xs);
    SearchHolds(c, 0, ps, 0, latency, 0, id);
    var j := FindIs(ps, id);
    assert ids[k] in ids;
    OneFirst(ids, id, j, k);
    PlaceAfterIs(ids, gap3, 64, xs, k);
    FieldHolds(c, 0, ps, k, late);
  }

  // ----- when a false mark is read

  lemma {:induction false} RegionAt(c: seq<bool>, data: seq<bv8>, marks: set<nat>, t: seq<bool>, ids: seq<Idam>, gap3: nat,
                                    s: nat, xs: seq<seq<Write>>, m: nat, k: nat)
    requires Laid(data, s, ids, gap3) && MarksFrom(marks, m, ids, gap3, s) && m <= s && k < |ids|
    requires Regions(c, t, ids, gap3, s, xs)
    ensures var b := StartOf(ids, gap3, s, k);
            && Laid(data, b, ids[k..], gap3) && Region(c, t, b, ids[k], gap3, xs[k])
            && forall j :: j in marks && b + 15 <= j ==> b + 56 <= j
    decreases k
  {
    hide Laid, MarksFrom, Region, SectorLength;
    SectorsMarks(marks, m, ids, gap3, s);
    if k == 0 {
      assert ids[0..] == ids;
    } else {
      LaidSplit(data, s, ids, gap3);
      LongSector(ids[0], gap3);
      assert ids[1..][k - 1..] == ids[k..];
      RegionAt(c, data, marks, t, ids[1..], gap3, s + SectorLength(ids[0], gap3), xs[1..], s + 66, k - 1);
    }
  }

  /** The read that follows a search for a written sector stops at its true mark if and only if the starts of the writes
      spell no other before it. */
  lemma NextMarkExactly(before: bv8, ids: seq<Idam>, gap3: nat, pad: bv8, log: seq<Event>, k: nat)
    requires Fitting(ids, gap3, log) && k < |ids| && Contents(|ids|, log)[k] != []
    ensures var c, s, ws := After(TrackCells(before, ids, gap3, pad), log), StartOf(ids, gap3, 64, k), Contents(|ids|, log)[k];
            && 16 * (s + 22) <= NextSync(c, 16 * (s + 22)) <= ws[|ws| - 1].p + 192
            && (NextSync(c, 16 * (s + 22)) == ws[|ws| - 1].p + 192 <==> StartsClear(ws, s))
  {
    hide PaddedTrack, TrackMarks, MarksOn, Laid, MarksFrom, Regions, After, Contents, Fitting, MarkedCellStream, StartOf, Region,
         Shows;
    var t, data, marks := TrackCells(before, ids, gap3, pad), PaddedTrack(ids, gap3, pad), TrackMarks(ids, gap3);
    var c, xs, s := After(t, log), Contents(|ids|, log), StartOf(ids, gap3, 64, k);
    TrackLaid(ids, gap3, pad);
    AllMarks(ids, gap3);
    TrackSize(before, ids, gap3, pad);
    WritesKeepRegions(t, ids, gap3, log);
    RegionAt(c, data, marks, t, ids, gap3, 64, xs, 0, k);
    assert ids[k..][0] == ids[k];
    FormatGap(before, data, marks, ids[k..], gap3, s);
    TrackCellsLawful(before, ids, gap3, pad);
    NextInRegion(c, t, marks, s, ids[k], gap3, xs[k]);
  }

  lemma NextInRegion(c: seq<bool>, t: seq<bool>, marks: set<nat>, s: nat, id: Idam, gap3: nat, ws: seq<Write>)
    requires Region(c, t, s, id, gap3, ws) && ws != [] && Lawful(t, marks) && GapOf(t, s)
    requires forall m :: m in marks && s + 15 <= m ==> s + 56 <= m
    ensures var q, at := 16 * (s + 22), ws[|ws| - 1].p + 192;
            q <= NextSync(c, q) <= at && (NextSync(c, q) == at <==> StartsClear(ws, s))
  {
    hide Lawful, SyncAt, SectorLength, FitAll, GapOf, Spelled, Shows, Cells, FieldAt, DamField, Agree, SecBytes, NextSync;
    FitsStart(ws, s, id, gap3);
    LastStarts(ws, s);
    LastFits(c, t, s, id, gap3, ws);
    var w, q := ws[|ws| - 1], 16 * (s + 22);
    WriteHolds(w);
    PartAgree(c, w.p, Stop(w), Cells(w), w.p, w.p + 192, Stop(w));
    MarkAgrees(c, Stop(w), Cells(w), w.p, 192, DamField(w.buf)[..10]);
    var o := NextSync(c, q);
    if o < w.p + 192 { NoneInGap(c, t, ws, marks, s, o); }
    if !StartsClear(ws, s) {
      var o': nat :| 16 * (s + 42) <= o' < w.p && Spelled(ws, s, o');
      NoneInGap(c, t, ws, marks, s, o');
    }
  }

  // ----- eight writes that hide a sector

  /** The first n of eight writes of the first sector, an odd byte before each. */
  function Stepped(buf: seq<bv8>, n: nat): (log: seq<Event>)
    requires n <= 8
    ensures |log| == n
  {
    seq(n, i requires 0 <= i < n => Event(0, Write(16 * (64 + 44) + STEPS[i], 0x01, buf, 4)))
  }

  function SteppedWrites(buf: seq<bv8>, n: nat): (ws: seq<Write>)
    requires n <= 8
    ensures |ws| == n
  {
    seq(n, i requires 0 <= i < n => Stepped(buf, n)[i].w)
  }

  lemma {:induction false} SteppedContents(buf: seq<bv8>, n: nat)
    requires n <= 8
    ensures Contents(1, Stepped(buf, n)) == [SteppedWrites(buf, n)]
    decreases n
  {
    if n > 0 {
      SteppedContents(buf, n - 1);
      assert Stepped(buf, n)[..n - 1] == Stepped(buf, n - 1);
      assert SteppedWrites(buf, n) == SteppedWrites(buf, n - 1) + [Stepped(buf, n)[n - 1].w];
    } else {
      assert SteppedWrites(buf, 0) == [];
    }
  }

  lemma StepsInRange(i: nat)
    requires i < 8
    ensures 2 <= STEPS[i] <= 28
  {
    if i == 0 {} else if i == 1 {} else if i == 2 {} else if i == 3 {} else if i == 4 {} else if i == 5 {} else if i == 6 {} else {}
  }

  /** On a track of one sector, eight writes of it that fit, each begun a few cells later than the one before, leave a
      false mark: the read that follows a search stops there, whatever was written. */
  lemma EightWritesFail(before: bv8, id: Idam, gap3: nat, pad: bv8, buf: seq<bv8>)
    requires |buf| == SecBytes(id.n) && gap3 >= 6
    ensures Fitting([id], gap3, Stepped(buf, 8)) && Contents(1, Stepped(buf, 8)) == [SteppedWrites(buf, 8)]
    ensures var c := After(TrackCells(before, [id], gap3, pad), Stepped(buf, 8));
            16 * (64 + 22) <= NextSync(c, 16 * (64 + 22)) < 16 * (64 + 44) + STEPS[7] + 192
  {
    hide SecBytes, Stop, Odd, After, TrackCells, NextSync, StartsClear, Contents;
    var ws := SteppedWrites(buf, 8);
    SteppedContents(buf, 8);
    forall i | 0 <= i < 8
      ensures FitsTrack([id], gap3, Stepped(buf, 8)[i]) && Odd(ws[i])
    {
      StepsInRange(i);
      TimelyWriteFits(ws[i], 64, id, gap3);
      OneIsOdd(ws[i]);
    }
    FitsStart(ws, 64, id, gap3);
    EightSpell(ws, 64);
    NextMarkExactly(before, [id], gap3, pad, Stepped(buf, 8), 0);
  }

  lemma OneIsOdd(w: Write)
    requires w.before == 0x01
    ensures Odd(w)
  {}
}
