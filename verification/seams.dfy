/** What shows where sectors have been written over one another: the cells at the seams, and when they can form a sync
    mark of their own. */
module Seams {
  import opened Arithmetic
  import opened Bits
  import opened Mfm
  import opened Stream
  import opened Marks
  import opened IbmLayout
  import opened Splice
  import Ibm

  /** A write of one sector: the cell at which it starts, the byte before its buffer, its data and its last gap. */
  datatype Write = Write(p: nat, before: bv8, buf: seq<bv8>, gap3: nat)

  function Cells(w: Write): seq<bool> { Ibm.SectorCells(w.before, w.buf, w.gap3) }

  function Stop(w: Write): nat { w.p + |Cells(w)| }

  /** The byte before the buffer ends in a one, so the first clock of the write is missing. */
  predicate Odd(w: Write) { Bit(w.before, 7) }

  /** Cell x of a stretch of track t after these writes. */
  function Shown(ws: seq<Write>, t: seq<bool>, x: nat): bool
    requires x < |t|
    decreases |ws|
  {
    if ws == [] then t[x]
    else
      var w := ws[|ws| - 1];
      if w.p <= x < Stop(w) then Cells(w)[x - w.p] else Shown(ws[..|ws| - 1], t, x)
  }

  // ----- single words

  /** The cells of a word no mark has been put over. */
  lemma PlainCell(before: bv8, data: seq<bv8>, marks: set<nat>, n: nat, i: nat)
    requires MarksOn(data, marks) && n < |data| && n !in marks && i < 8
    ensures var c := MarkedCellStream(before, data, marks);
            var last := if i > 0 then Bit(data[n], i - 1) else Bit(if n > 0 then data[n - 1] else before, 7);
            && c[16 * n + 2 * i + 1] == Bit(data[n], i)
            && c[16 * n + 2 * i] == (!Bit(data[n], i) && !last)
  {
    hide BitsOf, Bit, Encode, MarkedBytes, MarksOn;
    PatchedCell(before, data, marks, 16 * n + 2 * i);
    PatchedCell(before, data, marks, 16 * n + 2 * i + 1);
    EncodeDataCell(before, data, n, i);
    EncodeClockCell(before, data, n, i);
    BitAt(data, n, i);
    if i > 0 {
      BitAt(data, n, i - 1);
    } else if n > 0 {
      BitAt(data, n - 1, 7);
    }
  }

  lemma ZeroBit(i: nat)
    requires i < 8
    ensures !Bit(0x00, i)
  {
    if i == 0 {} else if i == 1 {} else if i == 2 {} else if i == 3 {}
    else if i == 4 {} else if i == 5 {} else if i == 6 {} else {}
  }

  /** A zero byte: clocks alone, the first missing behind a one. */
  lemma ZeroWord(before: bv8, data: seq<bv8>, marks: set<nat>, n: nat, j: nat)
    requires MarksOn(data, marks) && n < |data| && n !in marks && j < 16 && data[n] == 0x00
    ensures MarkedCellStream(before, data, marks)[16 * n + j]
         == (j % 2 == 0 && !(j == 0 && Bit(if n > 0 then data[n - 1] else before, 7)))
  {
    hide Bit, MarkedCellStream, MarksOn;
    PlainCell(before, data, marks, n, j / 2);
    ZeroBit(j / 2);
    if j / 2 > 0 { ZeroBit(j / 2 - 1); }
    assert j == 2 * (j / 2) + j % 2;
  }

  /** 0x9254: a gap byte 0x4e behind a zero bit. */
  const GAP_WORD: seq<bool> := [
    true, false, false, true, false, false, true, false,
    false, true, false, true, false, true, false, false
  ]

  lemma GapBit(i: nat)
    requires i < 8
    ensures Bit(0x4e, i) == GAP_WORD[2 * i + 1]
    ensures i > 0 ==> GAP_WORD[2 * i] == (!Bit(0x4e, i) && !Bit(0x4e, i - 1))
  {
    if i == 0 {} else if i == 1 {} else if i == 2 {} else if i == 3 {}
    else if i == 4 {} else if i == 5 {} else if i == 6 {} else {}
  }

  lemma GapEndsInZero()
    ensures !Bit(0x4e, 7) && GAP_WORD[0]
  {}

  lemma GapWord(before: bv8, data: seq<bv8>, marks: set<nat>, n: nat, j: nat)
    requires MarksOn(data, marks) && 0 < n < |data| && n !in marks && j < 16 && data[n] == 0x4e
    requires j > 0 || data[n - 1] == 0x4e
    ensures MarkedCellStream(before, data, marks)[16 * n + j] == GAP_WORD[j]
  {
    hide Bit, MarkedCellStream, MarksOn;
    PlainCell(before, data, marks, n, j / 2);
    GapBit(j / 2);
    GapEndsInZero();
    GapBit(0);
    assert j == 2 * (j / 2) + j % 2;
  }

  // ----- the gap before a data mark

  /** The format's own cells from two words before the end of gap 2 to its data mark. */
  function FormatCell(s: nat, x: nat): bool {
    if x >= 16 * (s + 44) then x % 2 == 0 else GAP_WORD[x % 16]
  }

  predicate GapOf(t: seq<bool>, s: nat) {
    16 * (s + 56) <= |t| && forall x :: 16 * (s + 42) <= x < 16 * (s + 56) ==> t[x] == FormatCell(s, x)
  }

  /** The cells there after writes that start there: a write shows clocks alone, and the first only behind a zero. */
  function GapCell(ws: seq<Write>, s: nat, x: nat): bool
    decreases |ws|
  {
    if ws == [] then FormatCell(s, x)
    else
      var w := ws[|ws| - 1];
      if w.p <= x then (x - w.p) % 2 == 0 && !(x == w.p && Odd(w)) else GapCell(ws[..|ws| - 1], s, x)
  }

  /** The write starts no sooner than gap 2 ends and no later than the formatted data mark, and holds a sector. */
  predicate StartsIn(w: Write, s: nat) {
    16 * (s + 44) <= w.p <= 16 * (s + 56) && |w.buf| >= 128 && |w.buf| % 2 == 0
  }

  predicate AllStartIn(ws: seq<Write>, s: nat) {
    forall i :: 0 <= i < |ws| ==> StartsIn(ws[i], s)
  }

  lemma WriteSize(w: Write)
    ensures |Cells(w)| == 16 * |Ibm.SectorWrite(w.buf, w.gap3)| >= 16 * (18 + |w.buf|)
  {
    hide DamField, MarkedBytes, BitsOf;
  }

  lemma WriteGap(w: Write, x: nat)
    requires x < 192
    ensures x < |Cells(w)| && Cells(w)[x] == (x % 2 == 0 && !(x == 0 && Odd(w)))
  {
    hide Odd, MarkedCellStream, Ibm.SectorWrite, MarksOn;
    var d := Ibm.SectorWrite(w.buf, w.gap3);
    WriteSize(w);
    WriteBytes(w);
    ZeroWord(w.before, d, Ibm.SECTOR_MARKS, x / 16, x % 16);
    if x / 16 > 0 { ZeroBit(7); }
    OddIs(w);
    assert x == 16 * (x / 16) + x % 16 && x % 16 % 2 == x % 2;
  }

  lemma OddIs(w: Write)
    ensures Odd(w) == Bit(w.before, 7)
  {}

  lemma WriteBytes(w: Write)
    ensures var d := Ibm.SectorWrite(w.buf, w.gap3);
            && |d| >= 18 + |w.buf| && MarksOn(d, Ibm.SECTOR_MARKS)
            && (forall n :: 0 <= n < 12 ==> d[n] == 0x00)
            && (forall n :: 18 + |w.buf| <= n < |d| ==> d[n] == 0x4e)
            && |d| == 18 + |w.buf| + w.gap3 + (18 + |w.buf| + w.gap3) % 2
  {
    hide DamField;
    Ibm.SectorWriteParts(w.buf, w.gap3);
  }

  lemma {:induction false} ShownInGap(ws: seq<Write>, t: seq<bool>, s: nat, x: nat)
    requires GapOf(t, s) && AllStartIn(ws, s)
    requires 16 * (s + 42) <= x < |t| && x < (if ws == [] then 16 * (s + 56) else ws[|ws| - 1].p + 192)
    ensures Shown(ws, t, x) == GapCell(ws, s, x)
    decreases |ws|
  {
    hide Cells, FormatCell, Odd;
    if ws != [] {
      var w := ws[|ws| - 1];
      WriteSize(w);
      if w.p <= x {
        WriteGap(w, x - w.p);
      } else {
        ShownInGap(ws[..|ws| - 1], t, s, x);
      }
    }
  }

  /** The starts of these writes spell a sync mark at cell o. */
  predicate Spelled(ws: seq<Write>, s: nat, o: nat) {
    forall j: nat :: j < 32 ==> GapCell(ws, s, o + j) == SYNC_PAIR[j]
  }

  /** They spell none before the last of them has put its own. */
  predicate StartsClear(ws: seq<Write>, s: nat) {
    ws != [] ==> forall o: nat :: 16 * (s + 42) <= o < ws[|ws| - 1].p ==> !Spelled(ws, s, o)
  }

  // ----- how many starts a false mark takes

  /** A write with an odd byte before it starts at cell y, and no later write hides that cell. */
  predicate OddStart(ws: seq<Write>, y: nat)
    decreases |ws|
  {
    ws != [] &&
    var w := ws[|ws| - 1];
    (w.p == y && Odd(w)) || (w.p > y && OddStart(ws[..|ws| - 1], y))
  }

  /** Two empty cells in a row betray one. */
  lemma {:induction false} TwoEmpty(ws: seq<Write>, s: nat, x: nat)
    requires AllStartIn(ws, s) && 16 * (s + 44) <= x && !GapCell(ws, s, x) && !GapCell(ws, s, x + 1)
    ensures OddStart(ws, x) || OddStart(ws, x + 1)
    decreases |ws|
  {
    hide Odd, FormatCell;
    FormatClocks(s, x);
    if ws != [] {
      var w := ws[|ws| - 1];
      if w.p > x + 1 {
        TwoEmpty(ws[..|ws| - 1], s, x);
      } else if w.p <= x {
        EveryOther(x - w.p);
      }
    }
  }

  lemma FormatClocks(s: nat, x: nat)
    requires 16 * (s + 44) <= x
    ensures FormatCell(s, x) || FormatCell(s, x + 1)
  {
    EveryOther(x);
  }

  lemma EveryOther(d: nat)
    ensures d % 2 == 0 || (d + 1) % 2 == 0
  {}

  /** So does an empty cell where gap 2 ends. */
  lemma {:induction false} FirstEmpty(ws: seq<Write>, s: nat, x: nat)
    requires AllStartIn(ws, s) && x == 16 * (s + 44) && !GapCell(ws, s, x)
    ensures OddStart(ws, x)
    decreases |ws|
  {
    hide Odd, FormatCell;
    if ws == [] {
      GapEnds(s);
    } else {
      var w := ws[|ws| - 1];
      assert StartsIn(w, s);
      if w.p > x {
        FirstEmpty(ws[..|ws| - 1], s, x);
      }
    }
  }

  lemma GapEnds(s: nat)
    ensures FormatCell(s, 16 * (s + 44))
  {
    TwiceIsEven(8 * (s + 44));
    assert 2 * (8 * (s + 44)) == 16 * (s + 44);
  }

  lemma {:induction false} BeforeGap(ws: seq<Write>, s: nat, x: nat)
    requires AllStartIn(ws, s) && x < 16 * (s + 44)
    ensures GapCell(ws, s, x) == GAP_WORD[x % 16]
    decreases |ws|
  {
    hide Odd;
    if ws != [] {
      assert StartsIn(ws[|ws| - 1], s);
      BeforeGap(ws[..|ws| - 1], s, x);
    }
  }

  lemma ThreeOf(r: nat)
    requires r < 16
    ensures GAP_WORD[r] || GAP_WORD[if r < 15 then r + 1 else 0] || GAP_WORD[if r < 14 then r + 2 else r - 14]
  {
    if r < 8 {
      if r == 0 {} else if r == 1 {} else if r == 2 {} else if r == 3 {} else if r == 4 {} else if r == 5 {} else {}
    } else {
      if r == 8 {} else if r == 9 {} else if r == 10 {} else if r == 11 {} else if r == 12 {} else if r == 13 {} else {}
    }
  }

  /** Gap bytes never leave three cells in a row empty. */
  lemma NoThreeEmpty(x: nat)
    ensures GAP_WORD[x % 16] || GAP_WORD[(x + 1) % 16] || GAP_WORD[(x + 2) % 16]
  {
    var r := x % 16;
    ThreeOf(r);
    assert (x + 1) % 16 == (if r < 15 then r + 1 else 0) && (x + 2) % 16 == (if r < 14 then r + 2 else r - 14);
  }

  lemma SpelledAt(ws: seq<Write>, s: nat, o: nat, j: nat)
    requires Spelled(ws, s, o) && j < 32
    ensures GapCell(ws, s, o + j) == SYNC_PAIR[j]
  {}

  lemma PairGaps()
    ensures forall j :: (2 <= j <= 4 || 6 <= j <= 7 || 9 <= j <= 11 || 13 <= j <= 14 || 18 <= j <= 20 || 22 <= j <= 23
                         || 25 <= j <= 27 || 29 <= j <= 30) ==> !SYNC_PAIR[j]
  {}

  /** Every long gap of a false mark but the first has an odd start in it. */
  lemma GapStart(ws: seq<Write>, s: nat, o: nat, j: nat) returns (y: nat)
    requires AllStartIn(ws, s) && Spelled(ws, s, o) && 16 * (s + 44) <= o + j && j < 31
    requires !SYNC_PAIR[j] && !SYNC_PAIR[j + 1]
    ensures o + j <= y <= o + j + 1 && OddStart(ws, y)
  {
    hide GapCell, OddStart, StartsIn, Spelled;
    SpelledAt(ws, s, o, j);
    SpelledAt(ws, s, o, j + 1);
    TwoEmpty(ws, s, o + j);
    y := if OddStart(ws, o + j) then o + j else o + j + 1;
  }

  /** And so has the first, which can reach back into gap 2. */
  lemma FirstStart(ws: seq<Write>, s: nat, o: nat) returns (y: nat)
    requires AllStartIn(ws, s) && Spelled(ws, s, o)
    ensures o + 2 <= y <= o + 4 && OddStart(ws, y) && 16 * (s + 44) <= o + 4
  {
    hide GapCell, OddStart, StartsIn, Spelled;
    PairGaps();
    var at := 16 * (s + 44);
    SpelledAt(ws, s, o, 2);
    SpelledAt(ws, s, o, 3);
    SpelledAt(ws, s, o, 4);
    if o + 4 < at {
      BeforeGap(ws, s, o + 2);
      BeforeGap(ws, s, o + 3);
      BeforeGap(ws, s, o + 4);
      NoThreeEmpty(o + 2);
      assert false;
    } else if o + 4 == at {
      FirstEmpty(ws, s, at);
      y := at;
    } else {
      y := GapStart(ws, s, o, 3);
    }
  }

  /** The cells from lo up to hi at which such a write starts. */
  ghost function OddStarts(ws: seq<Write>, lo: nat, hi: nat): set<nat> {
    set y: nat | lo <= y < hi && OddStart(ws, y)
  }

  /** One more start above those found. */
  lemma OneMore(ws: seq<Write>, lo: nat, hi: nat, b: set<nat>, top: nat, y: nat) returns (b': set<nat>)
    requires b <= OddStarts(ws, lo, hi) && (forall z :: z in b ==> z < top) && top <= y
    requires lo <= y < hi && OddStart(ws, y)
    ensures b' <= OddStarts(ws, lo, hi) && |b'| == |b| + 1 && forall z :: z in b' ==> z < y + 1
  {
    hide OddStart;
    b' := b + {y};
  }

  lemma NoMore(b: set<nat>, a: set<nat>)
    requires b <= a
    ensures |b| <= |a|
    decreases |b|
  {
    if b != {} {
      var x :| x in b;
      NoMore(b - {x}, a - {x});
    }
  }

  /** A false mark takes eight odd starts within twenty-nine cells. */
  lemma EightStarts(ws: seq<Write>, s: nat, o: nat)
    requires AllStartIn(ws, s) && Spelled(ws, s, o)
    ensures |OddStarts(ws, o + 2, o + 31)| >= 8
  {
    hide Spelled, OddStart, AllStartIn, OddStarts;
    PairGaps();
    var lo, hi := o + 2, o + 31;
    var y := FirstStart(ws, s, o);
    var b := OneMore(ws, lo, hi, {}, 0, y);
    y := GapStart(ws, s, o, 6);
    b := OneMore(ws, lo, hi, b, o + 5, y);
    y := GapStart(ws, s, o, 9);
    b := OneMore(ws, lo, hi, b, o + 8, y);
    y := GapStart(ws, s, o, 13);
    b := OneMore(ws, lo, hi, b, o + 12, y);
    y := GapStart(ws, s, o, 18);
    b := OneMore(ws, lo, hi, b, o + 16, y);
    y := GapStart(ws, s, o, 22);
    b := OneMore(ws, lo, hi, b, o + 20, y);
    y := GapStart(ws, s, o, 25);
    b := OneMore(ws, lo, hi, b, o + 24, y);
    y := GapStart(ws, s, o, 29);
    b := OneMore(ws, lo, hi, b, o + 28, y);
    NoMore(b, OddStarts(ws, lo, hi));
  }

  /** Writes whose byte before the buffer is odd. */
  function OddWrites(ws: seq<Write>): nat
    decreases |ws|
  {
    if ws == [] then 0 else OddWrites(ws[..|ws| - 1]) + (if Odd(ws[|ws| - 1]) then 1 else 0)
  }

  lemma {:induction false} StartsCounted(ws: seq<Write>, lo: nat, hi: nat)
    ensures |OddStarts(ws, lo, hi)| <= OddWrites(ws)
    decreases |ws|
  {
    hide Odd;
    if ws == [] {
      assert OddStarts(ws, lo, hi) == {};
    } else {
      var init, w := ws[..|ws| - 1], ws[|ws| - 1];
      StartsCounted(init, lo, hi);
      var a := OddStarts(init, lo, hi) + (if Odd(w) then {w.p} else {});
      NoMore(OddStarts(ws, lo, hi), a);
    }
  }

  /** So fewer than eight such writes of a sector never spell a mark, wherever they start. */
  lemma FewStarts(ws: seq<Write>, s: nat)
    requires AllStartIn(ws, s) && OddWrites(ws) < 8
    ensures StartsClear(ws, s)
  {
    hide Spelled, AllStartIn, OddStarts, OddWrites;
    if ws != [] {
      forall o: nat | 16 * (s + 42) <= o < ws[|ws| - 1].p
        ensures !Spelled(ws, s, o)
      {
        if Spelled(ws, s, o) {
          EightStarts(ws, s, o);
          StartsCounted(ws, o + 2, o + 31);
        }
      }
    }
  }

  // ----- a case of eight

  /** The starts, counted from the end of gap 2. */
  const STEPS: seq<nat> := [2, 5, 9, 12, 18, 21, 25, 28]

  /** The first n of eight writes with an odd byte before the buffer, each a little later than the one before. */
  predicate Stepping(ws: seq<Write>, s: nat) {
    |ws| <= 8 && forall i :: 0 <= i < |ws| ==> ws[i].p == 16 * (s + 44) + STEPS[i] && Odd(ws[i])
  }

  /** What n of them show d cells behind the end of gap 2. */
  function StepCell(n: nat, d: nat): bool
    requires n <= 8
    decreases n
  {
    if n == 0 then d % 2 == 0
    else if STEPS[n - 1] <= d then (d - STEPS[n - 1]) % 2 == 0 && d != STEPS[n - 1]
    else StepCell(n - 1, d)
  }

  lemma {:induction false} StepShown(ws: seq<Write>, s: nat, d: nat)
    requires Stepping(ws, s)
    ensures GapCell(ws, s, 16 * (s + 44) + d) == StepCell(|ws|, d)
    decreases |ws|
  {
    hide Odd;
    var x := 16 * (s + 44) + d;
    if ws == [] {
      SameParity(8 * (s + 44), d);
    } else {
      var w := ws[|ws| - 1];
      assert w.p == 16 * (s + 44) + STEPS[|ws| - 1] && Odd(w);
      if w.p > x {
        StepShown(ws[..|ws| - 1], s, d);
      }
    }
  }

  lemma SameParity(h: nat, d: nat)
    ensures (2 * h + d) % 2 == d % 2
  {}

  lemma StepsSpell(d: nat)
    requires d < 31
    ensures StepCell(8, d) == SYNC_PAIR[d + 1]
  {
    if d < 8 {
      if d == 0 {} else if d == 1 {} else if d == 2 {} else if d == 3 {} else if d == 4 {} else if d == 5 {} else if d == 6 {} else {}
    } else if d < 16 {
      if d == 8 {} else if d == 9 {} else if d == 10 {} else if d == 11 {} else if d == 12 {} else if d == 13 {} else if d == 14 {} else {}
    } else if d < 24 {
      if d == 16 {} else if d == 17 {} else if d == 18 {} else if d == 19 {} else if d == 20 {} else if d == 21 {} else if d == 22 {} else {}
    } else {
      if d == 24 {} else if d == 25 {} else if d == 26 {} else if d == 27 {} else if d == 28 {} else if d == 29 {} else {}
    }
  }

  /** All eight spell a mark that begins in the last cell of gap 2. */
  lemma EightSpell(ws: seq<Write>, s: nat)
    requires Stepping(ws, s) && |ws| == 8 && AllStartIn(ws, s)
    ensures Spelled(ws, s, 16 * (s + 44) - 1) && !StartsClear(ws, s)
  {
    hide GapCell, StepCell, Odd, StartsIn;
    var o := 16 * (s + 44) - 1;
    forall j: nat | j < 32
      ensures GapCell(ws, s, o + j) == SYNC_PAIR[j]
    {
      if j == 0 {
        BeforeGap(ws, s, o);
        assert o % 16 == 15;
      } else {
        StepShown(ws, s, j - 1);
        StepsSpell(j - 1);
      }
    }
    assert ws[7].p == 16 * (s + 44) + STEPS[7];
  }

  // ----- where writes stop

  /** A write stops at cell y, and no later one reaches it. */
  predicate StopShown(ws: seq<Write>, y: nat)
    decreases |ws|
  {
    ws != [] &&
    var w := ws[|ws| - 1];
    Stop(w) == y || (Stop(w) < y && StopShown(ws[..|ws| - 1], y))
  }

  predicate Gapped(ws: seq<Write>) {
    forall i :: 0 <= i < |ws| ==> ws[i].gap3 > 0
  }

  /** No two stops that show are within a mark's length of one another; or no three, when every write ends in a gap. */
  ghost predicate StopsClear(ws: seq<Write>) {
    || (forall y: nat, y': nat :: StopShown(ws, y) && StopShown(ws, y') && y < y' ==> y + 31 <= y')
    || (Gapped(ws) && forall y: nat, y': nat, y'': nat ::
          StopShown(ws, y) && StopShown(ws, y') && StopShown(ws, y'') && y < y' < y'' ==> y + 31 <= y'')
  }

  /** Which write shows at cell x behind all their starts, or -1 for the track beneath. */
  function Source(ws: seq<Write>, x: nat): (i: int)
    ensures -1 <= i < |ws|
    decreases |ws|
  {
    hide Stop;
    if ws == [] then -1
    else if x < Stop(ws[|ws| - 1]) then |ws| - 1
    else Source(ws[..|ws| - 1], x)
  }

  function PieceOf(ws: seq<Write>, t: seq<bool>, i: int): seq<bool>
    requires -1 <= i < |ws|
  {
    if i < 0 then t else Cells(ws[i])
  }

  function ShiftOf(ws: seq<Write>, i: int): nat
    requires -1 <= i < |ws|
  {
    if i < 0 then 0 else ws[i].p
  }

  predicate StartedBy(ws: seq<Write>, x: nat) {
    forall i :: 0 <= i < |ws| ==> ws[i].p <= x
  }

  lemma {:induction false} ShownIsSource(ws: seq<Write>, t: seq<bool>, x: nat)
    requires x < |t| && StartedBy(ws, x)
    ensures var i := Source(ws, x);
            && ShiftOf(ws, i) <= x && x - ShiftOf(ws, i) < |PieceOf(ws, t, i)|
            && Shown(ws, t, x) == PieceOf(ws, t, i)[x - ShiftOf(ws, i)]
    decreases |ws|
  {
    hide Cells;
    if ws != [] && x >= Stop(ws[|ws| - 1]) {
      ShownIsSource(ws[..|ws| - 1], t, x);
    }
  }

  /** The source changes only where a stop shows. */
  lemma {:induction false} SourceStays(ws: seq<Write>, x: nat)
    requires !StopShown(ws, x + 1)
    ensures Source(ws, x + 1) == Source(ws, x)
    decreases |ws|
  {
    hide Stop;
    if ws != [] && x >= Stop(ws[|ws| - 1]) {
      SourceStays(ws[..|ws| - 1], x);
    }
  }

  lemma {:induction false} SameSource(ws: seq<Write>, x: nat, y: nat)
    requires x <= y && forall z :: x < z <= y ==> !StopShown(ws, z)
    ensures Source(ws, y) == Source(ws, x)
    decreases y
  {
    hide StopShown, Source;
    if x < y {
      SameSource(ws, x, y - 1);
      SourceStays(ws, y - 1);
    }
  }

  /** The write that shows last before a stop is the one that stops there. */
  lemma {:induction false} StopSource(ws: seq<Write>, y: nat)
    requires StopShown(ws, y) && y > 0
    ensures var i := Source(ws, y - 1); i >= 0 && Stop(ws[i]) == y
    decreases |ws|
  {
    hide Stop;
    var w := ws[|ws| - 1];
    if Stop(w) != y {
      StopSource(ws[..|ws| - 1], y);
    }
  }

  /** Cells a up to b of c are what shows of track t. */
  predicate Shows(c: seq<bool>, t: seq<bool>, ws: seq<Write>, a: nat, b: nat) {
    b <= |c| && b <= |t| && forall x :: a <= x < b ==> c[x] == Shown(ws, t, x)
  }

  /** Between stops that show, the cells are one piece. */
  lemma PieceAgrees(c: seq<bool>, t: seq<bool>, ws: seq<Write>, a: nat, b: nat)
    requires Shows(c, t, ws, a, b) && a < b && StartedBy(ws, a)
    requires forall z :: a < z < b ==> !StopShown(ws, z)
    ensures var i := Source(ws, a); Agree(c, a, b, PieceOf(ws, t, i), ShiftOf(ws, i))
  {
    hide StopShown, Source, Shown, Cells;
    var i := Source(ws, a);
    forall x | a <= x < b
      ensures ShiftOf(ws, i) <= x && x - ShiftOf(ws, i) < |PieceOf(ws, t, i)|
      ensures c[x] == PieceOf(ws, t, i)[x - ShiftOf(ws, i)]
    {
      SameSource(ws, a, x);
      ShownIsSource(ws, t, x);
    }
    var p, d := PieceOf(ws, t, i), ShiftOf(ws, i);
    SameSource(ws, a, b - 1);
    ShownIsSource(ws, t, b - 1);
    assert c[a..b] == p[a - d..b - d];
  }

  // ----- no false mark behind the data

  /** From where the read of a data mark has ended: behind the last write's, or behind the format's own. */
  function BehindData(ws: seq<Write>, s: nat): nat {
    if ws == [] then 16 * (s + 66) else ws[|ws| - 1].p + 352
  }

  /** Whatever shows there lies behind the marks of its own write. */
  lemma {:induction false} FarBehind(ws: seq<Write>, s: nat, x: nat)
    requires AllStartIn(ws, s) && x >= BehindData(ws, s)
    ensures StartedBy(ws, x) && Source(ws, x) >= 0 ==> x - ws[Source(ws, x)].p >= 352
    ensures StartedBy(ws, x)
  {
    hide Cells;
    forall i | 0 <= i < |ws|
      ensures ws[i].p <= x
    {
      assert StartsIn(ws[i], s) && StartsIn(ws[|ws| - 1], s);
    }
    if ws != [] {
      var w := ws[|ws| - 1];
      WriteSize(w);
      if x >= Stop(w) && Source(ws, x) >= 0 {
        assert StartsIn(ws[Source(ws, x)], s) && StartsIn(w, s);
      }
    }
  }

  /** The track's own marks are not near. */
  predicate Beyond(marks: set<nat>, s: nat, hi: nat) {
    forall m :: m in marks && s + 66 <= m ==> hi + 16 <= 16 * m
  }

  lemma BehindDataFar(ws: seq<Write>, s: nat)
    requires AllStartIn(ws, s)
    ensures BehindData(ws, s) >= 16 * (s + 66)
  {
    if ws != [] { assert StartsIn(ws[|ws| - 1], s); }
  }

  lemma PieceLawful(ws: seq<Write>, t: seq<bool>, marks: set<nat>, s: nat, i: int)
    requires AllStartIn(ws, s) && Lawful(t, marks) && -1 <= i < |ws|
    ensures Lawful(PieceOf(ws, t, i), if i < 0 then marks else Ibm.SECTOR_MARKS)
  {
    hide Lawful, MarkedCellStream, Ibm.SectorWrite, StartsIn, MarksOn;
    if i >= 0 {
      var w := ws[i];
      Ibm.SectorWriteParts(w.buf, w.gap3);
      MarkedIsLawful(w.before, Ibm.SectorWrite(w.buf, w.gap3), Ibm.SECTOR_MARKS);
    }
  }

  /** No sync word lies in one piece. */
  lemma NoWordInside(c: seq<bool>, t: seq<bool>, ws: seq<Write>, marks: set<nat>, s: nat, hi: nat, a: nat, b: nat, o: nat)
    requires AllStartIn(ws, s) && Lawful(t, marks) && Beyond(marks, s, hi) && BehindData(ws, s) <= a <= o
    requires Shows(c, t, ws, a, b) && o + 16 <= b && o < hi + 16 && forall z :: a < z < b ==> !StopShown(ws, z)
    ensures !WordAt(c, o)
  {
    hide Lawful, StopShown, Source, Shows, WordAt, Agree, AllStartIn, BehindData, Cells;
    FarBehind(ws, s, a);
    PieceAgrees(c, t, ws, a, b);
    var i := Source(ws, a);
    PieceLawful(ws, t, marks, s, i);
    BehindDataFar(ws, s);
    if WordAt(c, o) {
      WordAgrees(c, a, b, PieceOf(ws, t, i), ShiftOf(ws, i), if i < 0 then marks else Ibm.SECTOR_MARKS, o);
    }
  }

  /** The last thirty-one cells of a write that ends in a gap never leave three in a row empty. */
  lemma WriteEnd(w: Write, x: nat)
    requires w.gap3 > 0 && |w.buf| % 2 == 0 && |Cells(w)| - 31 <= x <= |Cells(w)| - 3
    ensures Cells(w)[x] || Cells(w)[x + 1] || Cells(w)[x + 2]
  {
    hide MarkedCellStream, Ibm.SectorWrite, MarksOn;
    WriteSize(w);
    EndCell(w, x);
    EndCell(w, x + 1);
    EndCell(w, x + 2);
    NoThreeEmpty(x);
  }

  lemma EndCell(w: Write, x: nat)
    requires w.gap3 > 0 && |w.buf| % 2 == 0 && |Cells(w)| - 31 <= x < |Cells(w)|
    ensures Cells(w)[x] == GAP_WORD[x % 16]
  {
    hide MarkedCellStream, Ibm.SectorWrite, MarksOn;
    var d, n := Ibm.SectorWrite(w.buf, w.gap3), x / 16;
    WriteSize(w);
    WriteBytes(w);
    assert |d| - 2 <= n < |d| && x == 16 * n + x % 16;
    GapWord(w.before, d, Ibm.SECTOR_MARKS, n, x % 16);
  }

  /** Nor do the cells that show before a stop. */
  lemma NoThreeBefore(c: seq<bool>, t: seq<bool>, ws: seq<Write>, s: nat, x: nat, y: nat)
    requires AllStartIn(ws, s) && Gapped(ws) && BehindData(ws, s) <= x && y - 31 <= x <= y - 3
    requires Shows(c, t, ws, x, y) && StopShown(ws, y) && forall z :: x < z < y ==> !StopShown(ws, z)
    ensures c[x] || c[x + 1] || c[x + 2]
  {
    hide StopShown, Source, Shows, Agree, BehindData, Cells;
    FarBehind(ws, s, x);
    PieceAgrees(c, t, ws, x, y);
    StopSource(ws, y);
    SameSource(ws, x, y - 1);
    var i := Source(ws, x);
    var w := ws[i];
    assert StartsIn(w, s);
    PieceCell(c, x, y, Cells(w), w.p, x);
    PieceCell(c, x, y, Cells(w), w.p, x + 1);
    PieceCell(c, x, y, Cells(w), w.p, x + 2);
    WriteEnd(w, x - w.p);
  }

  lemma PieceCell(c: seq<bool>, a: nat, b: nat, p: seq<bool>, d: nat, x: nat)
    requires Agree(c, a, b, p, d) && a <= x < b
    ensures d <= x < |c| && x - d < |p| && c[x] == p[x - d]
  {
    assert c[a..b][x - a] == p[a - d..b - d][x - a];
  }

  /** The first stop that shows from a on, before b if there is one. */
  function FirstStop(ws: seq<Write>, a: nat, b: nat): (y: nat)
    requires a <= b
    ensures a <= y <= b
    decreases b - a
  {
    if a == b || StopShown(ws, a) then a else FirstStop(ws, a + 1, b)
  }

  lemma {:induction false} FirstStopIs(ws: seq<Write>, a: nat, b: nat)
    requires a <= b
    ensures var y := FirstStop(ws, a, b); (y < b ==> StopShown(ws, y)) && forall z :: a <= z < y ==> !StopShown(ws, z)
    decreases b - a
  {
    hide StopShown;
    if a < b && !StopShown(ws, a) {
      FirstStopIs(ws, a + 1, b);
    }
  }

  /** The cells of a mark. */
  lemma MarkCells(c: seq<bool>, o: nat)
    requires SyncAt(c, o)
    ensures !c[o + 2] && !c[o + 3] && !c[o + 4] && !c[o + 9] && !c[o + 10] && !c[o + 11]
  {
    PairGaps();
    var w := c[o..o + 32];
    assert w[2] == c[o + 2] && w[3] == c[o + 3] && w[4] == c[o + 4];
    assert w[9] == c[o + 9] && w[10] == c[o + 10] && w[11] == c[o + 11];
  }

  /** With two stops in it a window is no mark: the second half lies behind them both, or the first long gap or the
      second lies before one of them. */
  lemma TwoStops(c: seq<bool>, t: seq<bool>, ws: seq<Write>, marks: set<nat>, s: nat, hi: nat, o: nat, y: nat, y': nat)
    requires AllStartIn(ws, s) && Gapped(ws) && Lawful(t, marks) && Beyond(marks, s, hi) && BehindData(ws, s) <= o < hi
    requires Shows(c, t, ws, o, o + 32) && o < y < y' < o + 32 && StopShown(ws, y) && StopShown(ws, y')
    requires forall z :: o < z < o + 32 && StopShown(ws, z) ==> z == y || z == y'
    ensures !SyncAt(c, o)
  {
    hide Lawful, StopShown, Shows, AllStartIn, BehindData, Beyond, Gapped, SyncAt, WordAt;
    if SyncAt(c, o) {
      MarkCells(c, o);
      PairIsWords(c, o);
      if y' <= o + 16 {
        ShowsPart(c, t, ws, o, o + 32, o + 16, o + 32);
        NoWordInside(c, t, ws, marks, s, hi, o + 16, o + 32, o + 16);
      } else if y <= o + 2 {
        ShowsPart(c, t, ws, o, o + 32, o + 2, y');
        NoThreeBefore(c, t, ws, s, o + 2, y');
      } else if y >= o + 5 {
        ShowsPart(c, t, ws, o, o + 32, o + 2, y);
        NoThreeBefore(c, t, ws, s, o + 2, y);
      } else {
        ShowsPart(c, t, ws, o, o + 32, o + 9, y');
        NoThreeBefore(c, t, ws, s, o + 9, y');
      }
    }
  }

  lemma ShowsPart(c: seq<bool>, t: seq<bool>, ws: seq<Write>, a: nat, b: nat, i: nat, j: nat)
    requires Shows(c, t, ws, a, b) && a <= i <= j <= b
    ensures Shows(c, t, ws, i, j)
  {}

  /** With one or none, one of its words lies in one piece. */
  lemma OneStop(c: seq<bool>, t: seq<bool>, ws: seq<Write>, marks: set<nat>, s: nat, hi: nat, o: nat, y: nat)
    requires AllStartIn(ws, s) && Lawful(t, marks) && Beyond(marks, s, hi) && BehindData(ws, s) <= o < hi
    requires Shows(c, t, ws, o, o + 32) && o < y && forall z :: o < z < o + 32 && StopShown(ws, z) ==> z == y
    ensures !SyncAt(c, o)
  {
    hide Lawful, StopShown, Shows, AllStartIn, BehindData, Beyond, SyncAt, WordAt;
    if SyncAt(c, o) {
      PairIsWords(c, o);
      if y >= o + 16 {
        ShowsPart(c, t, ws, o, o + 32, o, o + 16);
        NoWordInside(c, t, ws, marks, s, hi, o, o + 16, o);
      } else {
        ShowsPart(c, t, ws, o, o + 32, o + 16, o + 32);
        NoWordInside(c, t, ws, marks, s, hi, o + 16, o + 32, o + 16);
      }
    }
  }

  /** The next stop that shows from a on, or a cell no earlier than b. */
  lemma NextStop(ws: seq<Write>, a: nat, b: nat) returns (y: nat)
    ensures a <= y && (y < b ==> StopShown(ws, y)) && forall z :: a <= z < y && z < b ==> !StopShown(ws, z)
  {
    hide StopShown, FirstStop;
    y := a;
    if a < b {
      FirstStopIs(ws, a, b);
      y := FirstStop(ws, a, b);
    }
  }

  /** No false mark shows behind the data, as long as the stops that show are clear of one another. */
  lemma NoneBehind(c: seq<bool>, t: seq<bool>, ws: seq<Write>, marks: set<nat>, s: nat, hi: nat, o: nat)
    requires AllStartIn(ws, s) && StopsClear(ws) && Lawful(t, marks) && Beyond(marks, s, hi) && BehindData(ws, s) <= o < hi
    requires Shows(c, t, ws, o, o + 32)
    ensures !SyncAt(c, o)
  {
    hide Lawful, StopShown, Shows, AllStartIn, BehindData, Beyond, SyncAt, WordAt, Gapped, FirstStop;
    var y := NextStop(ws, o + 1, o + 32);
    var y' := NextStop(ws, y + 1, o + 32);
    var y'' := NextStop(ws, y' + 1, o + 32);
    if y' >= o + 32 {
      OneStop(c, t, ws, marks, s, hi, o, y);
    } else {
      TwoStops(c, t, ws, marks, s, hi, o, y, y');
    }
  }

  /** The cells that show spell a sync mark at cell o. */
  predicate ShowsMark(ws: seq<Write>, t: seq<bool>, o: nat) {
    o + 32 <= |t| && forall j: nat :: j < 32 ==> Shown(ws, t, o + j) == SYNC_PAIR[j]
  }

  lemma MarkShown(c: seq<bool>, t: seq<bool>, ws: seq<Write>, o: nat)
    requires Shows(c, t, ws, o, o + 32)
    ensures SyncAt(c, o) <==> ShowsMark(ws, t, o)
  {
    hide Shown;
    if SyncAt(c, o) {
      forall j: nat | j < 32
        ensures Shown(ws, t, o + j) == SYNC_PAIR[j]
      {
        assert c[o..o + 32][j] == c[o + j];
      }
    }
    if ShowsMark(ws, t, o) {
      assert c[o..o + 32] == SYNC_PAIR;
    }
  }

  /** No false mark shows from behind the last data to cell hi. */
  predicate EndsClear(ws: seq<Write>, t: seq<bool>, s: nat, hi: nat) {
    forall o: nat :: BehindData(ws, s) <= o < hi ==> !ShowsMark(ws, t, o)
  }

  /** Which clear stops make sure of. */
  lemma StopsKeepEnds(ws: seq<Write>, t: seq<bool>, marks: set<nat>, s: nat, hi: nat)
    requires AllStartIn(ws, s) && StopsClear(ws) && Lawful(t, marks) && Beyond(marks, s, hi)
    ensures EndsClear(ws, t, s, hi)
  {
    hide StopsClear, Lawful, AllStartIn, BehindData, Beyond, SyncAt;
    var c := seq(|t|, x requires 0 <= x < |t| => Shown(ws, t, x));
    forall o: nat | BehindData(ws, s) <= o < hi
      ensures !ShowsMark(ws, t, o)
    {
      if o + 32 <= |t| {
        MarkShown(c, t, ws, o);
        NoneBehind(c, t, ws, marks, s, hi, o);
      }
    }
  }

  /** A false mark before the true one is one that the starts spell. */
  lemma NoneInGap(c: seq<bool>, t: seq<bool>, ws: seq<Write>, marks: set<nat>, s: nat, o: nat)
    requires AllStartIn(ws, s) && ws != [] && Lawful(t, marks) && GapOf(t, s)
    requires forall m :: m in marks && s + 15 <= m ==> s + 56 <= m
    requires var p := ws[|ws| - 1].p; 16 * (s + 22) <= o < p + 192 && Shows(c, t, ws, 16 * (s + 22), p + 224)
    ensures SyncAt(c, o) <==> o < ws[|ws| - 1].p && 16 * (s + 42) <= o && Spelled(ws, s, o)
  {
    hide Lawful, SyncAt, Cells, GapOf, AllStartIn, Spelled, Shown, Shows;
    var w := ws[|ws| - 1];
    LastStarts(ws, s);
    ShowsPart(c, t, ws, 16 * (s + 22), w.p + 224, o, o + 32);
    GapSize(t, s);
    if o + 32 <= 16 * (s + 44) {
      UnderStarts(c, t, ws, marks, s, o);
    } else if o < w.p {
      MarkShown(c, t, ws, o);
      ShownSpells(ws, t, s, o);
    } else {
      LastGap(c, t, ws, marks, s, o);
    }
  }

  lemma GapSize(t: seq<bool>, s: nat)
    requires GapOf(t, s)
    ensures 16 * (s + 56) <= |t|
  {}

  lemma LastStarts(ws: seq<Write>, s: nat)
    requires AllStartIn(ws, s) && ws != []
    ensures StartsIn(ws[|ws| - 1], s)
  {}

  /** Before gap 2 ends the track shows, which spells nothing there. */
  lemma UnderStarts(c: seq<bool>, t: seq<bool>, ws: seq<Write>, marks: set<nat>, s: nat, o: nat)
    requires AllStartIn(ws, s) && Lawful(t, marks) && forall m :: m in marks && s + 15 <= m ==> s + 56 <= m
    requires 16 * (s + 22) <= o && o + 32 <= 16 * (s + 44) <= |t| && Shows(c, t, ws, o, o + 32)
    ensures !SyncAt(c, o) && !Spelled(ws, s, o)
  {
    hide Lawful, Shown, Spelled, AllStartIn;
    forall x | o <= x < o + 32
      ensures c[x] == t[x]
    {
      BeneathStarts(ws, t, s, x);
    }
    assert c[o..o + 32] == t[o..o + 32];
    SyncUnambiguous(t, marks, o);
    if Spelled(ws, s, o) {
      EightStarts(ws, s, o);
      var y := FirstStart(ws, s, o);
    }
  }

  lemma {:induction false} BeneathStarts(ws: seq<Write>, t: seq<bool>, s: nat, x: nat)
    requires AllStartIn(ws, s) && x < 16 * (s + 44) && x < |t|
    ensures Shown(ws, t, x) == t[x]
    decreases |ws|
  {
    hide Cells;
    if ws != [] {
      assert StartsIn(ws[|ws| - 1], s);
      BeneathStarts(ws[..|ws| - 1], t, s, x);
    }
  }

  lemma ShownSpells(ws: seq<Write>, t: seq<bool>, s: nat, o: nat)
    requires AllStartIn(ws, s) && ws != [] && GapOf(t, s) && 16 * (s + 42) <= o < ws[|ws| - 1].p && o + 32 <= |t|
    ensures ShowsMark(ws, t, o) <==> Spelled(ws, s, o)
  {
    hide GapOf, Shown, GapCell;
    LastStarts(ws, s);
    forall j: nat | j < 32
      ensures Shown(ws, t, o + j) == SYNC_PAIR[j] <==> GapCell(ws, s, o + j) == SYNC_PAIR[j]
    {
      ShownInGap(ws, t, s, o + j);
    }
  }

  /** From the last start to the true mark lies a plain gap. */
  lemma LastGap(c: seq<bool>, t: seq<bool>, ws: seq<Write>, marks: set<nat>, s: nat, o: nat)
    requires AllStartIn(ws, s) && ws != [] && Lawful(t, marks)
    requires var p := ws[|ws| - 1].p; p <= o < p + 192 && Shows(c, t, ws, o, o + 32)
    ensures !SyncAt(c, o)
  {
    hide Lawful, AllStartIn, SyncAt, Cells, Shown, Agree;
    var w := ws[|ws| - 1];
    LastStarts(ws, s);
    WriteSize(w);
    PieceLawful(ws, t, marks, s, |ws| - 1);
    LastShows(c, t, ws, o, o + 32);
    SyncAgrees(c, o, o + 32, Cells(w), w.p, o);
    SyncUnambiguous(Cells(w), Ibm.SECTOR_MARKS, o - w.p);
  }

  /** Where the last write is, it shows. */
  lemma LastShows(c: seq<bool>, t: seq<bool>, ws: seq<Write>, a: nat, b: nat)
    requires ws != [] && Shows(c, t, ws, a, b) && ws[|ws| - 1].p <= a <= b <= Stop(ws[|ws| - 1])
    ensures Agree(c, a, b, Cells(ws[|ws| - 1]), ws[|ws| - 1].p)
  {
    hide Cells;
    var w := ws[|ws| - 1];
    assert c[a..b] == Cells(w)[a - w.p..b - w.p];
  }

  /** Writing a sector once or twice leaves no false mark, wherever the writes start, if each ends in a gap. */
  lemma TwoWritesClear(ws: seq<Write>, s: nat)
    requires AllStartIn(ws, s) && |ws| <= 2 && Gapped(ws)
    ensures StartsClear(ws, s) && StopsClear(ws)
  {
    hide Stop, StartsClear, StopShown, OddWrites, AllStartIn;
    FewOdd(ws);
    FewStarts(ws, s);
    forall y: nat, y': nat, y'': nat | y < y' < y''
      ensures !(StopShown(ws, y) && StopShown(ws, y') && StopShown(ws, y''))
    {
      if StopShown(ws, y) && StopShown(ws, y') && StopShown(ws, y'') {
        ThreeStops(ws, y, y', y'');
      }
    }
  }

  lemma ThreeStops(ws: seq<Write>, y: nat, y': nat, y'': nat)
    requires StopShown(ws, y) && StopShown(ws, y') && StopShown(ws, y'') && y < y' < y''
    ensures |ws| >= 3
  {
    hide Stop, StopShown;
    var i := StoppedBy(ws, y);
    var j := StoppedBy(ws, y');
    var k := StoppedBy(ws, y'');
  }

  lemma {:induction false} FewOdd(ws: seq<Write>)
    ensures OddWrites(ws) <= |ws|
    decreases |ws|
  {
    hide Odd;
    if ws != [] {
      FewOdd(ws[..|ws| - 1]);
    }
  }

  lemma {:induction false} StoppedBy(ws: seq<Write>, y: nat) returns (i: nat)
    requires StopShown(ws, y)
    ensures i < |ws| && Stop(ws[i]) == y
    decreases |ws|
  {
    hide Stop;
    i := |ws| - 1;
    if Stop(ws[i]) != y {
      i := StoppedBy(ws[..i], y);
    }
  }
}
