/** FM conversion: every clock cell set, but for the three a sync mark drops. */
module Fm {
  import opened Bits
  import opened Tables
  import opened Mfm
  import opened Reader

  function FmWord(x: bv8): bv16 { Expand(x) | 0xaaaa }

  lemma FmWordDataCell(x: bv8, i: nat)
    requires i < 8
    ensures Cell(FmWord(x), 2 * i + 1) == Bit(x, i)
  {
    if i == 0 {} else if i == 1 {} else if i == 2 {} else if i == 3 {}
    else if i == 4 {} else if i == 5 {} else if i == 6 {} else {}
  }

  lemma FmWordClockCell(x: bv8, i: nat)
    requires i < 8
    ensures Cell(FmWord(x), 2 * i)
  {
    if i == 0 {} else if i == 1 {} else if i == 2 {} else if i == 3 {}
    else if i == 4 {} else if i == 5 {} else if i == 6 {} else {}
  }

  function FmEncode(data: seq<bv8>): (r: seq<bv8>)
    ensures |r| == 2 * |data|
  {
    seq(2 * |data|, k requires 0 <= k < 2 * |data| =>
      if k % 2 == 0 then Hi(FmWord(data[k / 2])) else Lo(FmWord(data[k / 2])))
  }

  /** FM modulation of a bit stream: a set clock cell before every data cell. */
  function FmCells(d: seq<bool>): (r: seq<bool>)
    ensures |r| == 2 * |d|
  {
    seq(2 * |d|, k requires 0 <= k < 2 * |d| => k % 2 == 0 || d[k / 2])
  }

  lemma FmEncodeCells(data: seq<bv8>, n: nat, i: nat)
    requires n < |data| && i < 8
    ensures BitsOf(FmEncode(data))[16 * n + 2 * i]
    ensures BitsOf(FmEncode(data))[16 * n + 2 * i + 1] == BitsOf(data)[8 * n + i]
  {
    hide FmWord, Bit, BitsOf;
    var e, w := FmEncode(data), FmWord(data[n]);
    FmWordDataCell(data[n], i);
    FmWordClockCell(data[n], i);
    assert e[2 * n] == Hi(w) && e[2 * n + 1] == Lo(w);
    BitAt(data, n, i);
    if i < 4 {
      BitAt(e, 2 * n, 2 * i);
      BitAt(e, 2 * n, 2 * i + 1);
    } else {
      BitAt(e, 2 * n + 1, 2 * i - 8);
      BitAt(e, 2 * n + 1, 2 * i - 7);
    }
  }

  /** The FM encoder is FM modulation, for every byte string. */
  lemma FmEncodeIsFm(data: seq<bv8>)
    ensures BitsOf(FmEncode(data)) == FmCells(BitsOf(data))
  {
    hide BitsOf, FmEncode;
    forall k | 0 <= k < 16 * |data|
      ensures BitsOf(FmEncode(data))[k] == FmCells(BitsOf(data))[k]
    {
      FmEncodeCells(data, k / 16, k % 16 / 2);
      assert k / 2 == 8 * (k / 16) + k % 16 / 2;
    }
  }

  lemma DataOfFmCells(d: seq<bool>)
    ensures DataCells(FmCells(d)) == d
  {}

  /** fm_to_bin, which is the MFM decoder, undoes FM encoding. */
  lemma FmDecodeEncode(data: seq<bv8>)
    ensures Decode(FmEncode(data)) == data
  {
    hide *;
    FmEncodeIsFm(data);
    DecodeIsDataCells(FmEncode(data));
    DataOfFmCells(BitsOf(data));
    PackBitsOf(Decode(FmEncode(data)));
    PackBitsOf(data);
  }

  lemma FmBytes(data: seq<bv8>, n: nat)
    requires n < |data|
    ensures FmEncode(data)[2 * n] == Hi(FmWord(data[n])) && FmEncode(data)[2 * n + 1] == Lo(FmWord(data[n]))
  {}

  lemma TableFmWord(x: bv8)
    ensures MfmTab(x) | 0xaaaa == FmWord(x)
  {
    hide MfmTab, Expand;
    TableIsExpand(x);
  }

  /** Expands nr bytes at p to nr words, from the last byte back. Like its MFM sibling it fetches the byte
      before p at the end, but makes no use of it. */
  method BinToFm(mem: array<bv8>, p: nat, nr: nat)
    requires 1 <= p && p + 2 * nr <= mem.Length
    modifies mem
    ensures mem[p..p + 2 * nr] == FmEncode(old(mem[p..p + nr]))
    ensures mem[..p] == old(mem[..p]) && mem[p + 2 * nr..] == old(mem[p + 2 * nr..])
  {
    hide MfmTab, Hi, Lo, FmEncode, FmWord;
    ghost var data := mem[p..p + nr];
    var input, output, n := p + nr, p + 2 * nr, nr;
    input := input - 1;
    var x := mem[input];
    while n > 0
      invariant 0 <= n <= nr
      invariant input == p + n - 1 && output == p + 2 * n
      invariant x == mem[input]
      invariant forall k :: 0 <= k <= input ==> mem[k] == old(mem[k])
      invariant forall k :: 2 * n <= k < 2 * nr ==> mem[p + k] == FmEncode(data)[k]
      invariant forall k :: p + 2 * nr <= k < mem.Length ==> mem[k] == old(mem[k])
    {
      n := n - 1;
      input := input - 1;
      var y := mem[input];
      output := output - 2;
      var w := MfmTab(x) | 0xaaaa;
      TableFmWord(x);
      mem[output], mem[output + 1] := Hi(w), Lo(w);
      assert x == data[n];
      FmBytes(data, n);
      x := y;
    }
  }

  // ----- sync marks

  const FM_SYNC_CLK: bv8 := 0xc7

  function Interleave(d: bv16, c: bv16): bv16 { (c << 1) | d }

  /** A word with chosen data and clock bits. */
  function FmSync(dat: bv8, clk: bv8): bv16 { Interleave(Spread(dat), Spread(clk)) }

  lemma ExpandData(x: bv8)
    ensures Expand(x) & 0x5555 == Spread(x)
  {
    assert Spread(x) & 0x5555 == Spread(x);
  }

  /** fm_sync picks the data bits of both bytes out of the table. */
  method FmSyncWord(dat: bv8, clk: bv8) returns (w: bv16)
    ensures w == FmSync(dat, clk)
  {
    hide MfmTab, Expand, Spread;
    TableIsExpand(dat);
    TableIsExpand(clk);
    ExpandData(dat);
    ExpandData(clk);
    var d := MfmTab(dat) & 0x5555;
    var c := (MfmTab(clk) & 0x5555) << 1;
    w := c | d;
  }

  lemma SpreadClock(dat: bv8, clk: bv8, i: nat)
    requires i < 8
    ensures Cell(Interleave(Spread(dat), Spread(clk)), 2 * i) == Bit(clk, i)
  {
    if i == 0 {} else if i == 1 {} else if i == 2 {} else if i == 3 {}
    else if i == 4 {} else if i == 5 {} else if i == 6 {} else {}
  }

  lemma SpreadData(dat: bv8, clk: bv8, i: nat)
    requires i < 8
    ensures Cell(Interleave(Spread(dat), Spread(clk)), 2 * i + 1) == Bit(dat, i)
  {
    if i == 0 {} else if i == 1 {} else if i == 2 {} else if i == 3 {}
    else if i == 4 {} else if i == 5 {} else if i == 6 {} else {}
  }

  /** The word interleaves the clock bits and the data bits. */
  lemma FmSyncCells(dat: bv8, clk: bv8, i: nat)
    requires i < 8
    ensures Cell(FmSync(dat, clk), 2 * i) == Bit(clk, i) && Cell(FmSync(dat, clk), 2 * i + 1) == Bit(dat, i)
  {
    hide Bit, Spread, Cell, Interleave;
    SpreadClock(dat, clk, i);
    SpreadData(dat, clk, i);
  }

  // ----- streams with sync marks

  /** FM cells in which the words at marks have the clock byte 0xc7 and all others have every clock set. */
  predicate FmLawful(c: seq<bool>, marks: set<nat>) {
    && |c| % 16 == 0
    && forall k :: 0 <= k < |c| && k % 2 == 0 ==> c[k] == !FmDropped(k, marks)
  }

  /** The clocks 0xc7 leaves out are its third to fifth. */
  predicate FmDropped(k: int, marks: set<nat>) {
    k >= 0 && (k % 16 == 4 || k % 16 == 6 || k % 16 == 8) && k / 16 in marks
  }

  /** The window the hunt sees ending before cell o + 32. */
  predicate FmSyncAt(c: seq<bool>, o: nat) {
    o + 32 <= |c| && FmMatch(c[o..o + 32])
  }

  lemma FmMatchClocks(w: Window)
    requires FmMatch(w)
    ensures !w[0] && !w[2] && !w[4] && !w[6] && !w[21]
    ensures w[19] && w[27]
  {
    hide FmMatch;
    FmMatchAt(w, 0); FmMatchAt(w, 2); FmMatchAt(w, 4); FmMatchAt(w, 6);
    FmMatchAt(w, 19); FmMatchAt(w, 21); FmMatchAt(w, 27);
  }

  /** In the other phase the hunt would need four clocks in a row to be missing. */
  lemma FmWrongPhase(c: seq<bool>, marks: set<nat>, o: nat)
    requires FmLawful(c, marks) && o + 32 <= |c| && o % 2 == 0
    ensures !FmMatch(c[o..o + 32])
  {
    hide FmMatch;
    var w := c[o..o + 32];
    if FmMatch(w) {
      FmMatchClocks(w);
      assert w[0] == c[o] && w[2] == c[o + 2] && w[4] == c[o + 4] && w[6] == c[o + 6];
      FourClocks(marks, o);
    }
  }

  lemma FourClocks(marks: set<nat>, o: nat)
    requires o % 2 == 0
    ensures !(FmDropped(o, marks) && FmDropped(o + 2, marks) && FmDropped(o + 4, marks) && FmDropped(o + 6, marks))
  {}

  /** Plain FM data never looks like a sync mark, in either phase. */
  lemma FmPlainNeverMatches(data: seq<bv8>, o: nat)
    ensures !FmSyncAt(BitsOf(FmEncode(data)), o)
  {
    hide BitsOf, FmEncode, FmMatch;
    var c := BitsOf(FmEncode(data));
    FmEncodeIsFm(data);
    assert FmLawful(c, {});
    if o + 32 <= |c| {
      if o % 2 == 0 {
        FmWrongPhase(c, {}, o);
      } else {
        FmRightPhase(c, {}, o);
      }
    }
  }

  lemma FmRightPhase(c: seq<bool>, marks: set<nat>, o: nat)
    requires FmLawful(c, marks) && o + 32 <= |c| && o % 2 == 1
    ensures FmMatch(c[o..o + 32]) ==> (o + 17) % 16 == 0 && (o + 17) / 16 in marks
  {
    hide FmMatch;
    var w := c[o..o + 32];
    if FmMatch(w) {
      FmMatchClocks(w);
      assert w[19] == c[o + 19] && w[21] == c[o + 21] && w[27] == c[o + 27];
      FirstDropped(marks, o + 21);
    }
  }

  lemma FirstDropped(marks: set<nat>, k: int)
    requires FmDropped(k, marks) && !FmDropped(k - 2, marks)
    ensures k % 16 == 4 && (k - 4) % 16 == 0 && (k - 4) / 16 in marks
  {}

  /** The hunt can stop only with its window one cell short of the end of a marked word. */
  lemma FmSyncUnambiguous(c: seq<bool>, marks: set<nat>, o: nat)
    requires FmLawful(c, marks) && FmSyncAt(c, o)
    ensures (o + 17) % 16 == 0 && (o + 17) / 16 in marks
  {
    hide FmMatch;
    if o % 2 == 0 {
      FmWrongPhase(c, marks, o);
    } else {
      FmRightPhase(c, marks, o);
    }
  }

  /** The nine data cells before word m are empty: those of the word before it and the last of the one before that. */
  predicate FmQuiet(c: seq<bool>, o: nat)
    requires o + 32 <= |c|
  {
    forall h :: 0 <= h <= 8 ==> !c[o + 2 * h]
  }

  lemma ClockThere(c: seq<bool>, marks: set<nat>, k: nat)
    requires FmLawful(c, marks) && k < |c| && k % 2 == 0
    ensures c[k] == !FmDropped(k, marks)
  {}

  lemma DroppedIn(marks: set<nat>, m: nat, i: nat)
    requires i < 16
    ensures FmDropped(16 * m + i, marks) <==> (i == 4 || i == 6 || i == 8) && m in marks
  {
    assert (16 * m + i) / 16 == m && (16 * m + i) % 16 == i;
  }

  /** One compared bit of a window that ends a cell short of the end of marked word m, after an unmarked word. */
  lemma FmWindowBit(c: seq<bool>, marks: set<nat>, m: nat, j: nat)
    requires FmLawful(c, marks) && 2 <= m && m in marks && m - 1 !in marks && 16 * m + 15 <= |c| && j < 32 && FmMask()[j]
    requires FmQuiet(c, 16 * m - 17)
    ensures c[16 * m - 17 + j] == FmValue()[j]
  {
    hide FmMask, FmValue, FmLawful, FmDropped;
    FmMaskIs(j);
    if j % 2 == 0 {
      assert !c[16 * m - 17 + 2 * (j / 2)];
    } else {
      ClockThere(c, marks, 16 * m - 17 + j);
      if j < 17 {
        DroppedIn(marks, m - 1, j - 1);
      } else {
        DroppedIn(marks, m, j - 17);
      }
    }
  }

  /** The hunt's pattern is in a stream exactly there, and exactly when the word before is unmarked and the data cells
      the pattern covers are empty. */
  lemma FmSyncExactly(c: seq<bool>, marks: set<nat>, o: nat)
    requires FmLawful(c, marks)
    ensures FmSyncAt(c, o) <==>
      && o + 32 <= |c| && (o + 17) % 16 == 0 && (o + 17) / 16 in marks && (o + 17) / 16 >= 2
      && (o + 17) / 16 - 1 !in marks && FmQuiet(c, o)
  {
    hide FmMatch, FmMask, FmValue, FmLawful, FmDropped;
    var m := (o + 17) / 16;
    if FmSyncAt(c, o) {
      FmSyncUnambiguous(c, marks, o);
      var w := c[o..o + 32];
      forall h | 0 <= h <= 8
        ensures !c[o + 2 * h]
      {
        FmMatchAt(w, 2 * h);
      }
      assert o == 16 * m - 17 && m >= 2;
      FmMatchAt(w, 5);
      assert w[5] == c[o + 5];
      ClockThere(c, marks, o + 5);
      DroppedIn(marks, m - 1, 4);
    } else if o + 32 <= |c| && (o + 17) % 16 == 0 && m in marks && m >= 2 && m - 1 !in marks && FmQuiet(c, o) {
      assert o == 16 * m - 17;
      forall j: nat | j < 32 && FmMask()[j]
        ensures c[o..o + 32][j] == FmValue()[j]
      {
        FmWindowBit(c, marks, m, j);
      }
      MatchIf(c[o..o + 32]);
    }
  }

  lemma MatchIf(w: Window)
    requires forall j: nat :: j < 32 && FmMask()[j] ==> w[j] == FmValue()[j]
    ensures FmMatch(w)
  {}
}
