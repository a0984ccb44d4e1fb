/** MFM conversion: the table codec, its meaning in bit cells, and the in-place loops over memory. */
module Mfm {
  import opened Bits
  import opened Tables

  /** Collects bits 0, 2, .., 14 of a word into a byte. */
  function MfmToByte(w: bv16): bv8 {
    ((w & 0x0001) | ((w >> 1) & 0x0002) | ((w >> 2) & 0x0004) | ((w >> 3) & 0x0008) |
     ((w >> 4) & 0x0010) | ((w >> 5) & 0x0020) | ((w >> 6) & 0x0040) | ((w >> 7) & 0x0080)) as bv8
  }

  // ----- the table, checked entry by entry against the MFM rule

  function Spread(x: bv8): bv16 {
    var d0 := x as bv16;
    var d1 := (d0 | (d0 << 4)) & 0x0f0f;
    var d2 := (d1 | (d1 << 2)) & 0x3333;
    (d2 | (d2 << 1)) & 0x5555
  }

  /** Data bits in the even positions; a clock bit wherever both neighbouring data bits are clear. */
  function Expand(x: bv8): bv16 {
    Spread(x) | (!((Spread(x) << 1) | (Spread(x) >> 1)) & 0xaaaa)
  }

  lemma TableLow(x: bv8)
    requires x < 0x80
    ensures MfmTab(x) == Expand(x)
  {}

  lemma TableHigh(x: bv8)
    requires x >= 0x80
    ensures MfmTab(x) == Expand(x)
  {}

  /** The table holds, at every byte, the word the MFM rule demands. */
  lemma TableIsExpand(x: bv8)
    ensures MfmTab(x) == Expand(x)
  {
    if x < 0x80 { TableLow(x); } else { TableHigh(x); }
  }

  /** The word written for byte x when prev is the byte before it. */
  function Word(x: bv8, prev: bv8): bv16 { Expand(x) & !((prev as bv16) << 15) }

  predicate PrevBit(x: bv8, prev: bv8, i: nat)
    requires i < 8
  {
    if i == 0 then Bit(prev, 7) else Bit(x, i - 1)
  }

  lemma WordDataCell(x: bv8, prev: bv8, i: nat)
    requires i < 8
    ensures Cell(Word(x, prev), 2 * i + 1) == Bit(x, i)
  {
    if i == 0 {} else if i == 1 {} else if i == 2 {} else if i == 3 {}
    else if i == 4 {} else if i == 5 {} else if i == 6 {} else {}
  }

  lemma WordClockCell(x: bv8, prev: bv8, i: nat)
    requires i < 8
    ensures Cell(Word(x, prev), 2 * i) == (!Bit(x, i) && !PrevBit(x, prev, i))
  {
    if i == 0 {} else if i == 1 {} else if i == 2 {} else if i == 3 {}
    else if i == 4 {} else if i == 5 {} else if i == 6 {} else {}
  }

  /** Every word carries its byte in the odd cells and obeys the MFM clock rule in the even ones. */
  lemma WordCells(x: bv8, prev: bv8, i: nat)
    requires i < 8
    ensures Cell(Word(x, prev), 2 * i + 1) == Bit(x, i)
    ensures Cell(Word(x, prev), 2 * i) == (!Bit(x, i) && !PrevBit(x, prev, i))
  {
    WordDataCell(x, prev, i);
    WordClockCell(x, prev, i);
  }

  lemma GatherCells(w: bv16, i: nat)
    requires i < 8
    ensures Bit(MfmToByte(w), i) == Cell(w, 2 * i + 1)
  {
    if i == 0 {} else if i == 1 {} else if i == 2 {} else if i == 3 {}
    else if i == 4 {} else if i == 5 {} else if i == 6 {} else {}
  }

  // ----- out-of-place codec on byte sequences

  function Encode(prev: bv8, data: seq<bv8>): (r: seq<bv8>)
    ensures |r| == 2 * |data|
  {
    seq(2 * |data|, k requires 0 <= k < 2 * |data| =>
      var w := Word(data[k / 2], if k < 2 then prev else data[k / 2 - 1]);
      if k % 2 == 0 then Hi(w) else Lo(w))
  }

  lemma EncodeBytes(prev: bv8, data: seq<bv8>, n: nat)
    requires n < |data|
    ensures var w := Word(data[n], if n == 0 then prev else data[n - 1]);
            Encode(prev, data)[2 * n] == Hi(w) && Encode(prev, data)[2 * n + 1] == Lo(w)
  {}

  function Decode(s: seq<bv8>): (r: seq<bv8>)
    requires |s| % 2 == 0
    ensures |r| == |s| / 2
  {
    seq(|s| / 2, i requires 0 <= i < |s| / 2 => MfmToByte(Join(s[2 * i], s[2 * i + 1])))
  }

  // ----- what the codec means in cells

  /** MFM modulation of a bit stream: a clock cell and a data cell for each bit. */
  function MfmCells(prev: bool, d: seq<bool>): (r: seq<bool>)
    ensures |r| == 2 * |d|
  {
    seq(2 * |d|, k requires 0 <= k < 2 * |d| =>
      if k % 2 == 1 then d[k / 2]
      else !d[k / 2] && !(if k == 0 then prev else d[k / 2 - 1]))
  }

  function DataCells(c: seq<bool>): (r: seq<bool>)
    ensures |r| == |c| / 2
  {
    seq(|c| / 2, i requires 0 <= i < |c| / 2 => c[2 * i + 1])
  }

  lemma EncodeCell(prev: bv8, data: seq<bv8>, k: nat)
    requires k < 16 * |data|
    ensures BitsOf(Encode(prev, data))[k]
         == Cell(Word(data[k / 16], if k < 16 then prev else data[k / 16 - 1]), k % 16)
  {
    assert (k / 8) / 2 == k / 16;
    if (k / 8) % 2 == 0 {
      assert k % 16 == k % 8;
    } else {
      assert k % 16 == k % 8 + 8;
    }
  }

  lemma EncodeDataCell(prev: bv8, data: seq<bv8>, n: nat, i: nat)
    requires n < |data| && i < 8
    ensures BitsOf(Encode(prev, data))[16 * n + 2 * i + 1] == BitsOf(data)[8 * n + i]
  {
    hide Word, Cell, Bit, BitsOf;
    EncodeCell(prev, data, 16 * n + 2 * i + 1);
    WordCells(data[n], if n == 0 then prev else data[n - 1], i);
    BitAt(data, n, i);
  }

  lemma EncodeClockCell(prev: bv8, data: seq<bv8>, n: nat, i: nat)
    requires n < |data| && i < 8
    ensures BitsOf(Encode(prev, data))[16 * n + 2 * i]
         == (!BitsOf(data)[8 * n + i] &&
             !(if 8 * n + i == 0 then Bit(prev, 7) else BitsOf(data)[8 * n + i - 1]))
  {
    hide Word, Cell, Bit, BitsOf;
    EncodeCell(prev, data, 16 * n + 2 * i);
    WordCells(data[n], if n == 0 then prev else data[n - 1], i);
    BitAt(data, n, i);
    if i > 0 {
      BitAt(data, n, i - 1);
    } else if n > 0 {
      BitAt(data, n - 1, 7);
    }
  }

  /** The table-driven encoder is MFM modulation, for every byte string and every preceding byte. */
  lemma EncodeIsMfm(prev: bv8, data: seq<bv8>)
    ensures BitsOf(Encode(prev, data)) == MfmCells(Bit(prev, 7), BitsOf(data))
  {
    hide Bit, BitsOf, Encode;
    var d := BitsOf(data);
    forall k | 0 <= k < 16 * |data|
      ensures BitsOf(Encode(prev, data))[k] == MfmCells(Bit(prev, 7), d)[k]
    {
      var n, i := k / 16, (k % 16) / 2;
      assert k / 2 == 8 * n + i;
      if k % 2 == 1 {
        EncodeDataCell(prev, data, n, i);
      } else {
        EncodeClockCell(prev, data, n, i);
      }
    }
  }

  lemma DecodeDataCell(s: seq<bv8>, n: nat, i: nat)
    requires |s| % 2 == 0 && 2 * n < |s| && i < 8
    ensures BitsOf(Decode(s))[8 * n + i] == BitsOf(s)[16 * n + 2 * i + 1]
  {
    hide MfmToByte, Join, Bit, BitsOf;
    var w := Join(s[2 * n], s[2 * n + 1]);
    BitAt(Decode(s), n, i);
    GatherCells(w, i);
    SplitJoin(s[2 * n], s[2 * n + 1]);
    if i < 4 {
      BitAt(s, 2 * n, 2 * i + 1);
    } else {
      BitAt(s, 2 * n + 1, 2 * i + 1 - 8);
    }
  }

  /** The decoder keeps the data cells of whatever it is given, lawful or not. */
  lemma DecodeIsDataCells(s: seq<bv8>)
    requires |s| % 2 == 0
    ensures BitsOf(Decode(s)) == DataCells(BitsOf(s))
  {
    hide BitsOf, Decode;
    forall k | 0 <= k < 4 * |s|
      ensures BitsOf(Decode(s))[k] == DataCells(BitsOf(s))[k]
    {
      DecodeDataCell(s, k / 8, k % 8);
    }
  }

  lemma DataOfMfmCells(prev: bool, d: seq<bool>)
    ensures DataCells(MfmCells(prev, d)) == d
  {}

  /** Decoding undoes encoding for every byte string. */
  lemma DecodeEncode(prev: bv8, data: seq<bv8>)
    ensures Decode(Encode(prev, data)) == data
  {
    hide *;
    var e := Encode(prev, data);
    EncodeIsMfm(prev, data);
    DecodeIsDataCells(e);
    DataOfMfmCells(Bit(prev, 7), BitsOf(data));
    PackBitsOf(Decode(e));
    PackBitsOf(data);
  }

  // ----- the in-place loops

  lemma DecodeAt(s: seq<bv8>, n: nat)
    requires |s| % 2 == 0 && 2 * n < |s|
    ensures Decode(s)[n] == MfmToByte(Join(s[2 * n], s[2 * n + 1]))
  {}

  /** Contracts nr words at p to nr bytes, reading ahead of where it writes. */
  method MfmToBin(mem: array<bv8>, p: nat, nr: nat)
    requires p + 2 * nr <= mem.Length
    modifies mem
    ensures mem[p..p + nr] == Decode(old(mem[p..p + 2 * nr]))
    ensures mem[..p] == old(mem[..p]) && mem[p + nr..] == old(mem[p + nr..])
  {
    hide Decode, MfmToByte, Join;
    ghost var s := mem[p..p + 2 * nr];
    var i := 0;
    while i < nr
      invariant 0 <= i <= nr
      invariant forall k :: 0 <= k < i ==> mem[p + k] == Decode(s)[k]
      invariant forall k :: 0 <= k < p ==> mem[k] == old(mem[k])
      invariant forall k :: p + i <= k < mem.Length ==> mem[k] == old(mem[k])
    {
      assert s[2 * i] == mem[p + 2 * i] && s[2 * i + 1] == mem[p + 2 * i + 1];
      DecodeAt(s, i);
      mem[p + i] := MfmToByte(Join(mem[p + 2 * i], mem[p + 2 * i + 1]));
      i := i + 1;
    }
  }

  /** The table entry for x, its first clock cleared when y ended in a one. */
  function Lookup(x: bv8, y: bv8): bv16 { MfmTab(x) & !((y as bv16) << 15) }

  lemma LookupIsWord(x: bv8, y: bv8)
    ensures Lookup(x, y) == Word(x, y)
  {
    hide MfmTab, Expand;
    TableIsExpand(x);
  }

  /** Expands nr bytes at p to nr words, from the last byte back; the byte before p supplies the first clock. */
  method BinToMfm(mem: array<bv8>, p: nat, nr: nat)
    requires 1 <= p && p + 2 * nr <= mem.Length
    modifies mem
    ensures mem[p..p + 2 * nr] == Encode(old(mem[p - 1]), old(mem[p..p + nr]))
    ensures mem[..p] == old(mem[..p]) && mem[p + 2 * nr..] == old(mem[p + 2 * nr..])
  {
    hide Lookup, Word, Hi, Lo, Encode;
    ghost var prev, data := mem[p - 1], mem[p..p + nr];
    ghost var e := Encode(prev, data);
    var input, output, n := p + nr, p + 2 * nr, nr;
    input := input - 1;
    var x := mem[input];
    while n > 0
      invariant 0 <= n <= nr
      invariant input == p + n - 1 && output == p + 2 * n
      invariant x == if n == 0 then prev else data[n - 1]
      invariant forall k :: 0 <= k <= input ==> mem[k] == old(mem[k])
      invariant forall k :: 2 * n <= k < 2 * nr ==> mem[p + k] == e[k]
      invariant forall k :: p + 2 * nr <= k < mem.Length ==> mem[k] == old(mem[k])
    {
      n := n - 1;
      input := input - 1;
      var y := mem[input];
      output := output - 2;
      var w := Lookup(x, y);
      LookupIsWord(x, y);
      mem[output], mem[output + 1] := Hi(w), Lo(w);
      EncodeBytes(prev, data, n);
      x := y;
    }
  }

  // ----- the checker

  /** Word i of s passes the check when raw stands for the byte the first comparison looks at. */
  predicate Checks(s: seq<bv8>, raw: bv8, i: nat)
    requires |s| % 2 == 0 && 2 * i < |s|
  {
    var b := Join(s[2 * i], s[2 * i + 1]);
    b == Word(MfmToByte(b), if i == 0 then raw else s[2 * i - 1])
  }

  /** Says of each word at p whether it breaks the clock rule. The word before p is loaded without byte
      swapping, so the first comparison depends on the byte at p - 2 and not on the one at p - 1. */
  method MfmCheck(mem: array<bv8>, p: nat, nr: nat) returns (bad: seq<bool>)
    requires 2 <= p && p + 2 * nr <= mem.Length
    ensures |bad| == nr
    ensures forall i: nat :: i < nr ==> bad[i] == !Checks(mem[p..p + 2 * nr], mem[p - 2], i)
  {
    hide *;
    bad := [];
    ghost var s := mem[p..p + 2 * nr];
    var a := Join(mem[p - 1], mem[p - 2]);
    JoinLow(mem[p - 1], mem[p - 2]);
    for i := 0 to nr
      invariant SameLow(a, if i == 0 then mem[p - 2] else s[2 * i - 1])
      invariant |bad| == i
      invariant forall k: nat :: k < i ==> bad[k] == !Checks(s, mem[p - 2], k)
    {
      var b := Join(mem[p + 2 * i], mem[p + 2 * i + 1]);
      var c := Expected(MfmToByte(b), a);
      CheckStep(s, mem[p - 2], i, a);
      bad := bad + [b != c];
      JoinLow(mem[p + 2 * i], mem[p + 2 * i + 1]);
      a := b;
    }
  }

  predicate SameLow(a: bv16, y: bv8) { a & 1 == y as bv16 & 1 }

  lemma JoinLow(hi: bv8, lo: bv8)
    ensures SameLow(Join(hi, lo), lo)
  {}

  function Expected(x: bv8, a: bv16): bv16 { MfmTab(x) & !(a << 15) }

  lemma ExpectedIsWord(x: bv8, a: bv16, y: bv8)
    requires SameLow(a, y)
    ensures Expected(x, a) == Word(x, y)
  {
    hide MfmTab, Expand;
    TableIsExpand(x);
  }

  lemma CheckStep(s: seq<bv8>, raw: bv8, i: nat, a: bv16)
    requires |s| % 2 == 0 && 2 * i < |s|
    requires SameLow(a, if i == 0 then raw else s[2 * i - 1])
    ensures var b := Join(s[2 * i], s[2 * i + 1]);
            Checks(s, raw, i) <==> b == Expected(MfmToByte(b), a)
  {
    hide MfmTab, Expand, MfmToByte, Join, SameLow, Expected, Word;
    ExpectedIsWord(MfmToByte(Join(s[2 * i], s[2 * i + 1])), a, if i == 0 then raw else s[2 * i - 1]);
  }

  /** The clock rule in word i of a cell stream, when before is the data cell that precedes the stream. */
  predicate ClockRule(c: seq<bool>, before: bool, i: nat)
    requires 16 * i + 16 <= |c|
  {
    forall j: nat :: j < 8 ==>
      c[16 * i + 2 * j] ==
        (!c[16 * i + 2 * j + 1] && !(if i == 0 && j == 0 then before else c[16 * i + 2 * j - 1]))
  }

  lemma StreamCell(s: seq<bv8>, i: nat, j: nat)
    requires |s| % 2 == 0 && 2 * i < |s| && j < 16
    ensures Cell(Join(s[2 * i], s[2 * i + 1]), j) == BitsOf(s)[16 * i + j]
  {
    hide BitsOf, Bit;
    SplitJoin(s[2 * i], s[2 * i + 1]);
    if j < 8 { BitAt(s, 2 * i, j); } else { BitAt(s, 2 * i + 1, j - 8); }
  }

  /** A word passes the check exactly when its eight clock cells obey the rule. */
  lemma ChecksIsClockRule(s: seq<bv8>, raw: bv8, i: nat)
    requires |s| % 2 == 0 && 2 * i < |s|
    ensures Checks(s, raw, i) <==> ClockRule(BitsOf(s), Bit(raw, 7), i)
  {
    hide BitsOf, Word, MfmToByte, Cell, Join, Bit, Hi, Lo;
    var c, b := BitsOf(s), Join(s[2 * i], s[2 * i + 1]);
    var prev := if i == 0 then raw else s[2 * i - 1];
    var w := Word(MfmToByte(b), prev);
    if i > 0 { BitAt(s, 2 * i - 1, 7); }
    forall j: nat | j < 8
      ensures Cell(w, 2 * j + 1) == c[16 * i + 2 * j + 1] == Cell(b, 2 * j + 1)
      ensures Cell(b, 2 * j) == c[16 * i + 2 * j]
      ensures Cell(w, 2 * j) ==
        (!c[16 * i + 2 * j + 1] && !(if i == 0 && j == 0 then Bit(raw, 7) else c[16 * i + 2 * j - 1]))
    {
      WordCells(MfmToByte(b), prev, j);
      GatherCells(b, j);
      StreamCell(s, i, 2 * j);
      StreamCell(s, i, 2 * j + 1);
      if j > 0 {
        GatherCells(b, j - 1);
        StreamCell(s, i, 2 * j - 1);
      }
    }
    if ClockRule(c, Bit(raw, 7), i) {
      forall j: nat | j < 16
        ensures Cell(b, j) == Cell(w, j)
      {
        assert j == 2 * (j / 2) || j == 2 * (j / 2) + 1;
      }
      SameWord(b, w);
    }
  }

  lemma CheckedCells(prev: bv8, data: seq<bv8>, i: nat, j: nat)
    requires i + 1 < |data| && j < 8
    ensures var c := BitsOf(Encode(prev, data)[2..]);
            && c[16 * i + 2 * j + 1] == BitsOf(data)[8 * (i + 1) + j]
            && c[16 * i + 2 * j] == (!BitsOf(data)[8 * (i + 1) + j] && !BitsOf(data)[8 * (i + 1) + j - 1])
            && (i > 0 && j == 0 ==> c[16 * i - 1] == BitsOf(data)[8 * (i + 1) - 1])
  {
    hide Encode, BitsOf, Bit;
    var e := Encode(prev, data);
    BitsOfSlice(e, 2, |e|);
    assert e[2..|e|] == e[2..];
    EncodeDataCell(prev, data, i + 1, j);
    EncodeClockCell(prev, data, i + 1, j);
    EncodeDataCell(prev, data, i, 7);
  }

  lemma FirstBits(prev: bv8, data: seq<bv8>)
    requires |data| >= 2
    ensures BitsOf(data)[7] == Bit(data[0], 7) && BitsOf(data)[8] == Bit(data[1], 0)
    ensures Bit(Encode(prev, data)[0], 7) == Bit(data[0], 3)
  {
    hide Encode, BitsOf, Bit;
    var e := Encode(prev, data);
    BitAt(data, 0, 3);
    BitAt(data, 0, 7);
    BitAt(data, 1, 0);
    BitAt(e, 0, 7);
    EncodeDataCell(prev, data, 0, 3);
  }

  /** Checking freshly encoded data from its second word on: only the first comparison can complain,
      and it does so exactly when the second byte starts with a zero bit and bits 3 and 7 of the
      first byte differ. */
  lemma CheckAfterEncode(prev: bv8, data: seq<bv8>, i: nat)
    requires i + 1 < |data|
    ensures var e := Encode(prev, data);
            Checks(e[2..], e[0], i) <==>
              i > 0 || Bit(data[1], 0) || Bit(data[0], 3) == Bit(data[0], 7)
  {
    hide Encode, BitsOf, Checks, Bit;
    var e := Encode(prev, data);
    var c, d := BitsOf(e[2..]), BitsOf(data);
    ChecksIsClockRule(e[2..], e[0], i);
    FirstBits(prev, data);
    forall j: nat | j < 8 && (i > 0 || j > 0)
      ensures c[16 * i + 2 * j] == (!c[16 * i + 2 * j + 1] && !c[16 * i + 2 * j - 1])
    {
      CheckedCells(prev, data, i, j);
      if j > 0 {
        CheckedCells(prev, data, i, j - 1);
      }
    }
    CheckedCells(prev, data, i, 0);
    assert c[16 * i + 2 * 0] == c[16 * i] && c[16 * i + 2 * 0 + 1] == c[16 * i + 1];
  }
}
