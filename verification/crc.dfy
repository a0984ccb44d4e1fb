/** The table-driven CRC-16-CCITT, against long division by x^16 + x^12 + x^5 + 1 (section 2 of ITU-T V.41). */
module Crc {
  import opened Bits
  import opened Tables

  // ----- the shift register, one message bit at a time

  predicate Top(c: bv16) { c & 0x8000 != 0 }

  function Shift(c: bv16): bv16 { c << 1 }

  function Xor(a: bv16, b: bv16): bv16 { a ^ b }

  /** The terms x^12 + x^5 + 1, subtracted when a one is shifted out. */
  function Feedback(out: bool): bv16 { if out then 0x1021 else 0 }

  function Step(c: bv16, b: bool): bv16 { Xor(Shift(c), Feedback(Top(c) != b)) }

  function CrcBits(c: bv16, d: seq<bool>): bv16
    decreases |d|
  {
    if d == [] then c else CrcBits(Step(c, d[0]), d[1..])
  }

  /** The checksum of a message. */
  function CrcOf(s: seq<bv8>, seed: bv16): bv16 { CrcBits(seed, BitsOf(s)) }

  lemma {:induction false} CrcBitsConcat(c: bv16, a: seq<bool>, b: seq<bool>)
    ensures CrcBits(c, a + b) == CrcBits(CrcBits(c, a), b)
    decreases |a|
  {
    hide Step;
    if a == [] {
      assert a + b == b;
    } else {
      assert (a + b)[0] == a[0] && (a + b)[1..] == a[1..] + b;
      CrcBitsConcat(Step(c, a[0]), a[1..], b);
    }
  }

  // ----- linearity

  lemma XorShift(c: bv16, x: bv16)
    ensures Shift(Xor(c, x)) == Xor(Shift(c), Shift(x))
  {}

  lemma XorTop(c: bv16, x: bv16)
    ensures Top(Xor(c, x)) == (Top(c) != Top(x))
  {}

  lemma XorSwap(a: bv16, b: bv16, c: bv16)
    ensures Xor(Xor(a, b), c) == Xor(Xor(a, c), b)
  {
    assert (a ^ b) ^ c == (a ^ c) ^ b;
  }

  lemma StepXor(c: bv16, x: bv16, b: bool)
    ensures Step(Xor(c, x), b) == Xor(Step(c, b != Top(x)), Shift(x))
  {
    hide Xor, Shift, Top, Feedback;
    XorShift(c, x);
    XorTop(c, x);
    XorSwap(Shift(c), Shift(x), Feedback(Top(c) != (b != Top(x))));
  }

  function Shifts(x: bv16, n: nat): bv16
    decreases n
  {
    if n == 0 then x else Shifts(Shift(x), n - 1)
  }

  /** Message bits with the bits a register holds xored in as they reach the top. */
  function Fold(d: seq<bool>, x: bv16): (r: seq<bool>)
    ensures |r| == |d|
    decreases |d|
  {
    if d == [] then [] else [d[0] != Top(x)] + Fold(d[1..], Shift(x))
  }

  /** What is xored into the register joins the message; the register itself only shifts along. */
  lemma {:induction false} CrcBitsXor(c: bv16, x: bv16, d: seq<bool>)
    ensures CrcBits(Xor(c, x), d) == Xor(CrcBits(c, Fold(d, x)), Shifts(x, |d|))
    decreases |d|
  {
    hide Step, Xor, Top, Shift;
    if d == [] {
    } else {
      StepXor(c, x, d[0]);
      CrcBitsXor(Step(c, d[0] != Top(x)), Shift(x), d[1..]);
      assert Fold(d, x)[1..] == Fold(d[1..], Shift(x));
    }
  }

  // ----- the table

  lemma ShiftCell(x: bv16, k: nat)
    requires k < 15
    ensures Cell(Shift(x), k) == Cell(x, k + 1)
  {
    if k < 4 { if k == 0 {} else if k == 1 {} else if k == 2 {} else {} }
    else if k < 8 { if k == 4 {} else if k == 5 {} else if k == 6 {} else {} }
    else if k < 12 { if k == 8 {} else if k == 9 {} else if k == 10 {} else {} }
    else { if k == 12 {} else if k == 13 {} else {} }
  }

  lemma ShiftCellLast(x: bv16)
    ensures !Cell(Shift(x), 15) && Top(x) == Cell(x, 0)
  {}

  lemma {:induction false} FoldAt(d: seq<bool>, x: bv16, k: nat)
    requires k < |d| && k < 16
    ensures Fold(d, x)[k] == (d[k] != Cell(x, k))
    decreases k
  {
    hide Shift, Cell, Top;
    ShiftCellLast(x);
    if k > 0 {
      FoldAt(d[1..], Shift(x), k - 1);
      ShiftCell(x, k - 1);
    }
  }

  lemma XorBit(a: bv8, b: bv8, k: nat)
    requires k < 8
    ensures Bit(a ^ b, k) == (Bit(a, k) != Bit(b, k))
  {
    if k == 0 {} else if k == 1 {} else if k == 2 {} else if k == 3 {}
    else if k == 4 {} else if k == 5 {} else if k == 6 {} else {}
  }

  lemma FoldByte(c: bv16, b: bv8)
    ensures Fold(BitsOf([b]), c) == BitsOf([Hi(c) ^ b])
  {
    hide Bit, Fold, Hi;
    var r := Fold(BitsOf([b]), c);
    forall k: nat | k < 8
      ensures r[k] == BitsOf([Hi(c) ^ b])[k]
    {
      FoldAt(BitsOf([b]), c, k);
      XorBit(Hi(c), b, k);
    }
  }

  function EightSteps(x: bv8): bv16 {
    Step(Step(Step(Step(Step(Step(Step(Step(0, Bit(x, 0)), Bit(x, 1)), Bit(x, 2)), Bit(x, 3)),
      Bit(x, 4)), Bit(x, 5)), Bit(x, 6)), Bit(x, 7))
  }

  /** The remainder of a byte shifted up sixteen places, in closed form. */
  function ClosedEntry(x: bv8): bv16 {
    var y := (x ^ (x >> 4)) as bv16;
    (y << 12) ^ (y << 5) ^ y
  }

  lemma ClosedIsEightSteps(x: bv8)
    ensures ClosedEntry(x) == EightSteps(x)
  {}

  lemma Quarter0(x: bv8)
    requires x < 0x40
    ensures CrcTab(x) == ClosedEntry(x)
  {}

  lemma Quarter1(x: bv8)
    requires 0x40 <= x && x < 0x80
    ensures CrcTab(x) == ClosedEntry(x)
  {}

  lemma Quarter2(x: bv8)
    requires 0x80 <= x && x < 0xc0
    ensures CrcTab(x) == ClosedEntry(x)
  {}

  lemma Quarter3(x: bv8)
    requires 0xc0 <= x
    ensures CrcTab(x) == ClosedEntry(x)
  {}

  lemma Unroll(c: bv16, d: seq<bool>, k: nat)
    requires k < |d|
    ensures CrcBits(c, d[k..]) == CrcBits(Step(c, d[k]), d[k + 1..])
  {
    assert d[k..][0] == d[k] && d[k..][1..] == d[k + 1..];
  }

  lemma EightStepsUnrolled(x: bv8)
    ensures CrcBits(0, BitsOf([x])) == EightSteps(x)
  {
    hide Step, Bit, CrcBits;
    var d := BitsOf([x]);
    var c1 := Step(0, d[0]);
    var c2 := Step(c1, d[1]);
    var c3 := Step(c2, d[2]);
    var c4 := Step(c3, d[3]);
    var c5 := Step(c4, d[4]);
    var c6 := Step(c5, d[5]);
    var c7 := Step(c6, d[6]);
    assert d[0..] == d && d[8..] == [];
    Unroll(0, d, 0); Unroll(c1, d, 1); Unroll(c2, d, 2); Unroll(c3, d, 3);
    Unroll(c4, d, 4); Unroll(c5, d, 5); Unroll(c6, d, 6); Unroll(c7, d, 7);
    NoMoreBits(Step(c7, d[7]));
  }

  lemma NoMoreBits(c: bv16)
    ensures CrcBits(c, []) == c
  {}

  /** Every table entry is the remainder of its index after eight shifts. */
  lemma TableEntry(x: bv8)
    ensures CrcTab(x) == CrcBits(0, BitsOf([x]))
  {
    hide EightSteps, CrcTab, ClosedEntry, CrcBits;
    EightStepsUnrolled(x);
    ClosedIsEightSteps(x);
    if x < 0x40 { Quarter0(x); } else if x < 0x80 { Quarter1(x); }
    else if x < 0xc0 { Quarter2(x); } else { Quarter3(x); }
  }

  lemma ShiftsNext(c: bv16, n: nat)
    ensures Shifts(c, n + 1) == Shifts(Shift(c), n) && Shifts(c, 0) == c
  {
    hide Shift;
  }

  lemma ShiftEight(c: bv16)
    ensures Shift(Shift(Shift(Shift(Shift(Shift(Shift(Shift(c)))))))) == c << 8
  {}

  lemma ShiftsByte(c: bv16)
    ensures Shifts(c, 8) == c << 8
  {
    hide Shift, Shifts;
    var c1 := Shift(c);
    var c2 := Shift(c1);
    var c3 := Shift(c2);
    var c4 := Shift(c3);
    var c5 := Shift(c4);
    var c6 := Shift(c5);
    var c7 := Shift(c6);
    ShiftsNext(c, 7); ShiftsNext(c1, 6); ShiftsNext(c2, 5); ShiftsNext(c3, 4);
    ShiftsNext(c4, 3); ShiftsNext(c5, 2); ShiftsNext(c6, 1); ShiftsNext(c7, 0);
    ShiftsNext(Shift(c7), 0);
    ShiftEight(c);
  }

  /** One pass of the table loop. */
  function TableStep(c: bv16, b: bv8): bv16 { Xor(CrcTab(Hi(c) ^ b), c << 8) }

  /** A table look-up does the work of eight shifts. */
  lemma TableStepIsEightShifts(c: bv16, b: bv8)
    ensures TableStep(c, b) == CrcBits(c, BitsOf([b]))
  {
    hide CrcTab, Bit, Hi, Shifts, Xor, Fold, CrcBits, BitsOf;
    XorZero(c);
    CrcBitsXor(0, c, BitsOf([b]));
    FoldByte(c, b);
    TableEntry(Hi(c) ^ b);
    ShiftsByte(c);
  }

  lemma XorZero(c: bv16)
    ensures Xor(0, c) == c
  {}

  /** The table loop computes the bit-serial checksum for every message, seed and position in memory. */
  method Crc16Ccitt(mem: array<bv8>, p: nat, len: nat, seed: bv16) returns (crc: bv16)
    requires p + len <= mem.Length
    ensures crc == CrcOf(mem[p..p + len], seed)
  {
    hide CrcTab, TableStep, CrcBits, BitsOf;
    crc := seed;
    NoMoreBits(seed);
    assert BitsOf(mem[p..p]) == [];
    for i := 0 to len
      invariant crc == CrcBits(seed, BitsOf(mem[p..p + i]))
    {
      ghost var b := mem[p + i];
      crc := TableStep(crc, mem[p + i]);
      assert mem[p..p + i + 1] == mem[p..p + i] + [b];
      BitsOfConcat(mem[p..p + i], [b]);
      CrcBitsConcat(seed, BitsOf(mem[p..p + i]), BitsOf([b]));
      TableStepIsEightShifts(CrcBits(seed, BitsOf(mem[p..p + i])), b);
    }
  }
}
