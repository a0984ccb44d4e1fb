/** What the checksum guarantees: residues, polynomial division and burst errors. */
module CrcTheory {
  import opened Bits
  import opened Crc

  function Cells16(c: bv16): (r: seq<bool>)
    ensures |r| == 16
  {
    seq(16, k requires 0 <= k < 16 => Cell(c, k))
  }

  lemma StepZero()
    ensures Step(0, false) == 0
  {}

  lemma {:induction false} ZeroMessage(n: nat)
    ensures CrcBits(0, Zeros(n)) == 0
    decreases n
  {
    hide Step;
    if n == 0 {
      NoMoreBits(0);
    } else {
      StepZero();
      assert Zeros(n)[1..] == Zeros(n - 1);
      ZeroMessage(n - 1);
    }
  }

  lemma {:induction false} ShiftsSplit(x: bv16, m: nat, n: nat)
    ensures Shifts(Shifts(x, m), n) == Shifts(x, m + n)
    decreases m
  {
    hide Shift;
    if m == 0 {
    } else {
      ShiftsSplit(Shift(x), m - 1, n);
    }
  }

  lemma ShiftedOut(c: bv16)
    ensures (c << 8) << 8 == 0
  {}

  lemma SixteenShifts(c: bv16)
    ensures Shifts(c, 16) == 0
  {
    hide Shifts;
    ShiftsSplit(c, 8, 8);
    ShiftsByte(c);
    ShiftsByte(c << 8);
    ShiftedOut(c);
  }

  lemma XorSelf(c: bv16)
    ensures Xor(c, 0) == c
  {}

  /** Sixteen message bits act as if they had been loaded into the register first. */
  lemma SixteenBits(c: bv16, w: bv16)
    ensures CrcBits(c, Cells16(w)) == CrcBits(Xor(c, w), Zeros(16))
  {
    hide Step, Xor, Shifts, Fold, CrcBits, Cell;
    CrcBitsXor(c, w, Zeros(16));
    SixteenShifts(w);
    XorSelf(CrcBits(c, Fold(Zeros(16), w)));
    assert Fold(Zeros(16), w) == Cells16(w) by {
      forall k: nat | k < 16
        ensures Fold(Zeros(16), w)[k] == Cells16(w)[k]
      {
        FoldAt(Zeros(16), w, k);
      }
    }
  }

  lemma WordBits(c: bv16)
    ensures BitsOf([Hi(c), Lo(c)]) == Cells16(c)
  {
    hide Bit, Hi, Lo;
  }

  lemma XorCancels(c: bv16)
    ensures Xor(c, c) == 0
  {}

  /** A message followed by its own checksum, high byte first, leaves the register at zero. */
  lemma Residue(s: seq<bv8>, seed: bv16)
    ensures var c := CrcOf(s, seed);
            CrcOf(s + [Hi(c), Lo(c)], seed) == 0
  {
    hide Xor, CrcBits, BitsOf, Cells16, Hi, Lo;
    var c := CrcOf(s, seed);
    BitsOfConcat(s, [Hi(c), Lo(c)]);
    CrcBitsConcat(seed, BitsOf(s), BitsOf([Hi(c), Lo(c)]));
    WordBits(c);
    SixteenBits(c, c);
    XorCancels(c);
    ZeroMessage(16);
  }

  // ----- long division of polynomials over GF(2), coefficients highest degree first

  /** x^16 + x^12 + x^5 + 1. */
  const GENERATOR: seq<bool> := [
    true, false, false, false, true, false, false, false, false,
    false, false, true, false, false, false, false, true
  ]

  function Add(a: seq<bool>, b: seq<bool>): (r: seq<bool>)
    requires |a| == |b|
    ensures |r| == |a|
  {
    seq(|a|, k requires 0 <= k < |a| => a[k] != b[k])
  }

  /** One line of the division: subtract the generator under a leading one, then drop the leading term. */
  function DivideOnce(p: seq<bool>): (r: seq<bool>)
    requires |p| > 16
    ensures |r| == |p| - 1
  {
    if p[0] then Add(p[..17], GENERATOR)[1..] + p[17..] else p[1..]
  }

  function Remainder(p: seq<bool>): (r: seq<bool>)
    requires |p| >= 16
    ensures |r| == 16
    decreases |p|
  {
    if |p| == 16 then p else Remainder(DivideOnce(p))
  }

  function Quotient(p: seq<bool>): (r: seq<bool>)
    requires |p| >= 16
    ensures |r| == |p| - 16
    decreases |p|
  {
    if |p| == 16 then [] else [p[0]] + Quotient(DivideOnce(p))
  }

  /** The product of a polynomial with the generator, term by term. */
  function TimesGenerator(q: seq<bool>): (r: seq<bool>)
    ensures |r| == |q| + 16
    decreases |q|
  {
    if q == [] then Zeros(16)
    else Add(if q[0] then GENERATOR + Zeros(|q| - 1) else Zeros(|q| + 16), [false] + TimesGenerator(q[1..]))
  }

  lemma AddAssociative(a: seq<bool>, b: seq<bool>, c: seq<bool>)
    requires |a| == |b| == |c|
    ensures Add(a, Add(b, c)) == Add(Add(a, b), c)
  {}

  lemma AddUnderZero(a: seq<bool>, b: seq<bool>)
    requires |a| == |b|
    ensures [false] + Add(a, b) == Add([false] + a, [false] + b)
  {}

  function Leading(p: seq<bool>): (r: seq<bool>)
    requires |p| > 16
    ensures |r| == |p|
  {
    if p[0] then GENERATOR + Zeros(|p| - 17) else Zeros(|p|)
  }

  lemma DivideOnceSubtracts(p: seq<bool>)
    requires |p| > 16
    ensures p == Add(Leading(p), [false] + DivideOnce(p))
  {}

  /** Quotient and remainder are what their names say: p = q * G + r with r of degree below 16. */
  lemma {:induction false} DivisionIdentity(p: seq<bool>)
    requires |p| >= 16
    ensures p == Add(TimesGenerator(Quotient(p)), Zeros(|p| - 16) + Remainder(p))
    decreases |p|
  {
    hide Add, DivideOnce;
    if |p| == 16 {
      AddZeros(p);
      assert Zeros(0) + p == p;
    } else {
      var p', r := DivideOnce(p), Remainder(p);
      var q, q' := Quotient(p), Quotient(p');
      assert q[1..] == q' && q[0] == p[0];
      DivisionIdentity(p');
      DivideOnceSubtracts(p);
      AddUnderZero(TimesGenerator(q'), Zeros(|p'| - 16) + r);
      assert [false] + (Zeros(|p'| - 16) + r) == Zeros(|p| - 16) + r;
      AddAssociative(Leading(p), [false] + TimesGenerator(q'), Zeros(|p| - 16) + r);
    }
  }

  lemma AddZeros(p: seq<bool>)
    ensures Add(Zeros(|p|), p) == p
  {}

  lemma StepCells(c: bv16, b: bool, k: nat)
    requires k < 16
    ensures Cell(Step(c, b), k) == ((k < 15 && Cell(c, k + 1)) != (GENERATOR[k + 1] && Cell(c, 0) != b))
  {
    hide Step, Shift, Feedback, Cell, Top, Xor;
    StepIsXor(c, b);
    XorCell(Shift(c), Feedback(Top(c) != b), k);
    FeedbackCell(Top(c) != b, k);
    ShiftCellLast(c);
    if k < 15 { ShiftCell(c, k); }
  }

  lemma StepIsXor(c: bv16, b: bool)
    ensures Step(c, b) == Xor(Shift(c), Feedback(Top(c) != b))
  {
    hide Xor, Shift, Feedback, Top;
  }

  lemma XorHiLo(a: bv16, b: bv16)
    ensures Hi(Xor(a, b)) == Hi(a) ^ Hi(b) && Lo(Xor(a, b)) == Lo(a) ^ Lo(b)
  {}

  lemma XorCell(a: bv16, b: bv16, k: nat)
    requires k < 16
    ensures Cell(Xor(a, b), k) == (Cell(a, k) != Cell(b, k))
  {
    hide Bit, Hi, Lo, Xor;
    XorHiLo(a, b);
    if k < 8 { XorBit(Hi(a), Hi(b), k); } else { XorBit(Lo(a), Lo(b), k - 8); }
  }

  lemma FeedbackCell(f: bool, k: nat)
    requires k < 16
    ensures Cell(Feedback(f), k) == (f && GENERATOR[k + 1])
  {
    if k < 4 { if k == 0 {} else if k == 1 {} else if k == 2 {} else {} }
    else if k < 8 { if k == 4 {} else if k == 5 {} else if k == 6 {} else {} }
    else if k < 12 { if k == 8 {} else if k == 9 {} else if k == 10 {} else {} }
    else { if k == 12 {} else if k == 13 {} else if k == 14 {} else {} }
  }

  /** The dividend the register works on: the message shifted up sixteen places, with the register
      added to its leading terms. */
  function Dividend(c: bv16, m: seq<bool>): (r: seq<bool>)
    ensures |r| == |m| + 16
  {
    Add(m + Zeros(16), Cells16(c) + Zeros(|m|))
  }

  /** The shift register performs long division: for every seed and message it ends holding the remainder. */
  lemma {:induction false} CrcIsRemainder(c: bv16, m: seq<bool>)
    ensures Remainder(Dividend(c, m)) == Cells16(CrcBits(c, m))
    decreases |m|
  {
    hide Step, Cell, Remainder;
    var p := Dividend(c, m);
    if m == [] {
      NoMoreBits(c);
      assert p == Cells16(c);
      RemainderStep(p);
    } else {
      var c' := Step(c, m[0]);
      CrcIsRemainder(c', m[1..]);
      RemainderStep(p);
      DividendStep(c, m);
    }
  }

  lemma RemainderStep(p: seq<bool>)
    requires |p| >= 16
    ensures Remainder(p) == if |p| == 16 then p else Remainder(DivideOnce(p))
  {}

  lemma DividendAt(c: bv16, m: seq<bool>, k: nat)
    requires k < |m| + 16
    ensures Dividend(c, m)[k] == ((k < |m| && m[k]) != (k < 16 && Cell(c, k)))
  {
    hide Cell;
  }

  lemma DivideOnceAt(p: seq<bool>, k: nat)
    requires |p| > 16 && k + 1 < |p|
    ensures DivideOnce(p)[k] == (p[k + 1] != (k < 16 && p[0] && GENERATOR[k + 1]))
  {}

  lemma DividendStep(c: bv16, m: seq<bool>)
    requires m != []
    ensures DivideOnce(Dividend(c, m)) == Dividend(Step(c, m[0]), m[1..])
  {
    hide Step, Cell, DivideOnce, Dividend;
    var c', p := Step(c, m[0]), Dividend(c, m);
    var q := Dividend(c', m[1..]);
    DividendAt(c, m, 0);
    forall k: nat | k < |p| - 1
      ensures DivideOnce(p)[k] == q[k]
    {
      DivideOnceAt(p, k);
      DividendAt(c, m, k + 1);
      DividendAt(c', m[1..], k);
      if k < 16 { StepCells(c, m[0], k); }
    }
  }

  // ----- error detection

  lemma FeedbackLow(c: bv16, f: bool)
    ensures (Xor(Shift(c), Feedback(f)) & 1 != 0) == f
  {}

  lemma XorUndone(a: bv16, f: bv16)
    ensures Xor(Xor(a, f), f) == a
  {}

  lemma ShiftInjective(c: bv16, c': bv16)
    requires Shift(c) == Shift(c') && Top(c) == Top(c')
    ensures c == c'
  {}

  /** Two registers that differ stay different, whatever common bit is fed to both. */
  lemma StepInjective(c: bv16, c': bv16, b: bool)
    requires Step(c, b) == Step(c', b)
    ensures c == c'
  {
    hide Xor, Shift, Feedback, Top;
    var f, f' := Top(c) != b, Top(c') != b;
    FeedbackLow(c, f);
    FeedbackLow(c', f');
    XorUndone(Shift(c), Feedback(f));
    XorUndone(Shift(c'), Feedback(f));
    ShiftInjective(c, c');
  }

  lemma {:induction false} CrcBitsInjective(c: bv16, c': bv16, d: seq<bool>)
    requires CrcBits(c, d) == CrcBits(c', d)
    ensures c == c'
    decreases |d|
  {
    hide Step;
    if d == [] {
    } else {
      CrcBitsInjective(Step(c, d[0]), Step(c', d[0]), d[1..]);
      StepInjective(c, c', d[0]);
    }
  }

  lemma XorLeft(c: bv16, w: bv16, v: bv16)
    requires Xor(c, w) == Xor(c, v)
    ensures w == v
  {
    assert c ^ (c ^ w) == w && c ^ (c ^ v) == v;
  }

  /** Any error confined to sixteen consecutive bits changes the checksum, however long the message. */
  lemma BurstDetected(seed: bv16, before: seq<bool>, w: bv16, v: bv16, after: seq<bool>)
    requires w != v
    ensures CrcBits(seed, before + Cells16(w) + after) != CrcBits(seed, before + Cells16(v) + after)
  {
    hide Step, Xor, CrcBits, Cells16;
    var c := CrcBits(seed, before);
    CrcBitsConcat(seed, before + Cells16(w), after);
    CrcBitsConcat(seed, before, Cells16(w));
    CrcBitsConcat(seed, before + Cells16(v), after);
    CrcBitsConcat(seed, before, Cells16(v));
    if CrcBits(CrcBits(c, Cells16(w)), after) == CrcBits(CrcBits(c, Cells16(v)), after) {
      CrcBitsInjective(CrcBits(c, Cells16(w)), CrcBits(c, Cells16(v)), after);
      SixteenBits(c, w);
      SixteenBits(c, v);
      CrcBitsInjective(Xor(c, w), Xor(c, v), Zeros(16));
      XorLeft(c, w, v);
    }
  }

  /** The same for bytes: no error confined to two neighbouring bytes goes unnoticed. */
  lemma TwoBytesDetected(seed: bv16, a: seq<bv8>, x1: bv8, x2: bv8, y1: bv8, y2: bv8, b: seq<bv8>)
    requires x1 != y1 || x2 != y2
    ensures CrcOf(a + [x1, x2] + b, seed) != CrcOf(a + [y1, y2] + b, seed)
  {
    hide CrcBits, BitsOf, Cells16, Hi, Lo, Join;
    SplitJoin(x1, x2);
    SplitJoin(y1, y2);
    WordBits(Join(x1, x2));
    WordBits(Join(y1, y2));
    BitsOfConcat(a, [x1, x2]);
    BitsOfConcat(a + [x1, x2], b);
    BitsOfConcat(a, [y1, y2]);
    BitsOfConcat(a + [y1, y2], b);
    BurstDetected(seed, BitsOf(a), Join(x1, x2), Join(y1, y2), BitsOf(b));
  }
}
