/** The read path: a ring of timer captures filled by DMA, decoded into a buffer of bit cells. */
module Reader {
  import opened Arithmetic
  import opened Bits
  import opened Flux
  import opened Ring
  import Stream

  datatype Sync = NoSync | SyncFm | SyncMfm

  // ----- what a run of captures means

  function Ones(n: nat): (r: seq<bool>)
    ensures |r| == n
  {
    seq(n, k => true)
  }

  /** Timer ticks between consecutive captures of a 16-bit counter. */
  function Deltas(prev: nat, caps: seq<nat>): (r: seq<nat>)
    ensures |r| == |caps|
  {
    seq(|caps|, i requires 0 <= i < |caps| => (caps[i] - (if i == 0 then prev else caps[i - 1])) % U16)
  }

  function LoopCounts(deltas: seq<nat>, cell: nat): (r: seq<Gap>)
    requires cell > 0
    ensures |r| == |deltas|
  {
    seq(|deltas|, i requires 0 <= i < |deltas| => CellCount(deltas[i], cell))
  }

  lemma ClosedCountPositive(curr: nat, cell: nat)
    requires cell > 0
    ensures ClosedCount(curr, cell) >= 1
  {
    RoundingsAgree(curr, cell);
  }

  function HuntCount(curr: nat, cell: nat): Gap
    requires cell > 0
  {
    ClosedCountPositive(curr, cell);
    ClosedCount(curr, cell)
  }

  function HuntCounts(deltas: seq<nat>, cell: nat): (r: seq<Gap>)
    requires cell > 0
    ensures |r| == |deltas|
  {
    seq(|deltas|, i requires 0 <= i < |deltas| => HuntCount(deltas[i], cell))
  }

  predicate AllU16(s: seq<nat>) {
    forall i :: 0 <= i < |s| ==> s[i] < U16
  }

  // ----- the 32-cell window

  type Window = w: seq<bool> | |w| == 32 witness seq(32, k => false)

  /** The window shifted left by n with a one shifted in last. */
  function ShiftIn(w: Window, n: Gap): Window {
    if n < 32 then w[n..] + GapCells(n) else GapCells(32)
  }

  /** The last 32 bits of a stream. */
  function Tail(bits: seq<bool>): Window
    requires |bits| >= 32
  {
    bits[|bits| - 32..]
  }

  lemma ShiftInIsTail(bits: seq<bool>, n: Gap)
    requires |bits| >= 32
    ensures ShiftIn(Tail(bits), n) == Tail(bits + GapCells(n))
  {}

  /** 0xffffd555: the bits the FM hunt compares. */
  function FmMask(): Window {
    [true, true, true, true, true, true, true, true, true, true, true, true, true, true, true, true,
     true, true, false, true, false, true, false, true, false, true, false, true, false, true, false, true]
  }

  /** 0x55555015: what it wants them to be. */
  function FmValue(): Window {
    [false, true, false, true, false, true, false, true, false, true, false, true, false, true, false, true,
     false, true, false, true, false, false, false, false, false, false, false, true, false, true, false, true]
  }

  predicate FmMatch(w: Window) {
    forall i :: 0 <= i < 32 && FmMask()[i] ==> w[i] == FmValue()[i]
  }

  lemma FmMaskLow(j: nat)
    requires j < 16
    ensures FmMask()[j] && FmValue()[j] == (j % 2 == 1)
  {
    if j < 8 { if j < 4 { if j < 2 {} else {} } else { if j < 6 {} else {} } }
    else { if j < 12 { if j < 10 {} else {} } else { if j < 14 {} else {} } }
  }

  lemma FmMaskHigh(j: nat)
    requires 16 <= j < 32
    ensures FmMask()[j] <==> j == 16 || j % 2 == 1
    ensures FmMask()[j] ==> FmValue()[j] == (j % 2 == 1 && !(21 <= j <= 25))
  {
    if j < 24 { if j < 20 { if j < 18 {} else {} } else { if j < 22 {} else {} } }
    else { if j < 28 { if j < 26 {} else {} } else { if j < 30 {} else {} } }
  }

  /** Which bits are compared, and with what. */
  lemma FmMaskIs(j: nat)
    requires j < 32
    ensures FmMask()[j] <==> j <= 16 || j % 2 == 1
    ensures FmMask()[j] ==> FmValue()[j] == (j % 2 == 1 && !(21 <= j <= 25))
  {
    hide FmMask, FmValue;
    if j < 16 { FmMaskLow(j); } else { FmMaskHigh(j); }
  }

  lemma FmMatchAt(w: Window, j: nat)
    requires FmMatch(w) && j < 32 && (j <= 16 || j % 2 == 1)
    ensures w[j] == (j % 2 == 1 && !(21 <= j <= 25))
  {
    hide FmMask, FmValue;
    FmMaskIs(j);
  }

  /** The hunt stops at this window. */
  predicate Fires(sync: Sync, w: Window) {
    if sync == SyncFm then FmMatch(w) else w == Stream.SYNC_PAIR
  }

  /** Window cells that belong to the sync mark once the hunt has stopped. */
  function SyncFound(sync: Sync): nat { if sync == SyncFm then 31 else 32 }

  /** None of the first k flux reversals completes a sync mark. */
  predicate SilentUpTo(sync: Sync, before: seq<bool>, counts: seq<Gap>, k: nat)
    requires |before| >= 32 && k <= |counts|
  {
    forall j :: 0 < j <= k ==> !Fires(sync, Tail(before + Unroll(counts[..j])))
  }

  /** The hunt over these cell counts, started on the bits before, stops at the k-th and no earlier. */
  predicate StopsAt(sync: Sync, before: seq<bool>, counts: seq<Gap>, k: nat)
    requires |before| >= 32
  {
    && 0 < k <= |counts|
    && Fires(sync, Tail(before + Unroll(counts[..k])))
    && SilentUpTo(sync, before, counts, k - 1)
  }

  lemma UnrollNext(counts: seq<Gap>, k: nat)
    requires k < |counts|
    ensures Unroll(counts[..k + 1]) == Unroll(counts[..k]) + GapCells(counts[k])
  {
    assert counts[..k + 1] == counts[..k] + [counts[k]];
    UnrollSnoc(counts[..k], counts[k]);
  }

  lemma HuntStep(sync: Sync, before: seq<bool>, counts: seq<Gap>, k: nat, dat: Window)
    requires |before| >= 32 && k < |counts|
    requires dat == Tail(before + Unroll(counts[..k])) && SilentUpTo(sync, before, counts, k)
    ensures ShiftIn(dat, counts[k]) == Tail(before + Unroll(counts[..k + 1]))
    ensures !Fires(sync, ShiftIn(dat, counts[k])) ==> SilentUpTo(sync, before, counts, k + 1)
  {
    hide Fires, ShiftIn, Tail, Unroll;
    UnrollNext(counts, k);
    ShiftInIsTail(before + Unroll(counts[..k]), counts[k]);
    assert before + Unroll(counts[..k]) + GapCells(counts[k]) == before + Unroll(counts[..k + 1]);
  }

  lemma HuntBegin(sync: Sync, before: seq<bool>, counts: seq<Gap>)
    requires |before| >= 32
    ensures Tail(before) == Tail(before + Unroll(counts[..0])) && SilentUpTo(sync, before, counts, 0)
    ensures before + Unroll(counts[..0]) == before
  {}

  // ----- the bit-cell buffer

  /** dat and the words of mem at p hold the bits so far, the last incomplete word in dat alone. */
  predicate Buffered(mem: seq<bv8>, p: nat, dat: Window, bits: seq<bool>) {
    && p + 4 * (|bits| / 32) <= |mem|
    && dat[32 - |bits| % 32..] == bits[|bits| - |bits| % 32..]
    && BitsOf(mem[p..p + 4 * (|bits| / 32)]) == bits[..|bits| - |bits| % 32]
  }

  function StoreBe32(mem: seq<bv8>, at: nat, w: Window): (r: seq<bv8>)
    requires at + 4 <= |mem|
    ensures |r| == |mem|
  {
    mem[..at] + PackBytes(w) + mem[at + 4..]
  }

  /** Memory is as it was everywhere but in the n bytes at p. */
  ghost predicate Kept(m: seq<bv8>, was: seq<bv8>, p: nat, n: nat) {
    p + n <= |m| == |was| && m[..p] == was[..p] && m[p + n..] == was[p + n..]
  }

  lemma KeptSame(m: seq<bv8>, p: nat, n: nat)
    requires p + n <= |m|
    ensures Kept(m, m, p, n)
  {}

  lemma KeptTrans(m: seq<bv8>, now: seq<bv8>, was: seq<bv8>, p: nat, n: nat)
    requires Kept(m, now, p, n) && Kept(now, was, p, n)
    ensures Kept(m, was, p, n)
  {}

  lemma KeptStore(m: seq<bv8>, p: nat, n: nat, at: nat, w: Window)
    requires p <= at && at + 4 <= p + n <= |m|
    ensures Kept(StoreBe32(m, at, w), m, p, n)
  {
    hide PackBytes;
    var s := StoreBe32(m, at, w);
    assert forall k :: 0 <= k < p ==> s[k] == m[k];
    assert forall k :: p + n <= k < |m| ==> s[k] == m[k];
  }

  lemma KeptOutside(m: seq<bv8>, was: seq<bv8>, p: nat, n: nat)
    requires Kept(m, was, p, n)
    ensures p + n <= |m| == |was| && m[..p] == was[..p] && m[p + n..] == was[p + n..]
  {}

  lemma WordInBuffer(prod: nat, nrWords: nat)
    requires 0 < prod <= 16 * nrWords && prod % 32 == 0
    ensures 4 * ((prod - 1) / 32) + 4 <= 2 * nrWords && (prod - 1) / 32 == prod / 32 - 1
  {}

  /** A window stored as the first word, of which the last n bits count. */
  lemma SyncBuffered(mem: seq<bv8>, p: nat, w: Window, n: nat)
    requires p + 4 <= |mem| && 31 <= n <= 32
    ensures Buffered(StoreBe32(mem, p, w), p, w, w[32 - n..])
  {
    hide PackBytes, BitsOf;
    var m := StoreBe32(mem, p, w);
    if n == 32 {
      BitsOfPack(w);
      assert m[p..p + 4] == PackBytes(w);
      assert w[0..] == w;
    } else {
      assert m[p..p] == [] && BitsOf([]) == [];
    }
  }

  lemma PushPartial(mem: seq<bv8>, p: nat, dat: Window, bits: seq<bool>, b: bool)
    requires Buffered(mem, p, dat, bits) && (|bits| + 1) % 32 != 0
    ensures Buffered(mem, p, dat[1..] + [b], bits + [b])
  {
    hide BitsOf;
    var n := |bits|;
    assert (n + 1) / 32 == n / 32 && (n + 1) % 32 == n % 32 + 1;
    assert (dat[1..] + [b])[32 - (n + 1) % 32..] == dat[32 - n % 32..] + [b];
    assert (bits + [b])[..n - n % 32] == bits[..n - n % 32];
    assert (bits + [b])[n - n % 32..] == bits[n - n % 32..] + [b];
  }

  lemma PushWord(mem: seq<bv8>, p: nat, dat: Window, bits: seq<bool>, b: bool)
    requires Buffered(mem, p, dat, bits) && (|bits| + 1) % 32 == 0
    requires p + 4 * (|bits| / 32) + 4 <= |mem|
    ensures Buffered(StoreBe32(mem, p + 4 * (|bits| / 32), dat[1..] + [b]), p, dat[1..] + [b], bits + [b])
  {
    hide BitsOf, PackBytes;
    var n, w := |bits|, dat[1..] + [b];
    var k := n / 32;
    var at := p + 4 * k;
    var m := StoreBe32(mem, at, w);
    assert n % 32 == 31 && (n + 1) / 32 == k + 1 && (n + 1) % 32 == 0;
    assert m[p..p + 4 * (k + 1)] == mem[p..at] + PackBytes(w);
    BitsOfConcat(mem[p..at], PackBytes(w));
    BitsOfPack(w);
    assert dat[1..] == bits[n - 31..];
    assert bits + [b] == bits[..n - 31] + w;
  }

  lemma PushStep(m: seq<bv8>, p: nat, nrWords: nat, dat: Window, bits: seq<bool>, b: bool)
    requires nrWords % 2 == 0 && p + 2 * nrWords <= |m| && |bits| < 16 * nrWords && Buffered(m, p, dat, bits)
    ensures if (|bits| + 1) % 32 == 0 then
              var at := p + 4 * (|bits| / 32);
              at + 4 <= |m| && Buffered(StoreBe32(m, at, dat[1..] + [b]), p, dat[1..] + [b], bits + [b])
              && Kept(StoreBe32(m, at, dat[1..] + [b]), m, p, 2 * nrWords)
            else Buffered(m, p, dat[1..] + [b], bits + [b]) && Kept(m, m, p, 2 * nrWords) && |bits| + 1 != 16 * nrWords
  {
    hide Buffered, BitsOf, StoreBe32, Kept;
    if (|bits| + 1) % 32 == 0 {
      WordInBuffer(|bits| + 1, nrWords);
      PushWord(m, p, dat, bits, b);
      KeptStore(m, p, 2 * nrWords, p + 4 * (|bits| / 32), dat[1..] + [b]);
    } else {
      PushPartial(m, p, dat, bits, b);
      KeptSame(m, p, 2 * nrWords);
    }
  }

  // ----- runs of the decoder

  /** Memory, the window, how many cells there are, and whether the buffer has been found full. */
  datatype Cursor = Cursor(mem: seq<bv8>, dat: Window, prod: nat, done: bool)

  /** A cell is shifted in; a window that completes a word goes to where that word belongs, be it in the buffer or not, and
      only then is the count compared with what the buffer takes. */
  function PushBit(s: Cursor, p: nat, max: nat, b: bool): Cursor {
    if s.done then s
    else
      var dat, prod, at := s.dat[1..] + [b], s.prod + 1, p + 4 * (s.prod / 32);
      if prod % 32 != 0 then Cursor(s.mem, dat, prod, false)
      else Cursor(if at + 4 <= |s.mem| then StoreBe32(s.mem, at, dat) else s.mem, dat, prod, prod == max)
  }

  function PushBits(s: Cursor, p: nat, max: nat, cells: seq<bool>): Cursor
    decreases |cells|
  {
    if cells == [] then s
    else PushBit(PushBits(s, p, max, cells[..|cells| - 1]), p, max, cells[|cells| - 1])
  }

  lemma PushNext(s: Cursor, p: nat, max: nat, cells: seq<bool>, b: bool)
    ensures PushBits(s, p, max, cells + [b]) == PushBit(PushBits(s, p, max, cells), p, max, b)
  {
    hide PushBit;
    assert (cells + [b])[..|cells|] == cells;
  }

  /** Once the buffer is full nothing more happens. */
  lemma {:induction false} DoneStays(s: Cursor, p: nat, max: nat, a: seq<bool>, b: seq<bool>)
    requires PushBits(s, p, max, a).done
    ensures PushBits(s, p, max, a + b) == PushBits(s, p, max, a)
    decreases |b|
  {
    if b == [] {
      assert a + b == a;
    } else {
      var init := b[..|b| - 1];
      DoneStays(s, p, max, a, init);
      assert a + b == (a + init) + [b[|b| - 1]];
      PushNext(s, p, max, a + init, b[|b| - 1]);
    }
  }

  /** What a run over cells leaves that had these bits when it began, and room for more. */
  ghost predicate Ran(s: Cursor, m: seq<bv8>, p: nat, nrWords: nat, all: seq<bool>) {
    && (s.done <==> |all| >= 16 * nrWords)
    && var got := if s.done then all[..16 * nrWords] else all;
       s.prod == |got| && Buffered(s.mem, p, s.dat, got) && Kept(s.mem, m, p, 2 * nrWords)
  }

  lemma RunStep(s: Cursor, m: seq<bv8>, p: nat, nrWords: nat, all: seq<bool>, b: bool)
    requires nrWords % 2 == 0 && p + 2 * nrWords <= |m| && Ran(s, m, p, nrWords, all)
    ensures Ran(PushBit(s, p, 16 * nrWords, b), m, p, nrWords, all + [b])
  {
    hide Buffered, Kept, StoreBe32;
    if s.done {
      assert (all + [b])[..16 * nrWords] == all[..16 * nrWords];
    } else {
      KeptOutside(s.mem, m, p, 2 * nrWords);
      PushStep(s.mem, p, nrWords, s.dat, all, b);
      KeptTrans(PushBit(s, p, 16 * nrWords, b).mem, s.mem, m, p, 2 * nrWords);
      FullOnWord(|all|, nrWords);
      assert (all + [b])[..|all| + 1] == all + [b];
    }
  }

  /** A run that starts with room in the buffer fills it and stops, and stays within it. */
  lemma {:induction false} PushRun(m: seq<bv8>, p: nat, nrWords: nat, dat: Window, bits: seq<bool>, cells: seq<bool>)
    requires nrWords % 2 == 0 && p + 2 * nrWords <= |m| && |bits| < 16 * nrWords && Buffered(m, p, dat, bits)
    ensures Ran(PushBits(Cursor(m, dat, |bits|, false), p, 16 * nrWords, cells), m, p, nrWords, bits + cells)
    decreases |cells|
  {
    hide Buffered, Kept, PushBit;
    if cells == [] {
      assert bits + cells == bits;
      KeptSame(m, p, 2 * nrWords);
    } else {
      hide Ran;
      var init, b := cells[..|cells| - 1], cells[|cells| - 1];
      PushRun(m, p, nrWords, dat, bits, init);
      RunStep(PushBits(Cursor(m, dat, |bits|, false), p, 16 * nrWords, init), m, p, nrWords, bits + init, b);
      assert bits + cells == bits + init + [b];
    }
  }

  lemma FullOnWord(n: nat, nrWords: nat)
    requires nrWords % 2 == 0
    ensures n + 1 == 16 * nrWords ==> (n + 1) % 32 == 0
  {}

  lemma WordOf(prod: nat)
    requires (prod + 1) % 32 == 0
    ensures (prod + 1 - 1) / 32 == prod / 32
  {}

  lemma NoBits(s: Cursor, p: nat, max: nat)
    ensures Zeros(0) == [] && PushBits(s, p, max, Zeros(0)) == s
  {
    assert Zeros(0) == [];
  }

  /** A word completed within the buffer is stored within it. */
  lemma WordReached(p: nat, prod: nat, nrWords: nat, length: nat)
    ensures nrWords % 2 == 0 && prod < 16 * nrWords && p + 2 * nrWords <= length && (prod + 1) % 32 == 0
        ==> p + 4 * (prod / 32) + 4 <= length
  {}

  lemma LaterWord(prod: nat, end: nat)
    requires 0 < prod
    ensures prod <= end && prod % 32 == 0 ==> 4 * ((prod - 1) / 32) + 4 <= 4 * (end / 32)
  {}

  /** While there is room, the buffer is found full before it is overrun. */
  lemma NextCursor(s: Cursor, p: nat, nrWords: nat, b: bool)
    requires !s.done
    ensures var r := PushBit(s, p, 16 * nrWords, b);
            r.prod == s.prod + 1 && (nrWords % 2 == 0 && s.prod < 16 * nrWords && !r.done ==> r.prod < 16 * nrWords)
  {
    hide StoreBe32;
  }

  /** Cells in the buffer when decoding begins. */
  function Held(sync: Sync): nat { if sync == NoSync then 0 else SyncFound(sync) }

  /** Where decoding begins: with the window in the first word when a mark has been found. */
  function Begun(sync: Sync, m: seq<bv8>, p: nat, w: Window): Cursor
    requires p + 4 <= |m|
  {
    Cursor(if sync == NoSync then m else StoreBe32(m, p, w), w, Held(sync), false)
  }

  /** Whatever memory holds and whatever cells arrive, the decoder writes within its buffer. */
  ghost predicate StaysInside(sync: Sync, nrWords: nat) {
    forall m: seq<bv8>, p: nat, w: Window, cells: seq<bool> :: p + 4 <= |m| && p + 2 * nrWords <= |m| ==>
      Kept(PushBits(Begun(sync, m, p, w), p, 16 * nrWords, cells).mem, m, p, 2 * nrWords)
  }

  lemma BegunInside(sync: Sync, nrWords: nat, m: seq<bv8>, p: nat, w: Window, cells: seq<bool>)
    requires nrWords % 2 == 0 && Held(sync) < 16 * nrWords && p + 4 <= |m| && p + 2 * nrWords <= |m|
    ensures Kept(PushBits(Begun(sync, m, p, w), p, 16 * nrWords, cells).mem, m, p, 2 * nrWords)
  {
    hide Kept, Buffered, StoreBe32, PushBits;
    if sync == NoSync {
      NoneBuffered(m, p, w);
      PushRun(m, p, nrWords, w, [], cells);
    } else {
      var n := SyncFound(sync);
      SyncBuffered(m, p, w, n);
      KeptStore(m, p, 2 * nrWords, p, w);
      var s := StoreBe32(m, p, w);
      PushRun(s, p, nrWords, w, w[32 - n..], cells);
      KeptTrans(PushBits(Begun(sync, m, p, w), p, 16 * nrWords, cells).mem, s, m, p, 2 * nrWords);
    }
  }

  lemma NoneBuffered(m: seq<bv8>, p: nat, w: Window)
    requires p <= |m|
    ensures Buffered(m, p, w, [])
  {
    assert m[p..p] == [] && BitsOf([]) == [];
  }

  lemma NoOnes(s: Cursor, p: nat, max: nat)
    ensures PushBits(s, p, max, Ones(0)) == s
  {}

  lemma OnesNext(n: nat)
    requires n > 0
    ensures Ones(n) == Ones(n - 1) + [true] && Ones(32)[1..] + [true] == Ones(32)
  {}

  /** A run of ones that never finds the buffer full. */
  lemma {:induction false} OnesRun(sync: Sync, nrWords: nat, m: seq<bv8>, n: nat)
    requires 4 <= |m| && (nrWords % 2 == 0 ==> Held(sync) >= 16 * nrWords)
    ensures var s := PushBits(Begun(sync, m, 0, Ones(32)), 0, 16 * nrWords, Ones(n));
            !s.done && s.dat == Ones(32) && s.prod == Held(sync) + n && |s.mem| == |m|
    decreases n
  {
    hide StoreBe32, PushBits, Ones;
    if n == 0 {
      NoOnes(Begun(sync, m, 0, Ones(32)), 0, 16 * nrWords);
    } else {
      OnesRun(sync, nrWords, m, n - 1);
      OnesNext(n);
      PushNext(Begun(sync, m, 0, Ones(32)), 0, 16 * nrWords, Ones(n - 1), true);
      NeverFull(nrWords, Held(sync) + n);
    }
  }

  lemma NeverFull(nrWords: nat, prod: nat)
    ensures prod % 32 == 0 && prod == 16 * nrWords ==> nrWords % 2 == 0
  {}

  /** It writes beyond the buffer. */
  lemma RunsPast(sync: Sync, nrWords: nat)
    requires nrWords % 2 == 0 ==> Held(sync) >= 16 * nrWords
    ensures !StaysInside(sync, nrWords)
  {
    hide StoreBe32, PushBits, Kept;
    var k := nrWords + 2;
    var m := seq(4 * k, i => 0x00 as bv8);
    var n, start := 32 * k - Held(sync), Begun(sync, m, 0, Ones(32));
    OnesRun(sync, nrWords, m, n - 1);
    OnesRun(sync, nrWords, m, n);
    assert Ones(n) == Ones(n - 1) + [true];
    PushNext(start, 0, 16 * nrWords, Ones(n - 1), true);
    var s, r := PushBits(start, 0, 16 * nrWords, Ones(n - 1)), PushBits(start, 0, 16 * nrWords, Ones(n));
    assert s.prod + 1 == 32 * k && s.prod / 32 == k - 1;
    assert Ones(32)[1..] + [true] == Ones(32);
    assert r.mem == StoreBe32(s.mem, 4 * k - 4, Ones(32));
    LastByteSet(s.mem, 4 * k - 4);
    Changed(r.mem, m, 2 * nrWords, 4 * k - 1);
  }

  lemma LastByteSet(m: seq<bv8>, at: nat)
    requires at + 4 <= |m|
    ensures StoreBe32(m, at, Ones(32))[at + 3] != 0x00
  {
    hide Pack;
    var w := Ones(32);
    assert PackBytes(w)[3] == Pack(w[24..32]);
    PackBit(w[24..32], 0);
    assert w[24..32][0];
    ZeroHasNoBits();
  }

  lemma ZeroHasNoBits()
    ensures !Bit(0x00, 0)
  {}

  lemma KeptAt(r: seq<bv8>, m: seq<bv8>, p: nat, n: nat, at: nat)
    requires Kept(r, m, p, n) && p + n <= at < |m|
    ensures |r| == |m| && r[at] == m[at]
  {
    assert r[p + n..][at - p - n] == m[p + n..][at - p - n];
  }

  lemma Changed(r: seq<bv8>, m: seq<bv8>, n: nat, at: nat)
    requires n <= at < |m| == |r| && r[at] != m[at]
    ensures !Kept(r, m, 0, n)
  {
    if Kept(r, m, 0, n) {
      KeptAt(r, m, 0, n, at);
    }
  }

  /** It does so for an odd number of words, whose end no completed word meets, or when the mark alone fills the buffer,
      before the first comparison; and for no others. */
  lemma OverrunsExactly(sync: Sync, nrWords: nat)
    ensures StaysInside(sync, nrWords) <==> nrWords % 2 == 0 && Held(sync) < 16 * nrWords
  {
    hide Kept, PushBits, Begun;
    if nrWords % 2 == 0 && Held(sync) < 16 * nrWords {
      forall m: seq<bv8>, p: nat, w: Window, cells: seq<bool> | p + 4 <= |m| && p + 2 * nrWords <= |m|
        ensures Kept(PushBits(Begun(sync, m, p, w), p, 16 * nrWords, cells).mem, m, p, 2 * nrWords)
      {
        BegunInside(sync, nrWords, m, p, w, cells);
      }
    } else {
      RunsPast(sync, nrWords);
    }
  }

  // ----- captures in the ring

  /** The timer value of the last capture consumed. */
  function LastCapture(prev: nat, caps: seq<nat>, from: nat, upto: nat): nat
    requires from <= upto <= |caps|
  {
    if from == upto then prev else caps[upto - 1]
  }

  /** The interval just fetched is the next one either loop counts. */
  lemma NextCount(prev: nat, caps: seq<nat>, from: nat, k: nat, cell: nat, curr: nat)
    requires cell > 0 && from + k < |caps|
    requires curr == (caps[from + k] - LastCapture(prev, caps, from, from + k)) % U16
    ensures HuntCounts(Deltas(prev, caps[from..]), cell)[k] == HuntCount(curr, cell)
    ensures LoopCounts(Deltas(prev, caps[from..]), cell)[k] == CellCount(curr, cell)
  {
    hide CellCount, ClosedCount, HuntCount;
  }

  lemma Behind(taken: nat, target: nat)
    requires taken <= target < taken + RING && taken % RING != target % RING
    ensures taken < target
  {}

  lemma NotBehind(taken: nat, target: nat)
    requires taken <= target < taken + RING && taken % RING == target % RING
    ensures taken == target
  {
    if taken < target { SlotsDiffer(taken, target); }
  }

  lemma ReadSlot(slots: seq<nat>, log: seq<nat>, i: nat)
    requires Holds(slots, log, i) && i < |log|
    ensures slots[i % RING] == log[i]
  {}

  /** One hunt over the captures from..|caps|: it consumes up to a capture, extends the stream of cells
      seen by exactly the cells of the captures consumed, and stops at the first sync mark if there is one. */
  predicate HuntResult(sync: Sync, cell: nat, prev: nat, caps: seq<nat>, from: nat, upto: nat,
                       before: seq<bool>, after: seq<bool>, prev': nat, found: bool)
    requires cell > 0
  {
    && from <= upto <= |caps|
    && |before| >= 32
    && prev' == LastCapture(prev, caps, from, upto)
    && var counts := HuntCounts(Deltas(prev, caps[from..]), cell);
       && after == before + Unroll(counts[..upto - from])
       && (found ==> StopsAt(sync, before, counts, upto - from))
       && (!found ==> upto == |caps| && SilentUpTo(sync, before, counts, upto - from))
  }

  /** One decoding run over the captures from..|caps|: the cells extend the bits so far, cut off at the
      buffer's size, and the run is done exactly when the buffer is full. */
  predicate DecodeResult(cell: nat, prev: nat, caps: seq<nat>, from: nat, bits: seq<bool>, max: nat,
                         upto: nat, prev': nat, bits': seq<bool>, done: bool)
    requires cell > 0
  {
    && from <= |caps|
    && var all := bits + Unroll(LoopCounts(Deltas(prev, caps[from..]), cell));
       && (done <==> |all| >= max)
       && bits' == (if done then all[..max] else all)
       && (!done ==> upto == |caps| && prev' == LastCapture(prev, caps, from, upto))
  }

  lemma {:induction false} UnrollPrefix(counts: seq<Gap>, k: nat)
    requires k <= |counts|
    ensures |Unroll(counts[..k])| <= |Unroll(counts)|
    ensures Unroll(counts)[..|Unroll(counts[..k])|] == Unroll(counts[..k])
    decreases |counts|
  {
    if k == |counts| {
      assert counts[..k] == counts;
    } else {
      assert counts[..|counts| - 1][..k] == counts[..k];
      UnrollPrefix(counts[..|counts| - 1], k);
    }
  }

  /** The bits before and the cells of the first k counts. */
  function SoFar(bits: seq<bool>, counts: seq<Gap>, k: nat): seq<bool>
    requires k <= |counts|
  {
    bits + Unroll(counts[..k])
  }

  lemma DecodeBegin(bits: seq<bool>, counts: seq<Gap>)
    ensures SoFar(bits, counts, 0) == bits
  {}

  lemma DecodeNext(bits: seq<bool>, counts: seq<Gap>, k: nat)
    requires k < |counts|
    ensures SoFar(bits, counts, k) + GapCells(counts[k]) == SoFar(bits, counts, k + 1)
  {
    hide Unroll, GapCells;
    UnrollNext(counts, k);
  }

  lemma BufferedFull(mem: seq<bv8>, p: nat, dat: Window, bits: seq<bool>)
    requires Buffered(mem, p, dat, bits) && |bits| % 32 == 0
    ensures p + |bits| / 8 <= |mem| && BitsOf(mem[p..p + |bits| / 8]) == bits
  {
    assert 4 * (|bits| / 32) == |bits| / 8;
  }

  /** Stopping inside the k-th interval leaves a prefix of what the whole run would give. */
  lemma CutOff(bits: seq<bool>, counts: seq<Gap>, k: nat, max: nat)
    requires k < |counts| && |bits + Unroll(counts[..k]) + GapCells(counts[k])| >= max
    ensures |bits + Unroll(counts)| >= max
    ensures (bits + Unroll(counts))[..max] == (bits + Unroll(counts[..k]) + GapCells(counts[k]))[..max]
  {
    hide Unroll, GapCells;
    UnrollPrefix(counts, k + 1);
    UnrollNext(counts, k);
    var u, v := Unroll(counts[..k + 1]), Unroll(counts);
    assert bits + Unroll(counts[..k]) + GapCells(counts[k]) == bits + u;
    assert v == u + v[|u|..];
    assert (bits + v) == (bits + u) + v[|u|..];
  }

  lemma NoneTaken(prev: nat, caps: seq<nat>, from: nat)
    requires from <= |caps|
    ensures LastCapture(prev, caps, from, from) == prev
  {}

  /** A run that fills the buffer inside its k-th interval needs no capture after that one. */
  lemma RunDone(cell: nat, prev: nat, caps: seq<nat>, from: nat, bits: seq<bool>, max: nat, k: nat, upto: nat, prev': nat,
                all: seq<bool>)
    requires cell > 0 && from + k < |caps|
    requires var counts := LoopCounts(Deltas(prev, caps[from..]), cell);
             var cells := SoFar(bits, counts, k) + GapCells(counts[k]);
             |cells| >= max && all == cells[..max]
    ensures DecodeResult(cell, prev, caps[..from + k + 1], from, bits, max, upto, prev', all, true)
  {
    hide Unroll, GapCells, LoopCounts, Deltas;
    var few := caps[..from + k + 1];
    CountsOfPrefix(cell, prev, caps, from, k);
    CutOff(bits, LoopCounts(Deltas(prev, few[from..]), cell), k, max);
  }

  lemma CountsOfPrefix(cell: nat, prev: nat, caps: seq<nat>, from: nat, k: nat)
    requires cell > 0 && from + k < |caps|
    ensures var counts, few := LoopCounts(Deltas(prev, caps[from..]), cell), caps[..from + k + 1];
            && |Deltas(prev, few[from..])| == k + 1
            && LoopCounts(Deltas(prev, few[from..]), cell)[..k] == counts[..k]
            && LoopCounts(Deltas(prev, few[from..]), cell)[k] == counts[k]
  {
    hide CellCount;
    var counts, few := LoopCounts(Deltas(prev, caps[from..]), cell), caps[..from + k + 1];
    var fewer := LoopCounts(Deltas(prev, few[from..]), cell);
    forall j | 0 <= j <= k
      ensures fewer[j] == counts[j]
    {
      assert few[from..][j] == caps[from..][j];
    }
  }

  /** A run over every capture that does not fill it. */
  lemma RunOut(cell: nat, prev: nat, caps: seq<nat>, from: nat, bits: seq<bool>, max: nat)
    requires cell > 0 && from <= |caps|
    requires var counts := LoopCounts(Deltas(prev, caps[from..]), cell); |SoFar(bits, counts, |counts|)| < max
    ensures var counts := LoopCounts(Deltas(prev, caps[from..]), cell);
            DecodeResult(cell, prev, caps, from, bits, max, |caps|, LastCapture(prev, caps, from, |caps|),
                         SoFar(bits, counts, |counts|), false)
  {
    hide Unroll, LoopCounts, Deltas;
    var counts := LoopCounts(Deltas(prev, caps[from..]), cell);
    assert counts[..|counts|] == counts;
  }

  // ----- runs compose: how the captures were batched does not show

  lemma DeltasSplit(prev: nat, caps: seq<nat>, from: nat, mid: nat)
    requires from <= mid <= |caps|
    ensures Deltas(prev, caps[from..])
         == Deltas(prev, caps[from..mid]) + Deltas(LastCapture(prev, caps, from, mid), caps[mid..])
  {}

  lemma HuntCountsSplit(cell: nat, prev: nat, caps: seq<nat>, from: nat, mid: nat)
    requires cell > 0 && from <= mid <= |caps|
    ensures HuntCounts(Deltas(prev, caps[from..]), cell)
         == HuntCounts(Deltas(prev, caps[from..mid]), cell)
          + HuntCounts(Deltas(LastCapture(prev, caps, from, mid), caps[mid..]), cell)
  {
    DeltasSplit(prev, caps, from, mid);
  }

  lemma LoopCountsSplit(cell: nat, prev: nat, caps: seq<nat>, from: nat, mid: nat)
    requires cell > 0 && from <= mid <= |caps|
    ensures LoopCounts(Deltas(prev, caps[from..]), cell)
         == LoopCounts(Deltas(prev, caps[from..mid]), cell)
          + LoopCounts(Deltas(LastCapture(prev, caps, from, mid), caps[mid..]), cell)
  {
    DeltasSplit(prev, caps, from, mid);
  }

  lemma SilentConcat(sync: Sync, before: seq<bool>, a: seq<Gap>, b: seq<Gap>, k: nat)
    requires |before| >= 32 && k <= |b|
    requires SilentUpTo(sync, before, a, |a|) && SilentUpTo(sync, before + Unroll(a), b, k)
    ensures SilentUpTo(sync, before, a + b, |a| + k)
  {
    hide Fires, Unroll, Tail;
    forall j | 0 < j <= |a| + k
      ensures !Fires(sync, Tail(before + Unroll((a + b)[..j])))
    {
      if j <= |a| {
        assert (a + b)[..j] == a[..j];
      } else {
        assert (a + b)[..j] == a + b[..j - |a|];
        UnrollConcat(a, b[..j - |a|]);
        assert before + Unroll(a) + Unroll(b[..j - |a|]) == before + Unroll((a + b)[..j]);
      }
    }
  }

  lemma UnrollExtend(before: seq<bool>, a: seq<Gap>, b: seq<Gap>, k: nat)
    requires k <= |b|
    ensures before + Unroll(a) + Unroll(b[..k]) == before + Unroll((a + b)[..|a| + k])
  {
    hide Unroll;
    assert (a + b)[..|a| + k] == a + b[..k];
    UnrollConcat(a, b[..k]);
  }

  /** A fruitless hunt followed by another is one hunt over all the captures. */
  lemma HuntCompose(sync: Sync, cell: nat, prev: nat, caps: seq<nat>, more: seq<nat>, from: nat, upto: nat,
                    before: seq<bool>, middle: seq<bool>, after: seq<bool>,
                    prev': nat, prev'': nat, found: bool)
    requires cell > 0 && caps <= more
    requires HuntResult(sync, cell, prev, caps, from, |caps|, before, middle, prev', false)
    requires HuntResult(sync, cell, prev', more, |caps|, upto, middle, after, prev'', found)
    ensures HuntResult(sync, cell, prev, more, from, upto, before, after, prev'', found)
  {
    hide Fires, Unroll, HuntCounts, Deltas, Tail;
    var mid := |caps|;
    assert more[from..mid] == caps[from..];
    HuntCountsSplit(cell, prev, more, from, mid);
    var a := HuntCounts(Deltas(prev, caps[from..]), cell);
    var b := HuntCounts(Deltas(prev', more[mid..]), cell);
    assert a[..|a|] == a;
    var k := upto - mid;
    SilentConcat(sync, before, a, b, if found then k - 1 else k);
    UnrollExtend(before, a, b, k);
  }

  /** A hunt that has stopped needs no capture but those it consumed. */
  lemma HuntCut(sync: Sync, cell: nat, prev: nat, caps: seq<nat>, from: nat, upto: nat,
                before: seq<bool>, after: seq<bool>, prev': nat)
    requires cell > 0 && HuntResult(sync, cell, prev, caps, from, upto, before, after, prev', true)
    ensures HuntResult(sync, cell, prev, caps[..upto], from, upto, before, after, prev', true)
  {
    hide Fires, Unroll, HuntCounts, Deltas, Tail;
    HuntCountsSplit(cell, prev, caps, from, upto);
    assert caps[..upto][from..] == caps[from..upto];
    var a := HuntCounts(Deltas(prev, caps[from..upto]), cell);
    var all := HuntCounts(Deltas(prev, caps[from..]), cell);
    forall j | 0 < j <= upto - from
      ensures all[..j] == a[..j]
    {}
  }

  /** A hunt that has stopped is not affected by captures that arrive later. */
  lemma HuntExtend(sync: Sync, cell: nat, prev: nat, caps: seq<nat>, more: seq<nat>, from: nat, upto: nat,
                   before: seq<bool>, after: seq<bool>, prev': nat)
    requires cell > 0 && caps <= more
    requires HuntResult(sync, cell, prev, caps, from, upto, before, after, prev', true)
    ensures HuntResult(sync, cell, prev, more, from, upto, before, after, prev', true)
  {
    hide Fires, Unroll, HuntCounts, Deltas, Tail;
    assert more[from..|caps|] == caps[from..];
    HuntCountsSplit(cell, prev, more, from, |caps|);
    var a := HuntCounts(Deltas(prev, caps[from..]), cell);
    var all := HuntCounts(Deltas(prev, more[from..]), cell);
    forall j | 0 < j <= upto - from
      ensures all[..j] == a[..j]
    {}
  }

  /** An unfinished decoding run followed by another is one run over all the captures. */
  lemma DecodeCompose(cell: nat, prev: nat, caps: seq<nat>, more: seq<nat>, from: nat, upto: nat,
                      bits: seq<bool>, middle: seq<bool>, after: seq<bool>, max: nat,
                      prev': nat, prev'': nat, done: bool)
    requires cell > 0 && caps <= more
    requires DecodeResult(cell, prev, caps, from, bits, max, |caps|, prev', middle, false)
    requires DecodeResult(cell, prev', more, |caps|, middle, max, upto, prev'', after, done)
    ensures DecodeResult(cell, prev, more, from, bits, max, upto, prev'', after, done)
  {
    hide Unroll, LoopCounts, Deltas;
    var mid := |caps|;
    assert more[from..mid] == caps[from..];
    LoopCountsSplit(cell, prev, more, from, mid);
    var a := LoopCounts(Deltas(prev, caps[from..]), cell);
    var b := LoopCounts(Deltas(prev', more[mid..]), cell);
    UnrollConcat(a, b);
    assert bits + Unroll(a) + Unroll(b) == bits + Unroll(a + b);
  }

  /** A full buffer is not affected by captures that arrive later. */
  lemma DecodeExtend(cell: nat, prev: nat, caps: seq<nat>, more: seq<nat>, from: nat, upto: nat,
                     bits: seq<bool>, after: seq<bool>, max: nat, prev': nat)
    requires cell > 0 && caps <= more
    requires DecodeResult(cell, prev, caps, from, bits, max, upto, prev', after, true)
    ensures DecodeResult(cell, prev, more, from, bits, max, upto, prev', after, true)
  {
    hide Unroll, LoopCounts, Deltas;
    assert more[from..|caps|] == caps[from..];
    LoopCountsSplit(cell, prev, more, from, |caps|);
    var a := LoopCounts(Deltas(prev, caps[from..]), cell);
    var b := LoopCounts(Deltas(LastCapture(prev, more, from, |caps|), more[|caps|..]), cell);
    UnrollConcat(a, b);
    assert bits + Unroll(a + b) == (bits + Unroll(a)) + Unroll(b);
  }

  /** Where decoding starts: at the first capture, or at the mark the hunt stopped at. */
  ghost predicate Started(sync: Sync, cell: nat, first: nat, caps: seq<nat>, from: nat, prev: nat,
                          seen: seq<bool>, start: seq<bool>)
    requires cell > 0
  {
    if sync == NoSync then from == 0 && prev == first && start == []
    else
      && HuntResult(sync, cell, first, caps, 0, from, Ones(32), seen, prev, true)
      && |seen| >= 32 && start == seen[|seen| - SyncFound(sync)..]
  }

  /** What a whole read of a capture stream delivers: the cells from the first sync mark on, or from the
      first capture on when no mark is awaited, cut off at the buffer's size. */
  ghost predicate ReadResult(sync: Sync, cell: nat, first: nat, caps: seq<nat>, max: nat, bits: seq<bool>)
    requires cell > 0
  {
    exists from, prev, seen, start :: Started(sync, cell, first, caps, from, prev, seen, start) &&
      exists upto, prev' :: DecodeResult(cell, prev, caps, from, start, max, upto, prev', bits, true)
  }

  lemma HuntNothing(sync: Sync, cell: nat, prev: nat, caps: seq<nat>, before: seq<bool>)
    requires cell > 0 && |before| >= 32
    ensures HuntResult(sync, cell, prev, caps, |caps|, |caps|, before, before, prev, false)
  {
    hide Fires;
    var counts := HuntCounts(Deltas(prev, caps[|caps|..]), cell);
    assert counts == [] && before + Unroll([]) == before;
  }

  lemma DecodeNothing(cell: nat, prev: nat, caps: seq<nat>, bits: seq<bool>, max: nat)
    requires cell > 0 && |bits| < max
    ensures DecodeResult(cell, prev, caps, |caps|, bits, max, |caps|, prev, bits, false)
  {
    var counts := LoopCounts(Deltas(prev, caps[|caps|..]), cell);
    assert counts == [] && bits + Unroll([]) == bits;
  }

  lemma HuntPosition(sync: Sync, cell: nat, prev: nat, caps: seq<nat>, from: nat, upto: nat,
                     before: seq<bool>, after: seq<bool>, prev': nat, found: bool)
    requires cell > 0
    requires HuntResult(sync, cell, prev, caps, from, upto, before, after, prev', found)
    ensures from <= upto <= |caps| && |after| >= 32 && (!found ==> upto == |caps|)
  {
    hide Fires, Unroll;
  }

  lemma DecodeFull(cell: nat, prev: nat, caps: seq<nat>, from: nat, bits: seq<bool>, max: nat,
                   upto: nat, prev': nat, upto': nat, prev'': nat, bits': seq<bool>)
    requires cell > 0
    requires DecodeResult(cell, prev, caps, from, bits, max, upto, prev', bits', true)
    ensures DecodeResult(cell, prev, caps, from, bits, max, upto', prev'', bits', true)
  {
    hide Unroll, LoopCounts, Deltas;
  }

  /** A hunt over every capture that finds nothing rules out a completed read of them. */
  lemma NotHeard(sync: Sync, cell: nat, first: nat, caps: seq<nat>, after: seq<bool>, prev: nat, max: nat,
                 bits: seq<bool>)
    requires cell > 0 && sync != NoSync
    requires HuntResult(sync, cell, first, caps, 0, |caps|, Ones(32), after, prev, false)
    ensures !ReadResult(sync, cell, first, caps, max, bits)
  {
    hide DecodeResult, Started, HuntResult;
    forall from, prev', seen, start
      ensures !Started(sync, cell, first, caps, from, prev', seen, start)
    {
      NeverStarted(sync, cell, first, caps, after, prev, from, prev', seen, start);
    }
  }

  lemma NeverStarted(sync: Sync, cell: nat, first: nat, caps: seq<nat>, after: seq<bool>, prev: nat, from: nat, prev': nat,
                     seen: seq<bool>, start: seq<bool>)
    requires cell > 0 && sync != NoSync
    requires HuntResult(sync, cell, first, caps, 0, |caps|, Ones(32), after, prev, false)
    ensures !Started(sync, cell, first, caps, from, prev', seen, start)
  {
    hide Fires, Unroll, Deltas, HuntCounts, Tail;
  }

  /** Where a hunt stops, it stops alone. */
  lemma OneStop(sync: Sync, before: seq<bool>, counts: seq<Gap>, j: nat, k: nat)
    requires |before| >= 32 && StopsAt(sync, before, counts, j) && StopsAt(sync, before, counts, k)
    ensures j == k
  {
    hide Fires, Unroll, Tail;
  }

  lemma OneStart(sync: Sync, cell: nat, first: nat, caps: seq<nat>, from: nat, prev: nat, seen: seq<bool>, start: seq<bool>,
                 from': nat, prev': nat, seen': seq<bool>, start': seq<bool>)
    requires cell > 0 && Started(sync, cell, first, caps, from, prev, seen, start)
    requires Started(sync, cell, first, caps, from', prev', seen', start')
    ensures from == from' && prev == prev' && start == start'
  {
    hide Unroll, Deltas, HuntCounts, StopsAt;
    if sync != NoSync {
      OneStop(sync, Ones(32), HuntCounts(Deltas(first, caps[0..]), cell), from, from');
    }
  }

  /** So does a decoding run over every capture that does not fill the buffer. */
  lemma NotFilled(sync: Sync, cell: nat, first: nat, caps: seq<nat>, from: nat, prev: nat, seen: seq<bool>,
                  start: seq<bool>, upto: nat, prev': nat, all: seq<bool>, max: nat, bits: seq<bool>)
    requires cell > 0 && Started(sync, cell, first, caps, from, prev, seen, start)
    requires DecodeResult(cell, prev, caps, from, start, max, upto, prev', all, false)
    ensures !ReadResult(sync, cell, first, caps, max, bits)
  {
    hide Started, Unroll, Deltas, LoopCounts;
    if ReadResult(sync, cell, first, caps, max, bits) {
      var from', prev1, seen', start' :| Started(sync, cell, first, caps, from', prev1, seen', start') &&
        exists upto', prev2 :: DecodeResult(cell, prev1, caps, from', start', max, upto', prev2, bits, true);
      OneStart(sync, cell, first, caps, from, prev, seen, start, from', prev1, seen', start');
      assert false;
    }
  }

  lemma StartedExtend(sync: Sync, cell: nat, first: nat, caps: seq<nat>, more: seq<nat>, from: nat, prev: nat,
                      seen: seq<bool>, start: seq<bool>)
    requires cell > 0 && caps <= more && Started(sync, cell, first, caps, from, prev, seen, start)
    ensures Started(sync, cell, first, more, from, prev, seen, start)
  {
    hide HuntResult;
    if sync != NoSync {
      HuntExtend(sync, cell, first, caps, more, 0, from, Ones(32), seen, prev);
    }
  }

  /** A completed read stays what it is when more captures arrive. */
  lemma ReadExtend(sync: Sync, cell: nat, first: nat, caps: seq<nat>, more: seq<nat>, max: nat, bits: seq<bool>)
    requires cell > 0 && caps <= more && ReadResult(sync, cell, first, caps, max, bits)
    ensures ReadResult(sync, cell, first, more, max, bits)
  {
    hide Started, DecodeResult;
    var from, prev, seen, start :| Started(sync, cell, first, caps, from, prev, seen, start) &&
      exists upto, prev' :: DecodeResult(cell, prev, caps, from, start, max, upto, prev', bits, true);
    var upto, prev' :| DecodeResult(cell, prev, caps, from, start, max, upto, prev', bits, true);
    DecodeExtend(cell, prev, caps, more, from, upto, start, bits, max, prev');
    Delivered(sync, cell, first, caps, more, from, prev, seen, start, upto, prev', max, bits);
  }

  lemma Delivered(sync: Sync, cell: nat, first: nat, huntCaps: seq<nat>, caps: seq<nat>, from: nat, prev: nat,
                  seen: seq<bool>, start: seq<bool>, upto: nat, prev': nat, max: nat, bits: seq<bool>)
    requires cell > 0 && huntCaps <= caps
    requires Started(sync, cell, first, huntCaps, from, prev, seen, start)
    requires DecodeResult(cell, prev, caps, from, start, max, upto, prev', bits, true)
    ensures ReadResult(sync, cell, first, caps, max, bits)
  {
    hide Started, DecodeResult;
    StartedExtend(sync, cell, first, huntCaps, caps, from, prev, seen, start);
  }

  // ----- when the mark began

  /** The time at which a mark began, reckoned back from the poll that found it: so many cells have gone by since the read
      began, and the mark is found of them long. Cells are reckoned in sixteenths of a tick and sixteen bits. */
  function MarkTime(now: nat, begun: nat, cells: nat, found: nat): (r: nat)
    requires cells > 0
    ensures r < U32
  {
    var c := (now - begun) % U32 * 16 % U32 / cells % U16;
    (now - found * c / 16) % U32
  }

  /** As long as the sums fit, that is the time the mark's share of the cells took, to within three ticks; and exactly that
      if a cell takes a whole number of ticks. */
  lemma MarkTimeIs(now: nat, begun: nat, cells: nat, found: nat)
    requires cells > 0 && 0 < found <= 32
    requires var t := (now - begun) % U32; t < 0x1000_0000 && 16 * t < U16 * cells
    ensures var t, back := (now - begun) % U32, (now - MarkTime(now, begun, cells, found)) % U32;
            && back * cells <= found * t < (back + 3) * cells
            && (t % cells == 0 ==> back == found * (t / cells))
  {
    hide MarkTime;
    var t := (now - begun) % U32;
    CellFits(t, cells);
    MarkTimeFrom(now, begun, cells, found, t, 16 * t / cells);
    Reckoned(t, cells, found);
  }

  lemma CellFits(t: nat, cells: nat)
    requires cells > 0 && 16 * t < U16 * cells
    ensures 16 * t / cells < U16
  {
    var c := 16 * t / cells;
    Division(16 * t, cells);
    if c >= U16 { MulMono(U16, c, cells); }
  }

  lemma Reckoned(t: nat, cells: nat, found: nat)
    requires cells > 0 && 0 < found <= 32
    ensures var back := found * (16 * t / cells) / 16;
            && back * cells <= found * t < (back + 3) * cells
            && (t % cells == 0 ==> back == found * (t / cells))
  {
    var c := 16 * t / cells;
    Division(16 * t, cells);
    Commute(cells, c);
    Distribute(cells, c, 1);
    Commute(cells, c + 1);
    ReckonedBack(t, cells, found, c, found * c / 16);
    if t % cells == 0 {
      Division(t, cells);
      Exactly(t, cells, found, t / cells);
    }
  }

  lemma MarkTimeFrom(now: nat, begun: nat, cells: nat, found: nat, t: nat, c: nat)
    requires cells > 0 && found <= 32 && t == (now - begun) % U32 && t < 0x1000_0000 && c == 16 * t / cells < U16
    ensures (now - MarkTime(now, begun, cells, found)) % U32 == found * c / 16
  {
    SmallMod(16 * t, U32);
    SmallMod(c, U16);
    MulMono(c, U16 - 1, found);
    MulMono(found, 32, U16 - 1);
    Backwards(now, found * c / 16);
  }

  lemma Exactly(t: nat, cells: nat, found: nat, q: nat)
    requires cells > 0 && t == cells * q
    ensures found * (16 * t / cells) / 16 == found * q
  {
    DivIs(16 * t, cells, 16 * q, 0);
    Commute(found, 16 * q);
    Associate(16, q, found);
    Commute(found, q);
    DivIs(found * (16 * q), 16, found * q, 0);
  }

  lemma Backwards(now: nat, back: nat)
    requires back < U32
    ensures (now - (now - back) % U32) % U32 == back
  {}

  lemma ReckonedBack(t: nat, cells: nat, found: nat, c: nat, back: nat)
    requires 0 < found <= 32 && c * cells <= 16 * t < (c + 1) * cells && 16 * back <= found * c < 16 * back + 16
    ensures back * cells <= found * t < (back + 3) * cells
  {
    NotBefore(t, cells, found, c, back);
    NotLongAfter(t, cells, found, c, back);
  }

  lemma NotBefore(t: nat, cells: nat, found: nat, c: nat, back: nat)
    requires c * cells <= 16 * t && 16 * back <= found * c
    ensures back * cells <= found * t
  {
    MulMono(16 * back, found * c, cells);
    Associate(16, back, cells);
    Associate(found, c, cells);
    Commute(found, c * cells);
    MulMono(c * cells, 16 * t, found);
    Associate(16, t, found);
    Commute(found, t);
  }

  lemma NotLongAfter(t: nat, cells: nat, found: nat, c: nat, back: nat)
    requires 0 < found <= 32 && 16 * t < (c + 1) * cells && found * c < 16 * back + 16
    ensures found * t < (back + 3) * cells
  {
    MulMono(16 * t + 1, (c + 1) * cells, found);
    Associate(16, t, found);
    Commute(found, t);
    Associate(found, c + 1, cells);
    Commute(found, (c + 1) * cells);
    Distribute(found, c, 1);
    MulMono(found * (c + 1), 16 * (back + 3), cells);
    Associate(16, back + 3, cells);
  }

  // ----- what has been heard by when

  /** One poll of a read: how many captures there have been when it looks for the DMA engine, and then before each turn of
      its loop, and the time when it is over. */
  datatype Poll = Poll(due: nat, during: seq<nat>, now: nat)

  /** There are never more than all of them. */
  predicate Within(polls: seq<Poll>, n: nat) {
    forall i :: 0 <= i < |polls| ==> polls[i].due <= n && DueWithin(polls[i].during, n)
  }

  predicate DueWithin(during: seq<nat>, n: nat) { forall j :: 0 <= j < |during| ==> during[j] <= n }

  /** The captures heard for certain in k polls. A poll hears all that are due if the ring has had room; the poll before,
      which stops at the mark, may have left what it heard itself, but nothing that came earlier. */
  function HeardBy(polls: seq<Poll>, k: nat): (r: nat)
    requires k <= |polls|
    ensures if k == 0 then r == 0 else r <= polls[k - 1].due
  {
    if k == 0 then 0
    else
      var room := (if k == 1 then 0 else HeardBy(polls, k - 2)) + RING - 1;
      if polls[k - 1].due < room then polls[k - 1].due else room
  }

  /** Fewer than 1024 have come since the poll before last. */
  predicate Roomy(polls: seq<Poll>, i: nat)
    requires i < |polls|
  {
    polls[i].due < (if i < 2 then 0 else polls[i - 2].due) + RING
  }

  /** While the ring has room every poll hears all that are due. */
  lemma {:induction false} AllHeard(polls: seq<Poll>, k: nat)
    requires 0 < k <= |polls| && forall i :: 0 <= i < k ==> Roomy(polls, i)
    ensures HeardBy(polls, k) == polls[k - 1].due
  {
    assert Roomy(polls, k - 1);
    if k > 2 { AllHeard(polls, k - 2); }
  }

  lemma NoPolls(polls: seq<Poll>)
    ensures HeardBy(polls, 0) == 0
  {}

  lemma HeardByNext(polls: seq<Poll>, k: nat, taken: nat, captured: nat)
    requires k < |polls| && (k > 0 ==> taken >= HeardBy(polls, k - 1))
    requires captured >= polls[k].due || captured + 1 >= taken + RING
    ensures captured >= HeardBy(polls, k + 1)
  {}

  // ----- the reader

  class FluxReader {
    const mem: array<bv8>
    const p: nat
    const nrWords: nat
    const cell: nat
    const sync: Sync
    /** The captures the timer makes, in order, whenever they come. */
    const source: seq<nat>
    var bcWindow: Window
    var bcProd: nat
    var start: nat

    const ring: array<nat>
    var cons: nat
    var prevSample: nat
    var dmaIdx: nat

    // History, kept for the contracts and to let the DMA engine stop short of lapping the consumer.
    var captured: seq<nat>
    var taken: nat
    ghost var hunted: seq<bool>
    ghost var bits: seq<bool>

    ghost predicate RingOk()
      reads this`taken, this`captured, this`dmaIdx, ring
    {
      && ring.Length == RING
      && taken <= |captured| < taken + RING
      && dmaIdx == |captured| % RING
      && Holds(ring[..], captured, taken)
      && captured <= source && AllU16(source)
    }

    lemma RingBounds()
      requires RingOk()
      ensures ring.Length == RING && taken <= |captured| < taken + RING && dmaIdx == |captured| % RING
      ensures captured <= source && captured == source[..|captured|]
    {}

    ghost predicate Valid()
      reads this`taken, this`captured, this`dmaIdx, this`cons, this`prevSample, ring
    {
      && RingOk()
      && ring as object != mem as object
      && cons == taken % RING
      && prevSample < U16
      && 0 < cell && cell + cell / 2 < U16
      && nrWords % 2 == 0 && p + 2 * nrWords <= mem.Length
    }

    /** The DMA engine stores captures until so many have been made, stopping short of lapping the consumer. */
    method Arrive(due: nat)
      requires RingOk() && due <= |source|
      modifies this`dmaIdx, this`captured, ring
      ensures RingOk() && old(captured) <= captured
      ensures |captured| >= due || |captured| + 1 == taken + RING
      ensures |captured| > |old(captured)| ==> |captured| <= due
    {
      hide Holds;
      while |captured| < due && |captured| + 1 < taken + RING
        invariant RingOk() && old(captured) <= captured
        invariant |captured| > |old(captured)| ==> |captured| <= due
        decreases due - |captured|
      {
        HoldsPush(ring[..], captured, taken, source[|captured|]);
        NextSlot(|captured|);
        ghost var slots := ring[..];
        ring[dmaIdx] := source[|captured|];
        assert ring[..] == slots[dmaIdx := source[|captured|]];
        dmaIdx := (dmaIdx + 1) % RING;
        captured := captured + [source[|captured|]];
      }
    }

    ghost predicate Hunting()
      reads this`hunted, this`bcWindow
    {
      |hunted| >= 32 && bcWindow == Tail(hunted)
    }

    ghost predicate Decoding()
      reads this`bcProd, this`bits, this`bcWindow, mem
    {
      && bcProd == |bits| < 16 * nrWords
      && p <= mem.Length
      && Buffered(mem[..], p, bcWindow, bits)
    }

    /** All cells hunted through so far are counted. */
    ghost predicate Counted()
      reads this`hunted, this`bcProd
    {
      bcProd == |hunted| - 32
    }

    /** Stores a window big-endian. */
    method StoreLong(at: nat, w: Window)
      requires at + 4 <= mem.Length
      modifies mem
      ensures mem[..] == StoreBe32(old(mem[..]), at, w)
    {
      hide PackBytes;
      var bytes := PackBytes(w);
      mem[at], mem[at + 1], mem[at + 2], mem[at + 3] := bytes[0], bytes[1], bytes[2], bytes[3];
    }

    /** Shifts a cell into the window, storing the window whenever it completes a word. */
    method PushCell(b: bool, dat: Window, prod: nat) returns (dat': Window, prod': nat, done: bool)
      requires (prod + 1) % 32 == 0 ==> p + 4 * (prod / 32) + 4 <= mem.Length
      modifies mem
      ensures Cursor(mem[..], dat', prod', done) == PushBit(Cursor(old(mem[..]), dat, prod, false), p, 16 * nrWords, b)
    {
      hide StoreBe32;
      dat' := dat[1..] + [b];
      prod' := prod + 1;
      done := false;
      if prod' % 32 == 0 {
        WordOf(prod);
        StoreLong(p + 4 * ((prod' - 1) / 32), dat');
        done := prod' == 16 * nrWords;
      }
    }

    /** The opening of both decoding loops: fetch the capture at c and step over it. Captures may
        arrive just before. */
    method Take(due: nat, c: nat, prev: nat) returns (c': nat, prev': nat, curr: nat)
      requires RingOk() && due <= |source|
      requires taken < |captured| && c == taken % RING
      modifies this`dmaIdx, this`captured, this`taken, ring
      ensures RingOk() && old(captured) <= captured && taken == old(taken) + 1
      ensures c' == taken % RING && prev' == old(captured)[old(taken)] && prev' < U16
      ensures curr == (prev' - prev) % U16
    {
      hide Holds;
      Arrive(due);
      ReadSlot(ring[..], captured, taken);
      var next := ring[c];
      c' := (c + 1) % RING;
      curr := (next - prev) % U16;
      prev' := next;
      HoldsLater(ring[..], captured, taken, taken + 1);
      NextSlot(taken);
      taken := taken + 1;
    }

    /** Makes the window the first word of the buffer, holding as many valid bits as the sync mark has. */
    method SaveSync()
      requires 2 <= nrWords && p + 2 * nrWords <= mem.Length
      modifies this`bcProd, this`bits, mem
      ensures bits == bcWindow[32 - SyncFound(sync)..]
      ensures |bits| < 16 * nrWords ==> Decoding()
      ensures Kept(mem[..], old(mem[..]), p, 2 * nrWords)
    {
      hide BitsOf, Kept, StoreBe32, Buffered;
      bcProd := SyncFound(sync);
      bits := bcWindow[32 - SyncFound(sync)..];
      SyncBuffered(mem[..], p, bcWindow, SyncFound(sync));
      KeptStore(mem[..], p, 2 * nrWords, p, bcWindow);
      StoreLong(p, bcWindow);
    }

    /** The hunting loop, on local copies of the progress fields. The DMA engine runs between iterations. */
    method HuntLoop(env: seq<nat>)
        returns (found: bool, dat: Window, prodBits: nat, prev: nat, c: nat, ghost after: seq<bool>)
      requires Valid() && Hunting()
      requires DueWithin(env, |source|)
      modifies this`dmaIdx, this`captured, this`taken, ring
      ensures RingOk() && old(captured) <= captured && c == taken % RING && prev < U16
      ensures HuntResult(sync, cell, prevSample, old(captured), old(taken), taken, hunted, after, prev, found)
      ensures |after| >= 32 && dat == Tail(after)
      ensures prodBits == bcProd + |after| - |hunted| && (found ==> |after| > |hunted|)
    {
      hide HuntCount, RingOk, Fires, ShiftIn, Tail, SilentUpTo, Unroll, Zeros, Deltas, HuntCounts;
      ghost var taken0, caps0 := taken, captured;
      RingBounds();
      ghost var counts := HuntCounts(Deltas(prevSample, captured[taken..]), cell);
      found := false;
      dat, prodBits, prev, c := bcWindow, bcProd, prevSample, cons;
      var prod := dmaIdx;
      var step := 0;
      HuntBegin(sync, hunted, counts);
      while c != prod && !found
        invariant RingOk() && caps0 <= captured && taken0 <= taken <= |caps0|
        invariant c == taken % RING
        invariant prev == LastCapture(prevSample, caps0, taken0, taken) && prev < U16
        invariant dat == Tail(hunted + Unroll(counts[..taken - taken0]))
        invariant prodBits == bcProd + |Unroll(counts[..taken - taken0])| && (found ==> prodBits > bcProd)
        invariant found ==> taken > taken0 && Fires(sync, dat)
        invariant SilentUpTo(sync, hunted, counts, if found then taken - taken0 - 1 else taken - taken0)
        decreases |caps0| - taken, !found
      {
        ghost var k := taken - taken0;
        RingBounds();
        Behind(taken, |caps0|);
        var curr;
        c, prev, curr := Take(if step < |env| then env[step] else 0, c, prev);
        step := step + 1;
        NextCount(prevSample, caps0, taken0, k, cell, curr);
        HuntStep(sync, hunted, counts, k, dat);
        UnrollNext(counts, k);
        var nr: nat := HuntCount(curr, cell);
        dat := ShiftIn(dat, nr);
        prodBits := prodBits + nr;
        found := Fires(sync, dat);
      }
      if !found {
        NotBehind(taken, |caps0|);
      }
      after := hunted + Unroll(counts[..taken - taken0]);
    }

    /** Hunts through the captures on hand for a sync mark. */
    method WaitSync(env: seq<nat>, now: nat) returns (found: bool)
      requires Valid() && Hunting() && Counted() && 2 <= nrWords
      requires DueWithin(env, |source|)
      modifies this`bcWindow, this`bcProd, this`cons, this`prevSample, this`dmaIdx,
               this`captured, this`taken, this`hunted, this`bits, this`start, ring, mem
      ensures Valid() && Hunting() && old(captured) <= captured
      ensures |hunted| >= 32 + (if found then 1 else 0)
      ensures if found then start == MarkTime(now, old(start), |hunted| - 32, SyncFound(sync))
              else Counted() && start == old(start)
      ensures HuntResult(sync, cell, old(prevSample), old(captured), old(taken), taken,
                         old(hunted), hunted, prevSample, found)
      ensures found ==> bits == bcWindow[32 - SyncFound(sync)..]
      ensures found && |bits| < 16 * nrWords ==> Decoding()
      ensures !found ==> mem[..] == old(mem[..])
      ensures Kept(mem[..], old(mem[..]), p, 2 * nrWords)
    {
      hide RingOk, HuntResult, Decoding, Kept, MarkTime;
      KeptSame(mem[..], p, 2 * nrWords);
      var dat, prodBits: nat, prev, c;
      found, dat, prodBits, prev, c, hunted := HuntLoop(env);
      bcWindow := dat;
      bcProd := prodBits;
      cons := c;
      prevSample := prev;
      if found {
        start := MarkTime(now, start, bcProd, SyncFound(sync));
        SaveSync();
      }
    }

    /** Shifts in the cells of one interval by repeated subtraction, unless the buffer fills first. Memory is taken to reach
        as far as the words completed. */
    method PushInterval(ticks: nat, dat0: Window, prod0: nat) returns (dat: Window, prod: nat, done: bool)
      requires 0 < cell && cell + cell / 2 < U16
      requires nrWords % 2 == 0 && prod0 < 16 * nrWords ==> p + 2 * nrWords <= mem.Length
      requires (nrWords % 2 == 0 && prod0 < 16 * nrWords) || p + 4 * ((prod0 + CellCount(ticks, cell)) / 32) <= mem.Length
      modifies mem
      ensures Cursor(mem[..], dat, prod, done)
           == PushBits(Cursor(old(mem[..]), dat0, prod0, false), p, 16 * nrWords, GapCells(CellCount(ticks, cell)))
    {
      hide PushBit, PushBits;
      ghost var start, max, room := Cursor(mem[..], dat0, prod0, false), 16 * nrWords, nrWords % 2 == 0 && prod0 < 16 * nrWords;
      var window := (cell + cell / 2) % U16;
      var curr := ticks;
      dat, prod, done := dat0, prod0, false;
      ghost var z := 0;
      NoBits(start, p, max);
      while curr > window
        invariant CellCount(ticks, cell) == z + CellCount(curr, cell)
        invariant Cursor(mem[..], dat, prod, false) == PushBits(start, p, max, Zeros(z))
        invariant prod == prod0 + z && (room ==> prod < max)
      {
        curr := curr - cell;
        WordReached(p, prod, nrWords, mem.Length);
        LaterWord(prod + 1, prod0 + CellCount(ticks, cell));
        PushNext(start, p, max, Zeros(z), false);
        NextCursor(Cursor(mem[..], dat, prod, false), p, nrWords, false);
        dat, prod, done := PushCell(false, dat, prod);
        z := z + 1;
        assert Zeros(z) == Zeros(z - 1) + [false];
        if done {
          DoneStays(start, p, max, Zeros(z), GapCells(CellCount(ticks, cell))[z..]);
          assert Zeros(z) + GapCells(CellCount(ticks, cell))[z..] == GapCells(CellCount(ticks, cell));
          return;
        }
      }
      WordReached(p, prod, nrWords, mem.Length);
      LaterWord(prod + 1, prod0 + CellCount(ticks, cell));
      PushNext(start, p, max, Zeros(z), true);
      dat, prod, done := PushCell(true, dat, prod);
      assert Zeros(z) + [true] == GapCells(CellCount(ticks, cell));
    }

    /** With room in the buffer, the cells of one interval join the bits so far, cut off when the buffer is full. */
    method DecodeInterval(ticks: nat, dat0: Window, prod0: nat, ghost sofar: seq<bool>)
        returns (dat: Window, prod: nat, done: bool, ghost sofar': seq<bool>)
      requires 0 < cell && cell + cell / 2 < U16
      requires nrWords % 2 == 0 && p + 2 * nrWords <= mem.Length
      requires prod0 == |sofar| < 16 * nrWords && Buffered(mem[..], p, dat0, sofar)
      modifies mem
      ensures var cells := sofar + GapCells(CellCount(ticks, cell));
              && (done <==> |cells| >= 16 * nrWords)
              && sofar' == (if done then cells[..16 * nrWords] else cells)
      ensures prod == |sofar'| && Buffered(mem[..], p, dat, sofar')
      ensures Kept(mem[..], old(mem[..]), p, 2 * nrWords)
    {
      hide Buffered, Kept, PushBits, GapCells, CellCount;
      ghost var cells := sofar + GapCells(CellCount(ticks, cell));
      PushRun(mem[..], p, nrWords, dat0, sofar, GapCells(CellCount(ticks, cell)));
      dat, prod, done := PushInterval(ticks, dat0, prod0);
      sofar' := if done then cells[..16 * nrWords] else cells;
    }

    /** One turn of the decoding loop: a capture is taken and its interval decoded. */
    method DecodeCapture(due: nat, c: nat, prev: nat, dat0: Window, prod0: nat,
                         ghost caps0: seq<nat>, ghost from: nat, ghost sofar: seq<bool>)
        returns (c': nat, prev': nat, dat: Window, prod: nat, done: bool, ghost sofar': seq<bool>)
      requires RingOk() && due <= |source| && ring as object != mem as object
      requires 0 < cell && cell + cell / 2 < U16 && nrWords % 2 == 0 && p + 2 * nrWords <= mem.Length
      requires from <= taken < |caps0| && caps0 <= captured && c == taken % RING
      requires prev == LastCapture(prevSample, caps0, from, taken)
      requires prod0 == |sofar| < 16 * nrWords && Buffered(mem[..], p, dat0, sofar)
      modifies this`dmaIdx, this`captured, this`taken, ring, mem
      ensures RingOk() && old(captured) <= captured && taken == old(taken) + 1 && c' == taken % RING
      ensures prev' == LastCapture(prevSample, caps0, from, taken) && prev' < U16
      ensures var cells := sofar + GapCells(LoopCounts(Deltas(prevSample, caps0[from..]), cell)[old(taken) - from]);
              && (done <==> |cells| >= 16 * nrWords)
              && sofar' == (if done then cells[..16 * nrWords] else cells)
      ensures prod == |sofar'| && Buffered(mem[..], p, dat, sofar')
      ensures Kept(mem[..], old(mem[..]), p, 2 * nrWords)
    {
      hide RingOk, Buffered, GapCells, Deltas, LoopCounts, CellCount, Kept;
      var curr;
      c', prev', curr := Take(due, c, prev);
      NextCount(prevSample, caps0, from, taken - 1 - from, cell, curr);
      dat, prod, done, sofar' := DecodeInterval(curr, dat0, prod0, sofar);
    }

    /** The decoding loop, on local copies of the progress fields. The DMA engine runs between iterations. */
    method DecodeLoop(env: seq<nat>)
        returns (done: bool, dat: Window, prodBits: nat, prev: nat, c: nat, ghost all: seq<bool>)
      requires Valid() && Decoding()
      requires DueWithin(env, |source|)
      modifies this`dmaIdx, this`captured, this`taken, ring, mem
      ensures RingOk() && old(captured) <= captured && c == taken % RING && prev < U16
      ensures old(taken) <= taken <= |old(captured)| && (!done ==> taken == |old(captured)|)
      ensures DecodeResult(cell, prevSample, captured[..taken], old(taken), bits, 16 * nrWords, taken, prev, all, done)
      ensures prodBits == |all| && Buffered(mem[..], p, dat, all)
      ensures |all| <= 16 * nrWords && (done <==> |all| == 16 * nrWords)
      ensures Kept(mem[..], old(mem[..]), p, 2 * nrWords)
    {
      hide RingOk, Buffered, Unroll, Zeros, GapCells, Deltas, LoopCounts, CellCount, Kept, DecodeResult, LastCapture, SoFar;
      ghost var taken0, caps0, was := taken, captured, mem[..];
      KeptSame(was, p, 2 * nrWords);
      RingBounds();
      ghost var counts := LoopCounts(Deltas(prevSample, captured[taken..]), cell);
      done := false;
      dat, prodBits, prev, c := bcWindow, bcProd, prevSample, cons;
      var prod := dmaIdx;
      var step := 0;
      all := bits;
      NoneTaken(prevSample, caps0, taken0);
      DecodeBegin(bits, counts);
      while c != prod
        invariant RingOk() && caps0 <= captured && taken0 <= taken <= |caps0|
        invariant c == taken % RING
        invariant prev == LastCapture(prevSample, caps0, taken0, taken) && prev < U16
        invariant all == SoFar(bits, counts, taken - taken0)
        invariant prodBits == |all| < 16 * nrWords && Buffered(mem[..], p, dat, all)
        invariant Kept(mem[..], was, p, 2 * nrWords)
        decreases |caps0| - taken
      {
        ghost var now := mem[..];
        ghost var k := taken - taken0;
        RingBounds();
        Behind(taken, |caps0|);
        c, prev, dat, prodBits, done, all :=
          DecodeCapture(if step < |env| then env[step] else 0, c, prev, dat, prodBits, caps0, taken0, all);
        step := step + 1;
        KeptTrans(mem[..], now, was, p, 2 * nrWords);
        if done {
          RunDone(cell, prevSample, caps0, taken0, bits, 16 * nrWords, k, taken, prev, all);
          assert captured[..taken] == caps0[..taken];
          return;
        }
        DecodeNext(bits, counts, k);
      }
      NotBehind(taken, |caps0|);
      RunOut(cell, prevSample, caps0, taken0, bits, 16 * nrWords);
      assert captured[..taken] == caps0;
    }

    /** Decodes the captures on hand into the buffer; true when the buffer is full. */
    method FluxToBc(env: seq<nat>) returns (done: bool)
      requires Valid() && Decoding()
      requires DueWithin(env, |source|)
      modifies this`bcWindow, this`bcProd, this`cons, this`prevSample, this`dmaIdx,
               this`captured, this`taken, this`bits, ring, mem
      ensures RingOk() && old(captured) <= captured
      ensures old(taken) <= taken <= |old(captured)| && (!done ==> taken == |old(captured)|)
      ensures DecodeResult(cell, old(prevSample), captured[..taken], old(taken), old(bits), 16 * nrWords,
                           taken, prevSample, bits, done)
      ensures !done ==> Valid() && Decoding()
      ensures done ==> BitsOf(mem[p..p + 2 * nrWords]) == bits
      ensures Kept(mem[..], old(mem[..]), p, 2 * nrWords)
    {
      hide RingOk, BitsOf, PackBytes, Unroll, DecodeResult, LastCapture, Zeros, Buffered, Kept;
      ghost var all;
      var dat, prodBits: nat, prev, c;
      done, dat, prodBits, prev, c, all := DecodeLoop(env);
      bits := all;
      if done {
        BufferedFull(mem[..], p, dat, all);
        DecodeFull(cell, prevSample, captured[..taken], old(taken), old(bits), 16 * nrWords, taken, prev, taken, prevSample, all);
        assert mem[..][p..p + 2 * nrWords] == mem[p..p + 2 * nrWords];
        return;
      }
      bcWindow := dat;
      bcProd := prodBits;
      cons := c;
      prevSample := prev;
    }

    /** floppy_read_prep: the window starts all ones, so no mark matches within the first 32 cells. */
    constructor (mem: array<bv8>, p: nat, nrWords: nat, cell: nat, sync: Sync, count: nat, source: seq<nat>)
      requires p + 2 * nrWords <= mem.Length && nrWords % 2 == 0 && AllU16(source)
      requires 0 < cell && cell + cell / 2 < U16 && count < U16
      ensures Valid() && Hunting() && fresh(this) && fresh(ring)
      ensures this.mem == mem && this.p == p && this.nrWords == nrWords
      ensures this.cell == cell && this.sync == sync && prevSample == count && this.source == source
      ensures captured == [] && taken == 0 && hunted == Ones(32) && bits == []
      ensures nrWords > 0 ==> Decoding()
    {
      this.mem, this.p, this.nrWords, this.cell, this.sync, this.source := mem, p, nrWords, cell, sync, source;
      bcWindow := seq(32, k => true);
      bcProd, start := 0, 0;
      ring := new nat[RING];
      cons, prevSample, dmaIdx := 0, count, 0;
      captured, taken := [], 0;
      hunted, bits := Ones(32), [];
      new;
      assert BitsOf(mem[..][p..p]) == [];
      assert Tail(Ones(32)) == Ones(32);
    }

    /** Polls for a sync mark. */
    method HuntAll(polls: seq<Poll>) returns (found: bool, n: nat)
      requires Valid() && Hunting() && Counted() && Decoding()
      requires Within(polls, |source|)
      modifies this, ring, mem
      ensures Valid() && Hunting() && n <= |polls| && old(taken) <= taken <= |captured| && captured <= source
      ensures captured[..taken] == source[..taken] && |hunted| >= 32 && (found ==> n > 0 && |hunted| > 32)
      ensures found ==> start == MarkTime(polls[n - 1].now, old(start), |hunted| - 32, SyncFound(sync))
      ensures HuntResult(sync, cell, old(prevSample), captured[..taken], old(taken), taken, old(hunted), hunted, prevSample,
                         found)
      ensures found ==> bits == bcWindow[32 - SyncFound(sync)..]
      ensures found && |bits| < 16 * nrWords ==> Decoding()
      ensures Kept(mem[..], old(mem[..]), p, 2 * nrWords)
      ensures !found ==> n == |polls| && taken >= HeardBy(polls, n)
      ensures n > 0 ==> taken >= HeardBy(polls, n - 1)
      ensures |captured| >= HeardBy(polls, n)
    {
      hide RingOk, BitsOf, HuntResult, LastCapture, Tail, Buffered, SyncFound, Zeros, Kept, HeardBy, MarkTime;
      ghost var prev0, taken0, hunted0 := prevSample, taken, hunted;
      KeptSame(mem[..], p, 2 * nrWords);
      RingBounds();
      assert nrWords >= 2;
      found, n := false, 0;
      HuntNothing(sync, cell, prevSample, captured[..taken], hunted);
      NoPolls(polls);
      while n < |polls|
        invariant Valid() && Hunting() && taken0 <= taken <= |captured| && n <= |polls|
        invariant HuntResult(sync, cell, prev0, captured[..taken], taken0, taken, hunted0, hunted, prevSample, false)
        invariant mem[..] == old(mem[..]) && captured <= source && Counted() && start == old(start)
        invariant taken >= HeardBy(polls, n) && (n > 0 ==> taken >= HeardBy(polls, n - 1))
      {
        ghost var before := captured[..taken];
        Arrive(polls[n].due);
        RingBounds();
        HeardByNext(polls, n, taken, |captured|);
        ghost var caps, hunted1, prev1 := captured, hunted, prevSample;
        assert before <= caps && |before| == taken;
        found := WaitSync(polls[n].during, polls[n].now);
        n := n + 1;
        RingBounds();
        HuntPosition(sync, cell, prev1, caps, |before|, taken, hunted1, hunted, prevSample, found);
        HuntCompose(sync, cell, prev0, before, caps, taken0, taken, hunted0, hunted1, hunted, prev1, prevSample, found);
        if found {
          HuntCut(sync, cell, prev0, caps, taken0, taken, hunted0, hunted, prevSample);
          assert captured[..taken] == caps[..taken];
          return;
        }
        assert captured[..taken] == caps;
      }
    }

    /** Polls from poll number k on until the buffer is full. */
    method DecodeAll(polls: seq<Poll>, k: nat) returns (done: bool, n: nat)
      requires Valid() && Decoding() && k <= |polls| && Within(polls, |source|)
      requires |captured| >= HeardBy(polls, k) && (k > 0 ==> taken >= HeardBy(polls, k - 1))
      modifies this, ring, mem
      ensures old(captured) <= captured <= source && old(taken) <= taken <= |captured|
      ensures captured[..taken] == source[..taken] && hunted == old(hunted) && start == old(start)
      ensures DecodeResult(cell, old(prevSample), captured[..taken], old(taken), old(bits), 16 * nrWords,
                           taken, prevSample, bits, done)
      ensures done ==> BitsOf(mem[p..p + 2 * nrWords]) == bits
      ensures Kept(mem[..], old(mem[..]), p, 2 * nrWords)
      ensures k <= n <= |polls| && (done ==> k < n)
      ensures !done ==> n == |polls| && (n > 0 ==> taken >= HeardBy(polls, n - 1))
      ensures !done ==> if k < n then taken >= HeardBy(polls, n) else taken == old(taken)
    {
      hide RingOk, BitsOf, DecodeResult, LastCapture, Buffered, Zeros, Kept, HeardBy;
      ghost var prev0, taken0, bits0, captured0, was := prevSample, taken, bits, captured, mem[..];
      KeptSame(was, p, 2 * nrWords);
      RingBounds();
      done, n := false, k;
      DecodeNothing(cell, prevSample, captured[..taken], bits, 16 * nrWords);
      while n < |polls|
        invariant Valid() && Decoding() && taken0 <= taken <= |captured| && captured0 <= captured <= source
        invariant DecodeResult(cell, prev0, captured[..taken], taken0, bits0, 16 * nrWords, taken, prevSample, bits, false)
        invariant Kept(mem[..], was, p, 2 * nrWords) && hunted == old(hunted) && start == old(start)
        invariant k <= n <= |polls| && |captured| >= HeardBy(polls, n) && (n > 0 ==> taken >= HeardBy(polls, n - 1))
        invariant if k < n then taken >= HeardBy(polls, n) else taken == taken0
      {
        ghost var now := mem[..];
        ghost var before := captured[..taken];
        Arrive(polls[n].due);
        RingBounds();
        HeardByNext(polls, n, taken, |captured|);
        ghost var caps, bits1, prev1 := captured, bits, prevSample;
        assert before <= caps && |before| == taken;
        done := FluxToBc(polls[n].during);
        n := n + 1;
        KeptTrans(mem[..], now, was, p, 2 * nrWords);
        RingBounds();
        assert before <= captured[..taken];
        DecodeCompose(cell, prev0, before, captured[..taken], taken0, taken, bits0, bits1, bits, 16 * nrWords, prev1,
                      prevSample, done);
        if done { return; }
      }
    }

    /** The first n captures make a whole read. */
    ghost predicate Makes(n: nat, first: nat)
      requires cell > 0 && n <= |source|
    {
      exists b :: ReadResult(sync, cell, first, source[..n], 16 * nrWords, b)
    }

    /** The cells hunted through are those of the captures up to the mark. */
    ghost predicate Marked(caps: seq<nat>, first: nat)
      requires cell > 0
      reads this`hunted
    {
      exists from, prev, start :: Started(sync, cell, first, caps, from, prev, hunted, start)
    }

    /** The hunt stopped behind the first n captures. */
    ghost predicate StoppedAt(n: nat, first: nat)
      requires cell > 0 && n <= |source|
    {
      exists prev, seen, start :: Started(sync, cell, first, source[..n], n, prev, seen, start)
    }

    /** Where decoding is to start. */
    lemma Begin(first: nat)
      requires cell > 0 && taken <= |source|
      requires if sync == NoSync then taken == 0 && prevSample == first && bits == []
               else && HuntResult(sync, cell, first, source[..taken], 0, taken, Ones(32), hunted, prevSample, true)
                    && |hunted| >= 32 && bcWindow == Tail(hunted) && bits == bcWindow[32 - SyncFound(sync)..]
      ensures Started(sync, cell, first, source[..taken], taken, prevSample, hunted, bits)
    {
      hide HuntResult;
    }

    lemma Stopped(first: nat, from: nat, prev: nat, seen: seq<bool>, start: seq<bool>)
      requires cell > 0 && taken <= |source| && Started(sync, cell, first, source[..taken], from, prev, seen, start)
      ensures from == taken ==> StoppedAt(taken, first)
      ensures seen == hunted ==> Marked(source[..taken], first)
    {}

    lemma Done(first: nat, b: seq<bool>)
      requires cell > 0 && taken <= |source| && ReadResult(sync, cell, first, source[..taken], 16 * nrWords, b)
      ensures Makes(taken, first)
    {}

    lemma HuntUndone(first: nat)
      requires cell > 0 && sync != NoSync && taken <= |source|
      requires HuntResult(sync, cell, first, source[..taken], 0, taken, Ones(32), hunted, prevSample, false)
      ensures !Makes(taken, first)
    {
      hide ReadResult, HuntResult;
      forall b
        ensures !ReadResult(sync, cell, first, source[..taken], 16 * nrWords, b)
      {
        NotHeard(sync, cell, first, source[..taken], hunted, prevSample, 16 * nrWords, b);
      }
    }

    lemma DecodeUndone(first: nat, from: nat, prev: nat, seen: seq<bool>, start: seq<bool>)
      requires cell > 0 && taken <= |source| && Started(sync, cell, first, source[..taken], from, prev, seen, start)
      requires DecodeResult(cell, prev, source[..taken], from, start, 16 * nrWords, taken, prevSample, bits, false)
      ensures !Makes(taken, first)
    {
      hide ReadResult, DecodeResult, Started;
      forall b
        ensures !ReadResult(sync, cell, first, source[..taken], 16 * nrWords, b)
      {
        NotFilled(sync, cell, first, source[..taken], from, prev, seen, start, taken, prevSample, bits, 16 * nrWords, b);
      }
    }

    /** If more of them do not, neither do these. */
    lemma NotMade(n: nat, more: nat, first: nat)
      requires cell > 0 && n <= more <= |source| && !Makes(more, first)
      ensures !Makes(n, first)
    {
      hide ReadResult;
      if b :| ReadResult(sync, cell, first, source[..n], 16 * nrWords, b) {
        ReadExtend(sync, cell, first, source[..n], source[..more], 16 * nrWords, b);
      }
    }

    /** The second half of a read, from poll number k on and from where its first half has stopped. */
    method FillBuffer(polls: seq<Poll>, k: nat, ghost first: nat) returns (done: bool, n: nat)
      requires Valid() && Decoding() && k <= |polls| && Within(polls, |source|)
      requires Started(sync, cell, first, source[..taken], taken, prevSample, hunted, bits)
      requires |captured| >= HeardBy(polls, k) && (k > 0 ==> taken >= HeardBy(polls, k - 1))
      modifies this, ring, mem
      ensures taken <= |source| && k <= n <= |polls| && if done then k < n else n == |polls|
      ensures hunted == old(hunted) && start == old(start)
      ensures done <==> Makes(taken, first)
      ensures done ==>
        ReadResult(sync, cell, first, source[..taken], 16 * nrWords, BitsOf(mem[p..p + 2 * nrWords]))
      ensures Marked(source[..taken], first)
      ensures !done && n > 0 ==> !Makes(HeardBy(polls, n - 1), first)
      ensures !done ==> taken >= HeardBy(polls, n) || (k == n && StoppedAt(taken, first))
      ensures Kept(mem[..], old(mem[..]), p, 2 * nrWords)
    {
      hide RingOk, BitsOf, DecodeResult, ReadResult, Buffered, Zeros, Kept, HeardBy, Makes, Marked, StoppedAt, Within,
           Started;
      RingBounds();
      ghost var from, prev, seen, start0 := taken, prevSample, hunted, bits;
      done, n := DecodeAll(polls, k);
      assert source[..from] <= source[..taken];
      StartedExtend(sync, cell, first, source[..from], source[..taken], from, prev, seen, start0);
      Stopped(first, from, prev, seen, start0);
      if done {
        Delivered(sync, cell, first, source[..from], source[..taken], from, prev, seen, start0, taken, prevSample,
                  16 * nrWords, bits);
        Done(first, bits);
      } else {
        DecodeUndone(first, from, prev, seen, start0);
        if n > 0 { NotMade(HeardBy(polls, n - 1), taken, first); }
      }
    }

    /** A whole read, whenever the captures come: hunt for the mark, if one is awaited, then decode. It goes on until the
        captures it has taken make a whole read; it takes them as they come, and so it is done when those heard in all
        polls but the last do. */
    method Read(begun: nat, polls: seq<Poll>) returns (done: bool, n: nat, ghost hunts: nat)
      requires Valid() && Hunting() && Decoding()
      requires captured == [] && taken == 0 && hunted == Ones(32) && bits == []
      requires sync != NoSync ==> SyncFound(sync) < 16 * nrWords
      requires Within(polls, |source|)
      modifies this, ring, mem
      ensures taken <= |source| && n <= |polls| && (!done ==> n == |polls|)
      ensures done <==> Makes(taken, old(prevSample))
      ensures done ==>
        ReadResult(sync, cell, old(prevSample), source[..taken], 16 * nrWords, BitsOf(mem[p..p + 2 * nrWords]))
      ensures !done ==> taken >= HeardBy(polls, n) || StoppedAt(taken, old(prevSample))
      ensures |polls| > 0 && Makes(HeardBy(polls, |polls| - 1), old(prevSample)) ==> done
      ensures sync == NoSync && !done ==> taken >= HeardBy(polls, n)
      ensures sync == NoSync ==> start == begun
      ensures sync != NoSync && done ==> 0 < hunts < n && |hunted| > 32 && Marked(source[..taken], old(prevSample))
      ensures sync != NoSync && done ==>
        start == MarkTime(polls[hunts - 1].now, begun, |hunted| - 32, SyncFound(sync))
      ensures mem[..p] == old(mem[..p]) && mem[p + 2 * nrWords..] == old(mem[p + 2 * nrWords..])
    {
      hide RingOk, BitsOf, HuntResult, DecodeResult, ReadResult, Buffered, Zeros, Kept, HeardBy, MarkTime, Makes, Marked,
           StoppedAt, Within, Started, Tail;
      ghost var was := mem[..];
      KeptSame(was, p, 2 * nrWords);
      RingBounds();
      done, n, hunts := false, 0, 0;
      start := begun;
      NoPolls(polls);
      ghost var first := prevSample;
      if sync != NoSync {
        var found;
        found, n := HuntAll(polls);
        hunts := n;
        if !found {
          KeptOutside(mem[..], was, p, 2 * nrWords);
          HuntUndone(first);
          if n > 0 { NotMade(HeardBy(polls, n - 1), taken, first); }
          return;
        }
      }
      Begin(first);
      ghost var now := mem[..];
      done, n := FillBuffer(polls, n, first);
      KeptTrans(mem[..], now, was, p, 2 * nrWords);
      KeptOutside(mem[..], was, p, 2 * nrWords);
    }
  }
}
