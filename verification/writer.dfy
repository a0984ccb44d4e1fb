/** The write path: bit cells turned into timer reload values in a ring that the DMA engine drains meanwhile. */
module Writer {
  import opened Arithmetic
  import opened Bits
  import opened Flux
  import opened Ring

  datatype Outcome = Drained | Stopped | Polling

  // ----- one cell at a time

  lemma NextCell(cells: seq<bool>, pos: nat, cellTicks: nat)
    requires pos < |cells|
    ensures var t := Advance(Ticks(cells[..pos], cellTicks), cellTicks);
            && Ticks(cells[..pos + 1], cellTicks) == (if cells[pos] then t % 16 else t)
            && Samples(cells[..pos + 1], cellTicks) == Samples(cells[..pos], cellTicks)
               + (if cells[pos] then [(t / 16 - 1) % U16] else [])
  {
    hide Advance;
    assert cells[..pos + 1][..pos] == cells[..pos];
  }

  /** Samples already produced never change: conversion can stop and resume anywhere. */
  lemma {:induction false} SamplesPrefix(cells: seq<bool>, pos: nat, cellTicks: nat)
    requires pos <= |cells|
    ensures Samples(cells[..pos], cellTicks) <= Samples(cells, cellTicks)
    decreases |cells|
  {
    if pos == |cells| {
      assert cells[..pos] == cells;
    } else {
      var init := cells[..|cells| - 1];
      assert init[..pos] == cells[..pos];
      SamplesPrefix(init, pos, cellTicks);
    }
  }

  // ----- ring arithmetic

  /** Ring slots from the producer to the end of the buffer. */
  function ToWrap(prod: nat): int { RING - prod }

  /** Free ring slots, keeping one empty. */
  function ToCons(dmacons: nat, prod: nat): nat { (dmacons - prod - 1) % RING }

  function Min(a: int, b: int): int { if a < b then a else b }

  function Max(a: int, b: int): int { if a > b then a else b }

  /** The contiguous stretch a refill may write. */
  function Stretch(dmacons: nat, prod: nat, latencySensitive: bool): int {
    var nr := Min(ToWrap(prod), ToCons(dmacons, prod));
    if latencySensitive then Min(nr, Max(32, RING - ToCons(dmacons, prod))) else nr
  }

  /** The free-slot count is one less than the room left, however the indices have wrapped. */
  lemma FreeSlots(sent: nat, made: nat)
    requires sent <= made < sent + RING
    ensures ToCons(sent % RING, made % RING) == RING - 1 - (made - sent)
  {
    var a, b := sent % RING, made % RING;
    assert (made - sent) % RING == made - sent;
    if a <= b {
      assert b - a == made - sent by { DivMod(sent, made); }
    } else {
      assert b - a + RING == made - sent by { DivMod(sent, made); }
    }
  }

  lemma DivMod(sent: nat, made: nat)
    requires sent <= made < sent + RING
    ensures made % RING - sent % RING == made - sent || made % RING - sent % RING + RING == made - sent
    ensures (made % RING - sent % RING == made - sent) <==> sent % RING <= made % RING
  {
    assert made == RING * (made / RING) + made % RING && sent == RING * (sent / RING) + sent % RING;
  }

  // ----- draining

  /** Samples the drain loop believes are left. */
  function Todo(made: nat, sent: nat): nat { (made % RING - sent % RING) % RING }

  /** The drain loop stops on this poll. */
  predicate DrainStops(todo: nat, prevTodo: nat) { todo == 0 || todo > prevTodo }

  lemma TodoBefore(made: nat, sent: nat)
    requires sent <= made < sent + RING
    ensures Todo(made, sent) == made - sent
  {
    DivMod(sent, made);
  }

  lemma TodoAfter(made: nat, sent: nat)
    requires made < sent < made + RING
    ensures Todo(made, sent) == RING - (sent - made)
  {
    DivMod(made, sent);
  }

  /** If the DMA engine moves less than a lap between polls, the loop stops on the first poll that finds
      every sample taken, even when the engine has already run past the end. */
  lemma DrainExact(made: nat, before: nat, now: nat)
    requires before < made < before + RING && before <= now < before + RING
    ensures DrainStops(Todo(made, now), Todo(made, before)) <==> now >= made
  {
    TodoBefore(made, before);
    if now <= made {
      TodoBefore(made, now);
    } else {
      TodoAfter(made, now);
    }
  }

  // ----- the 32-bit word being shifted out

  /** The first poll has nothing to compare with: it stops only if the last sample has just been taken,
      so an engine already past the end then goes round the ring once more. */
  lemma FirstPollExact(made: nat, sent: nat)
    requires sent < made + RING && made < sent + RING
    ensures DrainStops(Todo(made, sent), U16 - 1) <==> sent == made
  {
    if sent <= made { TodoBefore(made, sent); } else { TodoAfter(made, sent); }
  }

  lemma SlotRead(slots: seq<nat>, log: seq<nat>, i: nat)
    requires Holds(slots, log, i) && i < |log|
    ensures slots[i % RING] == log[i]
  {}

  lemma SlotInStretch(start: nat, now: nat, slot: nat)
    requires start <= now && slot == start % RING + (now - start) && slot < RING
    ensures slot == now % RING
  {}

  lemma ModTwice(n: nat)
    ensures n % RING % RING == n % RING
  {}

  lemma PollIndices(made: nat, sent: nat)
    ensures Todo(made % RING, sent % RING) == Todo(made, sent)
  {
    ModTwice(made);
    ModTwice(sent);
  }

  lemma NextProd(made: nat, n: nat)
    ensures (made % RING + n) % RING == (made + n) % RING
  {}

  /** Samples in the ring after the first refill: 1023, or 32 when latency matters, unless the cells end first. */
  predicate FirstFill(made: nat, ended: bool, latencySensitive: bool) {
    var want := if latencySensitive then 32 else RING - 1;
    made == want || (ended && made <= want)
  }

  // ----- what refills add, and when a write stops

  /** How far the DMA engine has got once it may take k more of the samples made. */
  function Taken(sent: nat, made: nat, k: nat): (r: nat)
    requires sent <= made
    ensures sent <= r <= made
  {
    if sent + k < made then sent + k else made
  }

  function Moves(env: seq<nat>, i: nat): nat { if i < |env| then env[i] else 0 }

  /** How far it has got when n samples of a stretch of want have been stored, if it may take env[i] more before the one
      that leaves i to go. */
  function TakenStoring(sent: nat, made: nat, want: nat, env: seq<nat>, n: nat): (r: nat)
    requires sent <= made && n <= want
    ensures sent <= r <= made + n
    decreases n
  {
    if n == 0 then sent else Taken(TakenStoring(sent, made, want, env, n - 1), made + n - 1, Moves(env, want - n))
  }

  /** Storing n samples and then one more word's worth is storing all of them. */
  lemma {:induction false} StoringOn(sent: nat, made: nat, want: nat, env: seq<nat>, n: nat, m: nat)
    requires sent <= made && n + m <= want
    ensures TakenStoring(TakenStoring(sent, made, want, env, n), made + n, want - n, env, m)
         == TakenStoring(sent, made, want, env, n + m)
    decreases m
  {
    hide Taken;
    if m > 0 { StoringOn(sent, made, want, env, n, m - 1); }
  }

  lemma {:induction false} StoringStill(sent: nat, made: nat, want: nat, n: nat)
    requires sent <= made && n <= want
    ensures TakenStoring(sent, made, want, [], n) == sent
    decreases n
  {
    if n > 0 { StoringStill(sent, made, want, n - 1); }
  }

  /** What a refill is after: the contiguous room there is, or no more than doubles what is unread, but 32 at least. */
  function Wanted(made: nat, sent: nat, latencySensitive: bool): (r: nat)
    requires sent <= made < sent + RING
    ensures r < RING && made % RING + r <= RING && made + r < sent + RING
  {
    var fill := made - sent;
    var nr := if RING - made % RING < RING - 1 - fill then RING - made % RING else RING - 1 - fill;
    var most := if fill < 32 then 32 else fill + 1;
    if latencySensitive && most < nr then most else nr
  }

  /** How many samples have been made and taken, and whether the cells have all been consumed. */
  datatype Level = Level(made: nat, sent: nat, ended: bool)

  /** A refill makes what it is after, or what is left of the total; the cells end when they do not give that many, or give
      just that many and end in a reversal. */
  function Topped(l: Level, total: nat, last: bool, latencySensitive: bool, stale: nat, env: seq<nat>): (r: Level)
    requires l.sent <= l.made < l.sent + RING && l.made <= total
    ensures r.sent <= r.made < r.sent + RING && r.made <= total
  {
    var want := Wanted(l.made, l.sent, latencySensitive);
    var n := if total - l.made < want then total - l.made else want;
    Level(l.made + n, TakenStoring(Taken(l.sent, l.made, stale), l.made, want, env, n),
          if want == 0 then l.ended else n < want || (l.made + n == total && last))
  }

  function Refilled(l: Level, total: nat, last: bool, stale: seq<nat>, env: seq<seq<nat>>, k: nat): (r: Level)
    requires l.sent <= l.made < l.sent + RING && l.made <= total && k <= |stale| == |env|
    ensures r.sent <= r.made < r.sent + RING && r.made <= total
    decreases k
  {
    if k == 0 then l else Topped(Refilled(l, total, last, stale, env, k - 1), total, last, true, stale[k - 1], env[k - 1])
  }

  lemma RefilledNext(l: Level, total: nat, last: bool, stale: seq<nat>, env: seq<seq<nat>>, k: nat)
    requires l.sent <= l.made < l.sent + RING && l.made <= total && k < |stale| == |env|
    ensures Refilled(l, total, last, stale, env, k + 1)
         == Topped(Refilled(l, total, last, stale, env, k), total, last, true, stale[k], env[k])
  {
    hide Topped;
  }

  lemma NoneRefilled(l: Level, total: nat, last: bool, stale: seq<nat>, env: seq<seq<nat>>)
    requires l.sent <= l.made < l.sent + RING && l.made <= total && |stale| == |env|
    ensures Refilled(l, total, last, stale, env, 0) == l
  {}

  /** What the conversion of a stretch comes to. */
  lemma ToppedIs(l: Level, total: nat, last: bool, latencySensitive: bool, stale: nat, env: seq<nat>, n: nat, ended: bool)
    requires l.sent <= l.made < l.sent + RING && l.made + n <= total
    requires var want := Wanted(l.made, l.sent, latencySensitive);
             && n <= want && (n < want ==> l.made + n == total)
             && ended == if want == 0 then l.ended else n < want || (l.made + n == total && last)
    ensures Topped(l, total, last, latencySensitive, stale, env)
         == Level(l.made + n,
                  TakenStoring(Taken(l.sent, l.made, stale), l.made, Wanted(l.made, l.sent, latencySensitive), env, n), ended)
  {
    hide Wanted, TakenStoring, Taken;
  }

  function Moved(s: seq<nat>): nat
    decreases |s|
  {
    if s == [] then 0 else Moved(s[..|s| - 1]) + s[|s| - 1]
  }

  lemma MovedNext(s: seq<nat>, i: nat)
    requires i < |s|
    ensures Moved(s[..i + 1]) == Moved(s[..i]) + s[i]
  {
    assert s[..i + 1][..i] == s[..i];
  }

  lemma StoringNone(sent: nat, made: nat, want: nat, env: seq<nat>)
    requires sent <= made
    ensures TakenStoring(sent, made, want, env, 0) == sent
  {}

  /** Just behind a reversal the cells are at their end if and only if no sample is left and the last cell is one. */
  lemma {:induction false} EndReached(cells: seq<bool>, pos: nat, cellTicks: nat)
    requires 0 < pos <= |cells| && cells[pos - 1]
    ensures pos == |cells| <==> |Samples(cells[..pos], cellTicks)| == |Samples(cells, cellTicks)| && cells[|cells| - 1]
  {
    assert cells[..|cells|] == cells;
    if pos < |cells| {
      var n := |cells| - 1;
      NextCell(cells, n, cellTicks);
      assert cells[..n][..pos] == cells[..pos];
      SamplesPrefix(cells[..n], pos, cellTicks);
    }
  }

  lemma NoMoves(s: seq<nat>)
    ensures Moved(s[..0]) == 0
  {}

  /** Poll i of the drain loop finds the ring drained, or believes so. */
  predicate DrainedAt(made: nat, sent: nat, moves: seq<nat>, i: nat)
    requires i < |moves|
  {
    DrainStops(Todo(made, sent + Moved(moves[..i + 1])), if i == 0 then U16 - 1 else Todo(made, sent + Moved(moves[..i])))
  }

  /** The index count at which a write begun at this count is to stop; with no limit, the count before. */
  function StopIndex(count: nat, terminateAt: nat): nat {
    if terminateAt != 0 then (count + terminateAt) % U32 else (count - 1) % U32
  }

  /** n index pulses after it began the write stops: at the pulse asked for, or at no pulse at all. */
  predicate StopsAfter(terminateAt: nat, n: nat) {
    if terminateAt > 0 then n % U32 == terminateAt % U32 else n % U32 == U32 - 1
  }

  /** In fewer pulses than 32 bits can tell, that is at one pulse, and never if none was asked for. */
  lemma StopsAtItsPulse(terminateAt: nat, n: nat)
    requires terminateAt < U32 && n < U32 - 1
    ensures StopsAfter(terminateAt, n) <==> terminateAt > 0 && n == terminateAt
  {
    SmallMod(n, U32);
    SmallMod(terminateAt, U32);
  }

  /** The count that is polled says so, wherever it began. */
  lemma StopIsReached(count: nat, terminateAt: nat, n: nat)
    ensures (count + n) % U32 == StopIndex(count, terminateAt) <==> StopsAfter(terminateAt, n)
  {
    if terminateAt > 0 {
      SameOffset(count, n, terminateAt);
    } else {
      SameOffset(count, n, -1);
    }
  }

  lemma SameOffset(count: nat, n: int, m: int)
    ensures (count + n) % U32 == (count + m) % U32 <==> n % U32 == m % U32
  {}

  lemma StretchIs(made: nat, sent: nat, latencySensitive: bool)
    requires sent <= made < sent + RING
    ensures Stretch(sent % RING, made % RING, latencySensitive) == Wanted(made, sent, latencySensitive)
  {
    FreeSlots(sent, made);
  }

  type Word32 = w: seq<bool> | |w| == 32 witness seq(32, k => false)

  function ShiftLeft(w: Word32, n: nat): Word32
    requires n <= 32
  {
    w[n..] + Zeros(n)
  }

  lemma ShiftOut(w: Word32, n: nat, rest: seq<bool>)
    requires 0 < n <= 32 && w[..n] == rest
    ensures ShiftLeft(w, 1)[..n - 1] == rest[1..]
  {}

  lemma SliceOfSlice(mem: seq<bv8>, p: nat, len: nat, k: nat)
    requires p + len <= |mem| && k + 4 <= len
    ensures mem[p..p + len][k..k + 4] == mem[p + k..p + k + 4]
  {
    var a, b := mem[p..p + len][k..k + 4], mem[p + k..p + k + 4];
    forall j | 0 <= j < 4
      ensures a[j] == b[j]
    {
      assert a[j] == mem[p..p + len][k + j];
    }
  }

  lemma HeadOf(x: seq<bool>, n: nat, c: seq<bool>, at: nat)
    requires 0 < n <= |x| && at + n <= |c| && x[..n] == c[at..at + n]
    ensures x[0] == c[at]
  {
    assert x[..n][0] == x[0] && c[at..at + n][0] == c[at];
  }

  /** The word holding cell bc, shifted so that bc comes first, is the buffer from bc to the word's end. */
  lemma WordAt(mem: seq<bv8>, p: nat, nrWords: nat, bc: nat)
    requires p + 2 * nrWords <= |mem| && nrWords % 2 == 0 && bc < 16 * nrWords
    ensures var y, at := bc % 32, p + 4 * (bc / 32);
            && at + 4 <= p + 2 * nrWords && bc + 32 - y <= 16 * nrWords
            && ShiftLeft(BitsOf(mem[at..at + 4]), y)[..32 - y]
               == BitsOf(mem[p..p + 2 * nrWords])[bc..bc + 32 - y]
  {
    hide BitsOf;
    var y, k := bc % 32, bc / 32;
    var buf := mem[p..p + 2 * nrWords];
    assert bc == 32 * k + y && 4 * k + 4 <= 2 * nrWords;
    SliceOfSlice(mem, p, 2 * nrWords, 4 * k);
    BitsOfSlice(buf, 4 * k, 4 * k + 4);
  }

  class FluxWriter {
    const mem: array<bv8>
    const p: nat
    const nrWords: nat
    const cellTicks: nat
    var ticksSinceFlux: nat
    var bcCons: nat

    const ring: array<nat>
    var prod: nat
    var dmaIdx: nat

    // History, kept for the contracts and to let the DMA engine stop short of an underrun.
    var made: seq<nat>
    var sent: nat
    ghost var emitted: seq<nat>

    /** Every sample produced and not yet taken is in the ring, and the DMA engine has taken the samples
        in the order they were produced. */
    ghost predicate RingOk()
      reads this`made, this`sent, this`dmaIdx, this`emitted, ring
    {
      && ring.Length == RING
      && sent <= |made| < sent + RING
      && dmaIdx == sent % RING
      && Holds(ring[..], made, sent)
      && emitted == made[..sent]
    }

    lemma RingBounds()
      requires RingOk()
      ensures ring.Length == RING && sent <= |made| < sent + RING && dmaIdx == sent % RING
      ensures emitted == made[..sent]
    {}

    ghost function Cells(): seq<bool>
      requires p + 2 * nrWords <= mem.Length
      reads mem
    {
      BitsOf(mem[p..p + 2 * nrWords])
    }

    ghost function Total(): nat
      requires p + 2 * nrWords <= mem.Length
      reads mem
    {
      |Samples(Cells(), cellTicks)|
    }

    ghost predicate EndsInOne()
      requires p + 2 * nrWords <= mem.Length
      reads mem
    {
      Cells() != [] && Cells()[|Cells()| - 1]
    }

    ghost function Reached(): Level
      reads this`made, this`sent, this`bcCons
    {
      Level(|made|, sent, bcCons == 16 * nrWords)
    }

    ghost predicate InRange()
      requires p + 2 * nrWords <= mem.Length
      reads this`made, this`sent, mem
    {
      sent <= |made| < sent + RING && |made| <= Total()
    }

    /** The samples produced are those of the cells consumed, and so are the ticks left over. */
    ghost predicate Converted(cells: seq<bool>, pos: nat, ticks: nat)
      reads this`made
    {
      && pos <= |cells|
      && made == Samples(cells[..pos], cellTicks)
      && ticks == Ticks(cells[..pos], cellTicks)
    }

    lemma ConvertedSoFar(cells: seq<bool>, pos: nat, ticks: nat)
      requires Converted(cells, pos, ticks)
      ensures pos <= |cells|
    {}

    ghost predicate Valid()
      reads this, mem, ring
    {
      && RingOk()
      && ring as object != mem as object
      && p + 2 * nrWords <= mem.Length && nrWords % 2 == 0
      && prod == |made| % RING
      && Converted(Cells(), bcCons, ticksSinceFlux)
    }

    /** The DMA engine takes up to k samples, stopping short of an underrun. */
    method DmaRun(k: nat)
      requires RingOk()
      modifies this`dmaIdx, this`sent, this`emitted
      ensures RingOk() && sent == Taken(old(sent), |made|, k)
    {
      hide Holds;
      for i := 0 to k
        invariant RingOk() && sent == Taken(old(sent), |made|, i)
      {
        if sent < |made| {
          SlotRead(ring[..], made, sent);
          HoldsLater(ring[..], made, sent, sent + 1);
          NextSlot(sent);
          emitted := emitted + [ring[dmaIdx]];
          dmaIdx := (dmaIdx + 1) % RING;
          sent := sent + 1;
        }
      }
    }

    /** Stores one sample; the slot holds none that is still unread. */
    method Put(slot: nat, sample: nat)
      requires RingOk() && slot == |made| % RING && |made| + 1 < sent + RING
      modifies this`made, ring
      ensures RingOk() && made == old(made) + [sample]
    {
      hide Holds;
      HoldsPush(ring[..], made, sent, sample);
      ghost var slots := ring[..];
      ring[slot] := sample;
      assert ring[..] == slots[slot := sample];
      made := made + [sample];
    }

    /** The inner conversion loop: one 32-bit word, from its y-th cell on, until the word or the space runs out. */
    method ConvertWord(x0: Word32, y0: nat, ticks0: nat, slot0: nat, todo0: nat, env: seq<nat>,
                       ghost cells: seq<bool>, ghost pos0: nat)
        returns (y: nat, ticks: nat, todo: nat)
      requires RingOk() && Converted(cells, pos0, ticks0)
      requires y0 < 32 && pos0 + 32 - y0 <= |cells| && x0[..32 - y0] == cells[pos0..pos0 + 32 - y0]
      requires 0 < todo0 && slot0 == |made| % RING && slot0 + todo0 <= RING && |made| + todo0 < sent + RING
      modifies this`dmaIdx, this`sent, this`emitted, this`made, ring
      ensures RingOk() && y0 < y <= 32 && Converted(cells, pos0 + y - y0, ticks)
      ensures todo <= todo0 && |made| == |old(made)| + todo0 - todo
      ensures old(made) <= made && old(sent) <= |old(made)|
      ensures sent == TakenStoring(old(sent), |old(made)|, todo0, env, todo0 - todo)
      ensures if todo > 0 then y == 32 else cells[pos0 + y - y0 - 1]
    {
      hide RingOk, Samples, Ticks, Advance, Zeros, Taken;
      RingBounds();
      var x: seq<bool>, slot;
      x, y, ticks, slot, todo := x0, y0, ticks0, slot0, todo0;
      while y < 32
        invariant RingOk() && y0 <= y <= 32 && |x| == 32
        invariant Converted(cells, pos0 + y - y0, ticks)
        invariant x[..32 - y] == cells[pos0 + y - y0..pos0 + 32 - y0]
        invariant 0 < todo <= todo0 && |made| == |old(made)| + todo0 - todo
        invariant old(made) <= made && sent == TakenStoring(old(sent), |old(made)|, todo0, env, todo0 - todo)
        invariant slot == slot0 + todo0 - todo
      {
        ghost var pos := pos0 + y - y0;
        NextCell(cells, pos, cellTicks);
        HeadOf(x, 32 - y, cells, pos);
        y := y + 1;
        ticks := Advance(ticks, cellTicks);
        if x[0] {
          DmaRun(Moves(env, todo - 1));
          SlotInStretch(|old(made)|, |made|, slot);
          Put(slot, (ticks / 16 - 1) % U16);
          slot := slot + 1;
          ticks := ticks % 16;
          todo := todo - 1;
          if todo == 0 {
            return;
          }
        }
        ShiftOut(x, 32 - y + 1, cells[pos..pos + 32 - y + 1]);
        x := ShiftLeft(x, 1);
      }
    }

    /** Converts cells into at most nr samples, stored from the producer's slot on. The DMA engine may run
        before any of the stores. */
    method BcToFlux(slot: nat, nr: nat, env: seq<nat>) returns (n: nat)
      requires Valid() && slot == prod && slot + nr <= RING && |made| + nr < sent + RING
      modifies this`dmaIdx, this`sent, this`emitted, this`made, this`bcCons, this`ticksSinceFlux, ring
      ensures RingOk() && Converted(Cells(), bcCons, ticksSinceFlux)
      ensures Cells() == old(Cells()) && old(made) <= made
      ensures n <= nr && |made| == |old(made)| + n
      ensures old(sent) <= |old(made)| && sent == TakenStoring(old(sent), |old(made)|, nr, env, n)
      ensures if n < nr then bcCons == 16 * nrWords
              else if nr == 0 then bcCons == old(bcCons)
              else bcCons > 0 && Cells()[bcCons - 1]
    {
      hide RingOk, Samples, Ticks, Advance, Zeros, BitsOf, TakenStoring, Converted;
      RingBounds();
      ConvertedSoFar(Cells(), bcCons, ticksSinceFlux);
      StoringNone(sent, |made|, nr, env);
      if nr == 0 {
        return 0;
      }
      ghost var cells := Cells();
      var ticks, y, todo: nat, bc, bp := ticksSinceFlux, 32, nr, bcCons, nrWords * 16;
      while bc != bp && todo > 0
        invariant RingOk() && todo <= nr && |made| == |old(made)| + nr - todo
        invariant old(made) <= made && sent == TakenStoring(old(sent), |old(made)|, nr, env, nr - todo)
        invariant 0 <= y <= 32 && bc <= bp && 32 - y <= bc && Converted(cells, bc - (32 - y), ticks)
        invariant if todo > 0 then y == 32 else bc > 32 - y && cells[bc - (32 - y) - 1]
        decreases bp - bc
      {
        ghost var left := todo;
        bc, y, ticks, todo := ConvertNext(bc, ticks, slot + nr - todo, todo, env, cells);
        StoringOn(old(sent), |old(made)|, nr, env, nr - left, left - todo);
      }
      bcCons := bc - (32 - y);
      ticksSinceFlux := ticks;
      n := nr - todo;
    }

    /** One turn of the conversion loop: the rest of the word that holds cell bc0. */
    method ConvertNext(bc0: nat, ticks0: nat, slot: nat, todo0: nat, env: seq<nat>, ghost cells: seq<bool>)
        returns (bc: nat, y: nat, ticks: nat, todo: nat)
      requires RingOk() && ring as object != mem as object && p + 2 * nrWords <= mem.Length && nrWords % 2 == 0
      requires cells == Cells() && bc0 < 16 * nrWords && Converted(cells, bc0, ticks0)
      requires 0 < todo0 && slot == |made| % RING && slot + todo0 <= RING && |made| + todo0 < sent + RING
      modifies this`dmaIdx, this`sent, this`emitted, this`made, ring
      ensures RingOk() && bc0 < bc <= 16 * nrWords && y <= 32 && bc0 < bc - (32 - y)
      ensures Converted(cells, bc - (32 - y), ticks)
      ensures todo <= todo0 && |made| == |old(made)| + todo0 - todo && old(made) <= made
      ensures old(sent) <= |old(made)| && sent == TakenStoring(old(sent), |old(made)|, todo0, env, todo0 - todo)
      ensures if todo > 0 then y == 32 else cells[bc - (32 - y) - 1]
    {
      hide RingOk, Samples, Ticks, Advance, Zeros, BitsOf, TakenStoring, Converted;
      y := bc0 % 32;
      var x := Fetch(bc0);
      bc := bc0 + 32 - y;
      y, ticks, todo := ConvertWord(x, y, ticks0, slot, todo0, env, cells, bc0);
    }

    /** The word that holds cell bc, with that cell first. */
    method Fetch(bc: nat) returns (x: Word32)
      requires p + 2 * nrWords <= mem.Length && nrWords % 2 == 0 && bc < 16 * nrWords
      ensures bc + 32 - bc % 32 <= 16 * nrWords
      ensures x[..32 - bc % 32] == Cells()[bc..bc + 32 - bc % 32]
    {
      hide BitsOf, ShiftLeft;
      var at := p + 4 * (bc / 32);
      WordAt(mem[..], p, nrWords, bc);
      var w := Load(at);
      assert mem[..][at..at + 4] == mem[at..at + 4] && mem[..][p..p + 2 * nrWords] == mem[p..p + 2 * nrWords];
      x := ShiftLeft(w, bc % 32);
    }

    /** be32toh of the buffer word at an address. */
    method Load(at: nat) returns (w: Word32)
      requires at + 4 <= mem.Length
      ensures w == BitsOf(mem[at..at + 4])
    {
      w := BitsOf([mem[at], mem[at + 1], mem[at + 2], mem[at + 3]]);
      assert [mem[at], mem[at + 1], mem[at + 2], mem[at + 3]] == mem[at..at + 4];
    }

    /** Tops up the ring with one contiguous stretch of samples. The DMA engine may run once after its
        position has been read, and before every store. */
    method Refill(latencySensitive: bool, stale: nat, env: seq<nat>)
      requires Valid()
      modifies this`dmaIdx, this`sent, this`emitted, this`made, this`bcCons, this`ticksSinceFlux, this`prod, ring
      ensures Valid() && Cells() == old(Cells()) && old(made) <= made
      ensures old(InRange()) && InRange()
      ensures Reached() == Topped(old(Reached()), Total(), EndsInOne(), latencySensitive, stale, env)
    {
      hide RingOk, Samples, Ticks, Advance, Zeros, BitsOf, TakenStoring, Taken, Wanted, Topped;
      RingBounds();
      ghost var cells, level := Cells(), Reached();
      SamplesPrefix(cells, bcCons, cellTicks);
      var dmacons := dmaIdx;
      DmaRun(stale);
      FreeSlots(old(sent), |made|);
      var nr := Stretch(dmacons, prod, latencySensitive);
      StretchIs(|made|, old(sent), latencySensitive);
      var n := BcToFlux(prod, nr, env);
      NextProd(|old(made)|, n);
      prod := (prod + n) % RING;
      RingBounds();
      RefillIs(level, latencySensitive, stale, env, n);
    }

    /** What a refill has come to. */
    lemma RefillIs(level: Level, latencySensitive: bool, stale: nat, env: seq<nat>, n: nat)
      requires p + 2 * nrWords <= mem.Length && Converted(Cells(), bcCons, ticksSinceFlux)
      requires level.sent <= level.made < level.sent + RING && |made| == level.made + n && sent <= |made| < sent + RING
      requires var want := Wanted(level.made, level.sent, latencySensitive);
               && n <= want
               && sent == TakenStoring(Taken(level.sent, level.made, stale), level.made, want, env, n)
               && if n < want then bcCons == 16 * nrWords
                  else if want == 0 then (bcCons == 16 * nrWords) == level.ended
                  else bcCons > 0 && Cells()[bcCons - 1]
      ensures InRange() && level.made <= Total()
      ensures Reached() == Topped(level, Total(), EndsInOne(), latencySensitive, stale, env)
    {
      hide Samples, Ticks, BitsOf, TakenStoring, Taken, Wanted, Topped;
      var cells := Cells();
      SamplesPrefix(cells, bcCons, cellTicks);
      if bcCons > 0 && cells[bcCons - 1] { EndReached(cells, bcCons, cellTicks); }
      assert cells[..|cells|] == cells;
      ToppedIs(level, Total(), EndsInOne(), latencySensitive, stale, env, n, Reached().ended);
    }

    /** floppy_write_prep: the ring is filled before the DMA engine is enabled. */
    constructor (mem: array<bv8>, p: nat, nrWords: nat, cellTicks: nat, latencySensitive: bool)
      requires p + 2 * nrWords <= mem.Length && nrWords % 2 == 0
      ensures Valid() && fresh(this) && fresh(ring)
      ensures this.mem == mem && this.p == p && this.nrWords == nrWords && this.cellTicks == cellTicks
      ensures mem[..] == old(mem[..]) && sent == 0
      ensures FirstFill(|made|, bcCons == 16 * nrWords, latencySensitive)
    {
      this.mem, this.p, this.nrWords, this.cellTicks := mem, p, nrWords, cellTicks;
      ticksSinceFlux, bcCons := 0, 0;
      ring := new nat[RING];
      prod, dmaIdx, sent := 0, 0, 0;
      made, emitted := [], [];
      new;
      assert Cells()[..0] == [];
      Prime(latencySensitive);
    }

    /** The refill made before the DMA engine runs. */
    method Prime(latencySensitive: bool)
      requires Valid() && sent == 0
      requires made == [] && prod == 0
      modifies this`dmaIdx, this`sent, this`emitted, this`made, this`bcCons, this`ticksSinceFlux, this`prod, ring
      ensures Valid() && sent == 0
      ensures FirstFill(|made|, bcCons == 16 * nrWords, latencySensitive)
    {
      Refill(latencySensitive, 0, []);
      StoringStill(0, 0, Wanted(0, 0, latencySensitive), |made|);
    }

    /** Once nothing more is produced the engine is free to run past the end, repeating old slots. */
    ghost predicate Draining()
      reads this`made, this`sent, this`dmaIdx, this`emitted, ring
    {
      && ring.Length == RING
      && |made| < sent + RING
      && dmaIdx == sent % RING
      && Holds(ring[..], made, Min(sent, |made|))
      && |emitted| == sent
      && (if sent <= |made| then emitted == made[..sent] else made <= emitted)
    }

    /** The DMA engine moves k entries, underrun or not. */
    method DmaFree(k: nat)
      requires Draining()
      modifies this`dmaIdx, this`sent, this`emitted
      ensures Draining() && sent == old(sent) + k
    {
      hide Holds;
      for i := 0 to k
        invariant Draining() && sent == old(sent) + i
      {
        if sent < |made| {
          SlotRead(ring[..], made, sent);
          HoldsLater(ring[..], made, sent, sent + 1);
        }
        NextSlot(sent);
        emitted := emitted + [ring[dmaIdx]];
        dmaIdx := (dmaIdx + 1) % RING;
        sent := sent + 1;
      }
    }

    /** Waits for the ring to empty. At poll i there have been pulses[i] index pulses since the write began, count0 on the
        counter, and before it looks at the ring the DMA engine moves moves[i] entries. */
    method Drain(count0: nat, terminateAt: nat, pulses: seq<nat>, moves: seq<nat>) returns (outcome: Outcome, polls: nat)
      requires Draining() && sent <= |made| && prod == |made| % RING && |moves| == |pulses|
      requires forall i :: 0 <= i < |moves| ==> moves[i] < RING
      modifies this`dmaIdx, this`sent, this`emitted
      ensures Draining() && polls <= |moves|
      ensures sent == old(sent) + Moved(moves[..if outcome == Stopped && polls > 0 then polls - 1 else polls])
      ensures outcome == Stopped <==> polls > 0 && StopsAfter(terminateAt, pulses[polls - 1])
      ensures outcome == Drained <==>
        polls > 0 && !StopsAfter(terminateAt, pulses[polls - 1]) && DrainedAt(|made|, old(sent), moves, polls - 1)
      ensures outcome == Polling ==> polls == |moves|
      ensures forall i :: 0 <= i < polls - 1 ==>
        !StopsAfter(terminateAt, pulses[i]) && !DrainedAt(|made|, old(sent), moves, i)
      ensures outcome == Drained ==> made <= emitted
      ensures outcome == Polling && |moves| > 0 && old(sent) + moves[0] <= |made| ==> sent < |made|
    {
      hide Holds, StopsAfter, StopIndex, Todo, DrainStops, Moved;
      var todo: nat := U16 - 1;
      polls := 0;
      NoMoves(moves);
      while polls < |moves|
        invariant Draining() && polls <= |moves| && sent == old(sent) + Moved(moves[..polls])
        invariant todo == if polls == 0 then U16 - 1 else Todo(|made|, sent)
        invariant forall i :: 0 <= i < polls ==>
          !StopsAfter(terminateAt, pulses[i]) && !DrainedAt(|made|, old(sent), moves, i)
        invariant polls > 0 && old(sent) + moves[0] <= |made| ==> sent < |made|
      {
        StopIsReached(count0, terminateAt, pulses[polls]);
        polls := polls + 1;
        if (count0 + pulses[polls - 1]) % U32 == StopIndex(count0, terminateAt) {
          return Stopped, polls;
        }
        var prevTodo := todo;
        ghost var before := sent;
        DmaFree(moves[polls - 1]);
        MovedNext(moves, polls - 1);
        todo := Todo(prod, dmaIdx);
        PollIndices(|made|, sent);
        if polls > 1 && before < |made| {
          DrainExact(|made|, before, sent);
        } else if polls == 1 {
          FirstPollExact(|made|, sent);
        }
        if DrainStops(todo, prevTodo) {
          return Drained, polls;
        }
      }
      outcome := Polling;
    }

    /** The first loop of a write: refills, until the cells have been consumed or the index count stops it. */
    method KeepFilled(count0: nat, terminateAt: nat, stale: seq<nat>, env: seq<seq<nat>>, pulses: seq<nat>)
        returns (stopped: bool, refills: nat)
      requires Valid() && |stale| == |env| == |pulses|
      modifies this`dmaIdx, this`sent, this`emitted, this`made, this`bcCons, this`ticksSinceFlux, this`prod, ring
      ensures Valid() && Cells() == old(Cells()) && refills <= |stale| && old(InRange()) && InRange()
      ensures Reached() == Refilled(old(Reached()), Total(), EndsInOne(), stale, env, refills)
      ensures stopped <==> refills > 0 && StopsAfter(terminateAt, pulses[refills - 1])
      ensures !stopped && !Reached().ended ==> refills == |stale|
      ensures forall i :: 0 <= i < refills ==>
        !Refilled(old(Reached()), Total(), EndsInOne(), stale, env, i).ended
        && (i + 1 < refills ==> !StopsAfter(terminateAt, pulses[i]))
    {
      hide RingOk, Samples, Ticks, BitsOf, Holds, StopsAfter, StopIndex, Topped, Refilled, Cells, Converted;
      ghost var cells, start := Cells(), Reached();
      MadeSoFar();
      refills := 0;
      NoneRefilled(start, Total(), EndsInOne(), stale, env);
      while bcCons != nrWords * 16 && refills < |stale|
        invariant Valid() && Cells() == cells && refills <= |stale| && InRange()
        invariant Reached() == Refilled(start, Total(), EndsInOne(), stale, env, refills)
        invariant forall i :: 0 <= i < refills ==>
          !Refilled(start, Total(), EndsInOne(), stale, env, i).ended && !StopsAfter(terminateAt, pulses[i])
        decreases |stale| - refills
      {
        Refill(true, stale[refills], env[refills]);
        RefilledNext(start, Total(), EndsInOne(), stale, env, refills);
        StopIsReached(count0, terminateAt, pulses[refills]);
        refills := refills + 1;
        if (count0 + pulses[refills - 1]) % U32 == StopIndex(count0, terminateAt) {
          return true, refills;
        }
      }
      stopped := false;
    }

    /** floppy_write: keep the ring topped up until the cells run out, then wait for it to drain. */
    method Write(count0: nat, terminateAt: nat, stale: seq<nat>, env: seq<seq<nat>>, pulses: seq<nat>, moves: seq<nat>,
                 drainPulses: seq<nat>)
        returns (outcome: Outcome, refills: nat, polls: nat)
      requires Valid() && |stale| == |env| == |pulses| && |moves| == |drainPulses|
      requires forall i :: 0 <= i < |moves| ==> moves[i] < RING
      modifies this, ring
      ensures made <= Samples(Cells(), cellTicks)
      ensures sent <= |made| ==> emitted == made[..sent]
      ensures outcome == Drained ==> made == Samples(Cells(), cellTicks) && made <= emitted
      ensures refills <= |stale| && polls <= |moves| && old(InRange())
      ensures var at := Refilled(old(Reached()), Total(), EndsInOne(), stale, env, refills);
              && |made| == at.made && (bcCons == 16 * nrWords <==> at.ended)
              && sent == at.sent + Moved(moves[..if outcome == Stopped && polls > 0 then polls - 1 else polls])
              && (polls > 0 ==> at.ended)
              && (outcome == Stopped <==> if polls > 0 then StopsAfter(terminateAt, drainPulses[polls - 1])
                                          else refills > 0 && StopsAfter(terminateAt, pulses[refills - 1]))
              && (outcome == Drained <==> polls > 0 && !StopsAfter(terminateAt, drainPulses[polls - 1])
                                          && DrainedAt(at.made, at.sent, moves, polls - 1))
              && (outcome == Polling ==> if at.ended then polls == |moves| else refills == |stale|)
              && forall i :: 0 <= i < polls - 1 ==>
                   !StopsAfter(terminateAt, drainPulses[i]) && !DrainedAt(at.made, at.sent, moves, i)
      ensures forall i :: 0 <= i < refills ==>
        !Refilled(old(Reached()), Total(), EndsInOne(), stale, env, i).ended
        && (i + 1 < refills || polls > 0 ==> !StopsAfter(terminateAt, pulses[i]))
    {
      hide RingOk, Samples, Ticks, BitsOf, Holds, StopsAfter, DrainedAt, Moved, Refilled, Cells, Converted;
      var stopped;
      polls := 0;
      stopped, refills := KeepFilled(count0, terminateAt, stale, env, pulses);
      MadeSoFar();
      NoMoves(moves);
      if stopped { return Stopped, refills, polls; }
      if bcCons != nrWords * 16 { return Polling, refills, polls; }
      StartDraining();
      outcome, polls := Drain(count0, terminateAt, drainPulses, moves);
    }

    lemma MadeSoFar()
      requires Valid()
      ensures InRange() && made <= Samples(Cells(), cellTicks) && emitted == made[..sent]
      ensures bcCons == 16 * nrWords ==> made == Samples(Cells(), cellTicks)
    {
      hide Samples, Ticks, Holds, BitsOf;
      var cells := Cells();
      SamplesPrefix(cells, bcCons, cellTicks);
      assert cells[..|cells|] == cells;
    }

    lemma StartDraining()
      requires RingOk()
      ensures Draining() && sent <= |made|
    {}
  }
}
