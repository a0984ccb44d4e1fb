/** Bit cells as flux intervals: what the write path emits, what the read path recovers. */
module Flux {
  import opened Arithmetic
  import opened Bits

  type Gap = n: int | n > 0 witness 1

  // ----- cells and the gaps between their flux reversals

  /** Cells since the last flux reversal. */
  function Pending(c: seq<bool>): (r: nat)
    ensures r <= |c|
    decreases |c|
  {
    if c == [] || c[|c| - 1] then 0 else Pending(c[..|c| - 1]) + 1
  }

  /** The distance in cells from each flux reversal to the one before it. */
  function Gaps(c: seq<bool>): seq<Gap>
    decreases |c|
  {
    if c == [] then []
    else
      var init := c[..|c| - 1];
      if c[|c| - 1] then Gaps(init) + [Pending(init) + 1] else Gaps(init)
  }

  function Sum(s: seq<Gap>): nat
    decreases |s|
  {
    if s == [] then 0 else Sum(s[..|s| - 1]) + s[|s| - 1]
  }

  /** The cells of one gap: empty but for the reversal that ends it. */
  function GapCells(g: Gap): (r: seq<bool>)
    ensures |r| == g
  {
    Zeros(g as int - 1) + [true]
  }

  /** The cells of each gap in turn. */
  function Unroll(gaps: seq<Gap>): seq<bool>
    decreases |gaps|
  {
    if gaps == [] then []
    else Unroll(gaps[..|gaps| - 1]) + GapCells(gaps[|gaps| - 1])
  }

  lemma {:induction false} GapsCoverCells(c: seq<bool>)
    ensures Sum(Gaps(c)) + Pending(c) == |c|
    decreases |c|
  {
    if c == [] {
    } else {
      var init := c[..|c| - 1];
      GapsCoverCells(init);
      if c[|c| - 1] {
        assert Gaps(c)[..|Gaps(c)| - 1] == Gaps(init);
      }
    }
  }

  lemma {:induction false} PendingAreEmpty(c: seq<bool>)
    ensures forall k :: |c| - Pending(c) <= k < |c| ==> !c[k]
    ensures Pending(c) < |c| ==> c[|c| - Pending(c) - 1]
    decreases |c|
  {
    if c == [] || c[|c| - 1] {
    } else {
      PendingAreEmpty(c[..|c| - 1]);
    }
  }

  lemma UnrollSnoc(gaps: seq<Gap>, g: Gap)
    ensures Unroll(gaps + [g]) == Unroll(gaps) + GapCells(g)
  {
    assert (gaps + [g])[..|gaps|] == gaps;
  }

  lemma NoGaps()
    ensures Unroll(Gaps([])) == [] && Pending([]) == 0
  {}

  lemma GapsStep(c: seq<bool>)
    requires c != []
    ensures var init := c[..|c| - 1];
            && Gaps(c) == (if c[|c| - 1] then Gaps(init) + [Pending(init) + 1] else Gaps(init))
            && Pending(c) == (if c[|c| - 1] then 0 else Pending(init) + 1)
  {}

  /** A reversal and the empty cells before it are one gap. */
  lemma LastGapCells(c: seq<bool>)
    requires c != [] && c[|c| - 1]
    requires var init := c[..|c| - 1]; forall k :: |init| - Pending(init) <= k < |init| ==> !init[k]
    ensures var init := c[..|c| - 1];
            init[..|init| - Pending(init)] + GapCells(Pending(init) + 1) == c
  {
    hide Pending;
    var init := c[..|c| - 1];
    var keep := |init| - Pending(init);
    assert init == init[..keep] + Zeros(Pending(init));
    assert c == init + [true];
  }

  /** The gaps determine the cells, up to the last flux reversal. */
  lemma {:induction false} UnrollGaps(c: seq<bool>)
    ensures Unroll(Gaps(c)) == c[..|c| - Pending(c)]
    decreases |c|
  {
    hide Gaps, Pending, Unroll, Zeros, GapCells;
    if c == [] {
      NoGaps();
    } else {
      var init := c[..|c| - 1];
      UnrollGaps(init);
      GapsStep(c);
      if c[|c| - 1] {
        PendingAreEmpty(init);
        UnrollSnoc(Gaps(init), Pending(init) + 1);
        LastGapCells(c);
      } else {
        assert init[..|init| - Pending(init)] == c[..|c| - Pending(c)];
      }
    }
  }

  lemma {:induction false} UnrollConcat(a: seq<Gap>, b: seq<Gap>)
    ensures Unroll(a + b) == Unroll(a) + Unroll(b)
    decreases |b|
  {
    if b == [] {
      assert a + b == a;
    } else {
      var b' := b[..|b| - 1];
      assert (a + b)[..|a + b| - 1] == a + b';
      UnrollConcat(a, b');
    }
  }

  // ----- the write path: ticks in sixteenths, samples truncated to 16 bits

  function Advance(ticks: nat, cellTicks: nat): nat { (ticks + (cellTicks * 16) % U32) % U32 }

  /** Ticks accumulated since the last flux reversal once the cells are consumed. */
  function Ticks(c: seq<bool>, cellTicks: nat): nat
    decreases |c|
  {
    if c == [] then 0
    else
      var t := Advance(Ticks(c[..|c| - 1], cellTicks), cellTicks);
      if c[|c| - 1] then t % 16 else t
  }

  /** The timer reload values for the cells: one less than each interval. */
  function Samples(c: seq<bool>, cellTicks: nat): seq<nat>
    decreases |c|
  {
    if c == [] then []
    else
      var init := c[..|c| - 1];
      if c[|c| - 1] then Samples(init, cellTicks) + [(Advance(Ticks(init, cellTicks), cellTicks) / 16 - 1) % U16]
      else Samples(init, cellTicks)
  }

  /** Every interval fits the 16-bit reload register and the pending ticks fit their 32-bit counter. */
  predicate Fits(c: seq<bool>, cellTicks: nat) {
    && (forall i :: 0 <= i < |Gaps(c)| ==> Gaps(c)[i] * cellTicks <= U16)
    && (Pending(c) + 1) * cellTicks < 0x1000_0000
  }

  lemma FitsPrefix(c: seq<bool>, cellTicks: nat)
    requires c != [] && Fits(c, cellTicks)
    ensures Fits(c[..|c| - 1], cellTicks)
  {
    var init := c[..|c| - 1];
    if c[|c| - 1] {
      assert Gaps(c)[|Gaps(init)|] == Pending(init) + 1;
      forall i | 0 <= i < |Gaps(init)|
        ensures Gaps(init)[i] * cellTicks <= U16
      {
        assert Gaps(init)[i] == Gaps(c)[i];
      }
    } else {
      MulMono(Pending(init) + 1, Pending(c) + 1, cellTicks);
      assert Gaps(c) == Gaps(init);
    }
  }

  lemma AdvanceExact(p: nat, cellTicks: nat)
    requires p + cellTicks < 0x1000_0000
    ensures Advance(16 * p, cellTicks) == 16 * (p + cellTicks)
  {}

  lemma SampleExact(t: nat)
    requires 0 < t <= U16
    ensures (16 * t) % 16 == 0 && ((16 * t) / 16 - 1) % U16 == t - 1
  {}

  /** No tick is lost between flux reversals. */
  lemma {:induction false} TicksExact(c: seq<bool>, cellTicks: nat)
    requires cellTicks > 0 && Fits(c, cellTicks)
    ensures Ticks(c, cellTicks) == 16 * (Pending(c) * cellTicks)
    decreases |c|
  {
    hide Advance, Fits;
    if c == [] {
    } else {
      var init := c[..|c| - 1];
      FitsPrefix(c, cellTicks);
      TicksExact(init, cellTicks);
      NextGap(c, cellTicks);
      AdvanceExact(Pending(init) * cellTicks, cellTicks);
      if c[|c| - 1] {
        SampleExact(Pending(init) * cellTicks + cellTicks);
      }
    }
  }

  lemma LastSample(c: seq<bool>, cellTicks: nat)
    requires cellTicks > 0 && Fits(c, cellTicks) && c != [] && c[|c| - 1]
    ensures var init := c[..|c| - 1];
            Samples(c, cellTicks) == Samples(init, cellTicks) + [(Pending(init) + 1) * cellTicks - 1]
  {
    hide Advance, Fits;
    var init := c[..|c| - 1];
    FitsPrefix(c, cellTicks);
    TicksExact(init, cellTicks);
    NextGap(c, cellTicks);
    AdvanceExact(Pending(init) * cellTicks, cellTicks);
    SampleExact(Pending(init) * cellTicks + cellTicks);
  }

  /** Without truncation, each reload value is its gap in ticks less one. */
  lemma {:induction false} SamplesExact(c: seq<bool>, cellTicks: nat)
    requires cellTicks > 0 && Fits(c, cellTicks)
    ensures |Samples(c, cellTicks)| == |Gaps(c)|
    ensures forall i :: 0 <= i < |Gaps(c)| ==> Samples(c, cellTicks)[i] == Gaps(c)[i] * cellTicks - 1
    decreases |c|
  {
    hide Advance, Fits;
    if c == [] {
    } else {
      FitsPrefix(c, cellTicks);
      SamplesExact(c[..|c| - 1], cellTicks);
      if c[|c| - 1] {
        LastSample(c, cellTicks);
      }
    }
  }

  lemma NextGap(c: seq<bool>, cellTicks: nat)
    requires c != [] && cellTicks > 0 && Fits(c, cellTicks)
    ensures var g := Pending(c[..|c| - 1]) + 1;
            g * cellTicks == Pending(c[..|c| - 1]) * cellTicks + cellTicks < 0x1000_0000
    ensures c[|c| - 1] ==> (Pending(c[..|c| - 1]) + 1) * cellTicks <= U16
  {
    var g := Pending(c[..|c| - 1]) + 1;
    assert g * cellTicks == Pending(c[..|c| - 1]) * cellTicks + cellTicks;
    if c[|c| - 1] {
      assert Gaps(c)[|Gaps(c)| - 1] == g;
    } else {
      MulMono(g, Pending(c) + 1, cellTicks);
    }
  }

  function Intervals(samples: seq<nat>): nat
    decreases |samples|
  {
    if samples == [] then 0 else Intervals(samples[..|samples| - 1]) + samples[|samples| - 1] + 1
  }

  lemma IntervalsSnoc(s: seq<nat>, x: nat)
    ensures Intervals(s + [x]) == Intervals(s) + x + 1
  {
    assert (s + [x])[..|s|] == s;
  }

  /** Time is conserved: the emitted intervals and the pending ticks add up to the cells consumed. */
  lemma {:induction false} TimeConserved(c: seq<bool>, cellTicks: nat)
    requires cellTicks > 0 && Fits(c, cellTicks)
    ensures 16 * Intervals(Samples(c, cellTicks)) + Ticks(c, cellTicks) == 16 * (cellTicks * |c|)
    decreases |c|
  {
    hide Fits, Samples, Intervals, Ticks;
    TicksExact(c, cellTicks);
    NoCells(cellTicks);
    if c == [] {
    } else {
      var init := c[..|c| - 1];
      FitsPrefix(c, cellTicks);
      TimeConserved(init, cellTicks);
      TicksExact(init, cellTicks);
      NextGap(c, cellTicks);
      assert cellTicks * |c| == cellTicks * |init| + cellTicks;
      if c[|c| - 1] {
        LastSample(c, cellTicks);
        IntervalsSnoc(Samples(init, cellTicks), (Pending(init) + 1) * cellTicks - 1);
      } else {
        SamplesSkip(c, cellTicks);
      }
    }
  }

  lemma NoCells(cellTicks: nat)
    ensures Samples([], cellTicks) == [] && Intervals([]) == 0
  {}

  lemma SamplesSkip(c: seq<bool>, cellTicks: nat)
    requires c != [] && !c[|c| - 1]
    ensures Samples(c, cellTicks) == Samples(c[..|c| - 1], cellTicks)
  {}

  // ----- the read path: rounding an interval to cells

  /** The subtract loop: cells in an interval of curr ticks. */
  function CellCount(curr: int, cell: nat): (n: nat)
    requires cell > 0
    ensures n >= 1
    decreases if curr > 0 then curr else 0
  {
    if curr > cell + cell / 2 then CellCount(curr - cell, cell) + 1 else 1
  }

  /** Division rounding toward zero. */
  function TruncDiv(a: int, b: int): int
    requires b > 0
  {
    if a >= 0 then a / b else -((-a) / b)
  }

  /** The closed form used while hunting for sync. */
  function ClosedCount(curr: int, cell: nat): int
    requires cell > 0
  {
    TruncDiv(curr - cell / 2, cell) + 1
  }

  /** Exactly the intervals the subtract loop takes for n cells. */
  lemma {:induction false} CellCountWindow(curr: int, cell: nat, n: nat)
    requires cell > 0 && n >= 1
    ensures CellCount(curr, cell) == n <==>
      (n == 1 || curr > (n - 1) * cell + cell / 2) && curr <= n * cell + cell / 2
    decreases n
  {
    if curr > cell + cell / 2 {
      if n > 1 {
        CellCountWindow(curr - cell, cell, n - 1);
        assert (n - 1) * cell == (n - 2) * cell + cell && n * cell == (n - 1) * cell + cell;
      }
    } else if n > 1 {
      MulMono(1, n - 1, cell);
    }
  }

  lemma DivWindow(a: int, b: nat, q: int)
    requires b > 0
    ensures a / b == q <==> q * b <= a < (q + 1) * b
  {
    var d := a / b;
    assert d * b <= a < d * b + b;
    assert (q + 1) * b == q * b + b && (d + 1) * b == d * b + b;
    if d < q {
      MulMono(d + 1, q, b);
    } else if d > q {
      MulMono(q + 1, d, b);
    }
  }

  /** Exactly the intervals the closed form takes for n cells. */
  lemma ClosedCountWindow(curr: nat, cell: nat, n: nat)
    requires cell > 0 && n >= 1
    ensures ClosedCount(curr, cell) == n <==>
      (n == 1 || curr >= (n - 1) * cell + cell / 2) && curr < n * cell + cell / 2
  {
    var t := curr - cell / 2;
    MulMono(1, n, cell);
    if t < 0 {
      DivWindow(-t, cell, 0);
      if n > 1 { MulMono(1, n - 1, cell); }
    } else {
      DivWindow(t, cell, n - 1);
    }
  }

  predicate OnBoundary(curr: int, cell: nat)
    requires cell > 0
  {
    curr - cell / 2 > 0 && (curr - cell / 2) % cell == 0
  }

  /** The two roundings agree on every interval, but at a boundary the closed form is one larger. */
  lemma RoundingsAgree(curr: nat, cell: nat)
    requires cell > 0
    ensures ClosedCount(curr, cell) == CellCount(curr, cell) + (if OnBoundary(curr, cell) then 1 else 0)
  {
    hide CellCount;
    var t := curr - cell / 2;
    if t < 0 {
      DivWindow(-t, cell, 0);
      CellCountIs(curr, cell, 1, cell);
    } else {
      BoundaryCount(curr, cell, t / cell, t % cell);
    }
  }

  /** The window of n cells, with x for their length. */
  lemma CellCountIs(curr: int, cell: nat, n: nat, x: int)
    requires cell > 0 && n >= 1 && x == n * cell
    ensures CellCount(curr, cell) == n <==> (n == 1 || curr > x - cell + cell / 2) && curr <= x + cell / 2
  {
    hide CellCount;
    CellCountWindow(curr, cell, n);
    assert (n - 1) * cell == x - cell;
  }

  lemma BoundaryCount(curr: nat, cell: nat, q: nat, m: nat)
    requires cell > 0 && curr - cell / 2 == q * cell + m && m < cell
    ensures CellCount(curr, cell) == if m == 0 && q > 0 then q else q + 1
  {
    hide CellCount;
    var x := q * cell;
    if m != 0 || q == 0 {
      assert (q + 1) * cell == x + cell;
      CellCountIs(curr, cell, q + 1, x + cell);
    } else {
      CellCountIs(curr, cell, q, x);
    }
  }

  /** An interval less than half a cell away from n cells is n cells to the subtract loop; the closed
      form agrees exactly when the excess is not the rounded-down half cell. */
  lemma JitterTolerance(n: nat, cell: nat, d: int)
    requires n >= 1 && cell > 0 && -(cell as int) < 2 * d < cell
    ensures CellCount(n * cell + d, cell) == n
    ensures n * cell + d >= 0
    ensures ClosedCount(n * cell + d, cell) == n <==> d != cell / 2
  {
    var x := n * cell;
    assert (n - 1) * cell == x - cell;
    MulMono(1, n, cell);
    CellCountWindow(x + d, cell, n);
    ClosedCountWindow(x + d, cell, n);
  }

  /** The exception is real: forty ticks at nine ticks a cell are four cells to the loop, five to the hunt. */
  lemma HalfCellExcess()
    ensures CellCount(40, 9) == 4 && ClosedCount(40, 9) == 5
  {
    CellCountWindow(40, 9, 4);
    ClosedCountWindow(40, 9, 5);
  }

  /** The speed ratios at which four cells written at w ticks read back as four at c ticks, by both roundings. */
  predicate Tolerant(w: nat, c: nat) {
    4 * (w - c) < c / 2 && 4 * (c - w) < c - c / 2
  }

  /** A speed error below an eighth of a cell is tolerable but in one case: cells written slow by the most that is still
      less than an eighth of an odd cell, which the rounded-down half cell of the closed form cannot take. */
  lemma EighthIsTolerant(w: nat, c: nat)
    requires 8 * (w - c) < c && 8 * (c - w) < c
    ensures Tolerant(w, c) <==> 8 * (w - c) != c - 1
  {
    var h := c / 2;
    assert c == 2 * h || c == 2 * h + 1;
  }

  /** MFM gaps of two to four cells all read back exactly when the ratio is tolerant. */
  lemma SpeedTolerance(w: nat, c: nat)
    requires w > 0 && c > 0
    ensures Tolerant(w, c) <==>
      (forall n: nat :: 2 <= n <= 4 ==> CellCount(n * w, c) == n && ClosedCount(n * w, c) == n)
  {
    hide CellCount, ClosedCount;
    BothCounts(w, c, 2);
    BothCounts(w, c, 3);
    BothCounts(w, c, 4);
    if Tolerant(w, c) {
      forall n: nat | 2 <= n <= 4
        ensures CellCount(n * w, c) == n && ClosedCount(n * w, c) == n
      {
        if n == 2 {} else if n == 3 {} else {}
      }
    } else {
      assert !(CellCount(4 * w, c) == 4 && ClosedCount(4 * w, c) == 4);
    }
  }

  lemma BothCounts(w: nat, c: nat, n: nat)
    requires c > 0 && n >= 2
    ensures CellCount(n * w, c) == n && ClosedCount(n * w, c) == n <==> (n - 1) * c + c / 2 < n * w < n * c + c / 2
  {
    hide CellCount, ClosedCount;
    CellCountWindow(n * w, c, n);
    ClosedCountWindow(n * w, c, n);
  }
}
