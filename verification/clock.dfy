/** The system clock: 32 bits of time kept up over a 24-bit counter that runs down. */
module SystemClock {
  import opened TimerSpec

  const STK: int := 0x100_0000

  /** The counter register when the full, unbounded down-counter stands at x. */
  function Counter(x: int): (r: int)
    ensures 0 <= r < STK
  {
    x % STK
  }

  /** Time now from a stamp and a counter reading: the stamp's top eight bits over the counter, a borrow when that
      is past the stamp, and the complement of the result. */
  function TimeFrom(stamp: int, stk: int): int
    requires 0 <= stamp < WRAP && 0 <= stk < STK
  {
    var t := stk + stamp / STK * STK;
    WRAP - 1 - (if t > stamp then Wrap(t - STK) else t)
  }

  lemma CounterIs(x: int, k: int, r: int)
    requires x == STK * k + r && 0 <= r < STK
    ensures Counter(x) == r
  {}

  lemma CounterOfWrap(x: int)
    ensures Counter(Wrap(x)) == Counter(x)
  {
    var k := WrapParts(x);
    var q := Wrap(x) / STK;
    CounterIs(Wrap(x), q, Wrap(x) - STK * q);
    CounterIs(x, 256 * k + q, Wrap(x) - STK * q);
  }

  /** x counts down: y = x - n. Their low and high parts either share the high part or borrow once. */
  lemma Borrow(x: int, n: nat)
    requires n < STK
    ensures var lo, stk := Counter(x), Counter(x - n);
            if stk <= lo then stk == lo - n else stk == lo - n + STK
  {
    var k := x / STK;
    var lo := x - STK * k;
    CounterIs(x, k, lo);
    if n <= lo { CounterIs(x - n, k, lo - n); } else { CounterIs(x - n, k - 1, lo - n + STK); }
  }

  /** The time is exact when fewer than 2^24 ticks have passed since the stamp that was read, whichever stamp that
      was: reading a stamp that is replaced before the counter is read does no harm. */
  lemma TimeIsExact(x: int, n: nat)
    requires n < STK
    ensures TimeFrom(Wrap(x), Counter(x - n)) == WRAP - 1 - Wrap(x - n)
  {
    hide Wrap, Counter;
    var s, stk := Wrap(x), Counter(x - n);
    CounterOfWrap(x);
    Borrow(x, n);
    var hi := s / STK * STK;
    CounterIs(s, s / STK, s - hi);
    var k := WrapParts(x);
    var t := stk + hi;
    if t > s {
      assert t - STK == s - n;
      WrapShift(x, k, s, n);
    } else {
      assert t == s - n;
      WrapIs(x - n, k, s - n);
    }
  }

  lemma WrapShift(x: int, k: int, s: int, n: int)
    requires x == WRAP * k + s
    ensures Wrap(s - n) == Wrap(x - n)
  {
    var q := (s - n) / WRAP;
    var r := s - n - WRAP * q;
    WrapIs(s - n, q, r);
    WrapIs(x - n, k + q, r);
  }

  lemma SameCounter(x: int, n: nat)
    ensures Counter(x - n) == Counter(x - n % STK)
  {
    var q, r := n / STK, n % STK;
    var k := (x - r) / STK;
    CounterIs(x - r, k, x - r - STK * k);
    CounterIs(x - n, k - q, x - r - STK * k);
  }

  /** However old the stamp, the reading is the true time less the whole turns of the counter missed. */
  lemma TimeOfAnyAge(x: int, n: nat)
    ensures TimeFrom(Wrap(x), Counter(x - n)) == WRAP - 1 - Wrap(x - n % STK)
  {
    hide Wrap, Counter, TimeFrom;
    SameCounter(x, n);
    TimeIsExact(x, n % STK);
  }

  lemma DifferByLess(x: int, y: int)
    requires 0 < y - x < WRAP
    ensures Wrap(x) != Wrap(y)
  {
    hide Wrap;
    var a := WrapParts(x);
    var b := WrapParts(y);
  }

  /** So a reading less than 2^32 ticks after its stamp is right if and only if it is less than 2^24 ticks after it. */
  lemma ExactWhen(x: int, n: nat)
    requires n < WRAP
    ensures TimeFrom(Wrap(x), Counter(x - n)) == WRAP - 1 - Wrap(x - n) <==> n < STK
  {
    hide Wrap, Counter, TimeFrom;
    TimeOfAnyAge(x, n);
    if n >= STK { DifferByLess(x - n, x - n % STK); }
  }

  // ----- the clock in memory

  /** The stamp, and the time it was taken; the counter is read from the hardware at a true time. */
  class Clock {
    var stamp: int
    const zero: int
    ghost var taken: int

    /** The full down-counter at a true time: the counter started at zero. */
    ghost function Down(time: int): int { zero - time }

    ghost predicate Valid()
      reads this
    {
      0 <= zero < STK && stamp == Wrap(Down(taken))
    }

    /** time_init: stk is the counter as it stands at true time 0. */
    constructor (stk: int)
      requires 0 <= stk < STK
      ensures Valid() && taken == 0 && zero == stk
    {
      zero, stamp, taken := stk, stk, 0;
    }

    /** The 32-bit time of a true time. */
    ghost function TimeAt(time: int): int { WRAP - 1 - Wrap(Down(time)) }

    /** time_now, with the counter read at true time at. */
    method Now(stk: int, ghost at: int) returns (time: int)
      requires Valid() && stk == Counter(Down(at)) && taken <= at < taken + STK
      ensures time == TimeAt(at)
    {
      hide Wrap, Counter;
      var s := stamp;
      var t := stk + s / STK * STK;
      TimeIsExact(Down(taken), at - taken);
      if t > s { t := Wrap(t - STK); }
      time := WRAP - 1 - t;
    }

    /** time_stamp_update: a new stamp, and the deadline of the next. */
    method Restamp(stk: int, ghost at: int) returns (deadline: int)
      requires Valid() && stk == Counter(Down(at)) && taken <= at < taken + STK
      modifies this`stamp, this`taken
      ensures Valid() && taken == at && deadline == TimeAt(Step(Keeper(at, old(taken), at), Stamp).due)
    {
      hide Wrap, Counter;
      var now := Now(stk, at);
      stamp, taken := WRAP - 1 - now, at;
      deadline := Wrap(now + 500 * 1000 * 9);
      Later(zero - at, 4500000);
    }
  }

  /** Complementing a time that runs down gives one that runs up. */
  lemma Later(x: int, d: int)
    ensures Wrap(WRAP - 1 - Wrap(x) + d) == WRAP - 1 - Wrap(x - d)
  {
    hide Wrap;
    var k := WrapParts(x - d);
    var j := WrapParts(x);
    WrapIs(WRAP - 1 - Wrap(x) + d, j - k, WRAP - 1 - Wrap(x - d));
  }

  // ----- whole runs

  /** True time, the time of the last stamp, and when the next is due. */
  datatype Keeper = Keeper(now: int, taken: int, due: int)

  datatype Event = Tick(n: nat) | Stamp

  const HALF_SECOND: int := 4500000

  predicate Possible(k: Keeper, ev: Event, latency: nat) {
    match ev
    case Tick(n) => k.now + n <= k.due + latency
    case Stamp => k.now >= k.due - SLACK
  }

  function Step(k: Keeper, ev: Event): Keeper {
    match ev
    case Tick(n) => k.(now := k.now + n)
    case Stamp => Keeper(k.now, k.now, k.now + HALF_SECOND)
  }

  function Run(evs: seq<Event>): Keeper
    decreases |evs|
  {
    if evs == [] then Keeper(0, 0, HALF_SECOND) else Step(Run(evs[..|evs| - 1]), evs[|evs| - 1])
  }

  predicate Runs(evs: seq<Event>, latency: nat)
    decreases |evs|
  {
    evs == [] || (Runs(evs[..|evs| - 1], latency) && Possible(Run(evs[..|evs| - 1]), evs[|evs| - 1], latency))
  }

  lemma {:induction false} StampIsFresh(evs: seq<Event>, latency: nat)
    requires Runs(evs, latency)
    ensures var k := Run(evs);
            k.due == k.taken + HALF_SECOND && k.taken <= k.now <= k.due + latency
    decreases |evs|
  {
    if evs != [] { StampIsFresh(evs[..|evs| - 1], latency); }
  }

  /** Over every run in which the stamp callback is never as late as 2^24 ticks less half a second, a reading
      of the clock at any moment gives the true time in 32 bits, even when the stamp it used was replaced, or
      some ticks went by, before it read the counter. */
  lemma ClockIsAlwaysExact(evs: seq<Event>, latency: nat, zero: int, delay: nat)
    requires Runs(evs, latency) && HALF_SECOND + latency + delay < STK
    ensures var k := Run(evs);
            TimeFrom(Wrap(zero - k.taken), Counter(zero - k.now - delay)) == WRAP - 1 - Wrap(zero - k.now - delay)
  {
    hide Wrap, Counter, TimeFrom;
    StampIsFresh(evs, latency);
    var k := Run(evs);
    TimeIsExact(zero - k.taken, k.now + delay - k.taken);
  }

  /** And so the clock never runs backwards: any two readings differ by the time between them, modulo 2^32. */
  lemma ClockIsMonotone(evs: seq<Event>, more: seq<Event>, latency: nat, zero: int)
    requires Runs(evs, latency) && Runs(evs + more, latency) && HALF_SECOND + latency < STK
    ensures var k, l := Run(evs), Run(evs + more);
            && k.now <= l.now
            && TimeFrom(Wrap(zero - l.taken), Counter(zero - l.now))
               == Wrap(TimeFrom(Wrap(zero - k.taken), Counter(zero - k.now)) + (l.now - k.now))
  {
    hide Wrap, Counter, TimeFrom;
    ClockIsAlwaysExact(evs, latency, zero, 0);
    ClockIsAlwaysExact(evs + more, latency, zero, 0);
    var k, l := Run(evs), Run(evs + more);
    TimeGoesOn(evs, more);
    Later(zero - k.now, l.now - k.now);
  }

  lemma {:induction false} TimeGoesOn(evs: seq<Event>, more: seq<Event>)
    ensures Run(evs).now <= Run(evs + more).now
    decreases |more|
  {
    if more == [] {
      assert evs + more == evs;
    } else {
      var init := more[..|more| - 1];
      assert (evs + more)[..|evs + more| - 1] == evs + init;
      TimeGoesOn(evs, init);
    }
  }
}
