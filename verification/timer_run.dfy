/** The timer system as it runs: time, the one-shot alarm, the interrupt, and whatever callbacks and tasks do. */
module TimerRun {
  import opened TimerSpec

  /** The hardware counter: stopped, or due to overflow at a time, having been programmed at another, some ticks
      after the time its period was worked out for. */
  datatype Alarm = Stopped | Running(at: int, from: int, late: nat)

  datatype Firing<T> = Firing(e: Entry<T>, at: int)

  /** irq says that the interrupt loop is between two turns; callbacks run there. Armed, fired and dropped record
      every deadline that was set, every callback that ran, and every deadline cancelled or replaced. */
  datatype State<T(==)> = State(now: int, list: seq<Entry<T>>, alarm: Alarm, pending: bool, irq: bool,
                            armed: multiset<Entry<T>>, fired: seq<Firing<T>>, dropped: multiset<Entry<T>>)

  datatype Event<T> =
    | Tick(n: nat)
    | Set(e: Entry<T>, late: nat)
    | Cancel(timer: T)
    | Enter
    | Turn(late: nat)

  /** n ticks pass; an alarm that falls due stops and raises the interrupt. */
  function Elapse<T>(s: State<T>, n: nat): State<T> {
    var t := s.(now := s.now + n);
    if s.alarm.Running? && s.alarm.at <= t.now then t.(alarm := Stopped, pending := true) else t
  }

  /** The alarm set for delta ticks, late ticks after delta was worked out. Whatever was pending is forgotten. */
  function Reprogrammed<T>(s: State<T>, delta: int, late: nat): State<T> {
    var t := Elapse(s, late);
    t.(alarm := Running(t.now + Period(delta), t.now, late), pending := false)
  }

  function Dropped<T(==)>(l: seq<Entry<T>>, t: T): multiset<Entry<T>> {
    if l == [] then multiset{} else if l[0].timer == t then multiset{l[0]} else Dropped(l[1..], t)
  }

  function Cancelled<T(==)>(s: State<T>, t: T): State<T> {
    s.(list := Remove(s.list, t), dropped := s.dropped + Dropped(s.list, t))
  }

  function Step<T(==)>(s: State<T>, ev: Event<T>): State<T> {
    match ev
    case Tick(n) => Elapse(s, n)
    case Cancel(t) => Cancelled(s, t)
    case Set(e, late) =>
      var c := Cancelled(s, e.timer);
      var t := c.(list := Insert(c.list, e), armed := c.armed + multiset{e});
      if t.list != [] && t.list[0] == e then Reprogrammed(t, e.due - s.now, late) else Elapse(t, late)
    case Enter => s.(pending := false, irq := true)
    case Turn(late) =>
      if s.list == [] then s.(irq := false)
      else if s.list[0].due - s.now > SLACK then Reprogrammed(s, s.list[0].due - s.now, late).(irq := false)
      else s.(list := s.list[1..], fired := s.fired + [Firing(s.list[0], s.now)])
  }

  /** When an event can happen. An interrupt may be taken even after the alarm has been set again. Differences are
      taken only between times less than 2^31 ticks apart. */
  ghost predicate Possible<T>(s: State<T>, ev: Event<T>) {
    match ev
    case Tick(_) => true
    case Cancel(_) => true
    case Set(e, _) => Near(s.now, e.due) && AllNear(s)
    case Enter => !s.irq
    case Turn(_) => s.irq && AllNear(s)
  }

  ghost predicate AllNear<T>(s: State<T>) { forall i :: 0 <= i < |s.list| ==> Near(s.now, s.list[i].due) }

  function Start<T(==)>(now: int): State<T> { State(now, [], Stopped, false, false, multiset{}, [], multiset{}) }

  function Run<T(==)>(s: State<T>, evs: seq<Event<T>>): State<T>
    decreases |evs|
  {
    if evs == [] then s else Step(Run(s, evs[..|evs| - 1]), evs[|evs| - 1])
  }

  ghost predicate Runs<T>(s: State<T>, evs: seq<Event<T>>)
    decreases |evs|
  {
    evs == [] || (Runs(s, evs[..|evs| - 1]) && Possible(Run(s, evs[..|evs| - 1]), evs[|evs| - 1]))
  }

  // ----- what every run keeps

  /** Eleven ticks before the deadline, or as late after that as the programming was; or at once, when that is past. */
  predicate InTime<T>(a: Alarm, e: Entry<T>)
    requires a.Running?
  {
    a.at <= e.due - 11 + a.late || a.at == a.from + 2
  }

  /** A nonempty list always has an interrupt under way or pending, or an alarm that falls due no later than its
      first timer needs. */
  ghost predicate Watched<T>(s: State<T>) {
    && (s.alarm.Running? ==> s.alarm.from <= s.now < s.alarm.at)
    && (s.list != [] ==> s.irq || s.pending || (s.alarm.Running? && InTime(s.alarm, s.list[0])))
  }

  /** No callback ran more than twelve ticks before its deadline. */
  ghost predicate NeverEarly<T>(fired: seq<Firing<T>>) {
    forall i :: 0 <= i < |fired| ==> fired[i].at >= fired[i].e.due - SLACK
  }

  function FiredOf<T(==)>(f: seq<Firing<T>>): multiset<Entry<T>>
    decreases |f|
  {
    if f == [] then multiset{} else FiredOf(f[..|f| - 1]) + multiset{f[|f| - 1].e}
  }

  /** Every deadline ever set is waiting, has fired, or was cancelled or replaced: each exactly once. */
  ghost predicate Accounted<T>(armed: multiset<Entry<T>>, l: seq<Entry<T>>, fired: seq<Firing<T>>,
                                  dropped: multiset<Entry<T>>) {
    armed == multiset(l) + FiredOf(fired) + dropped
  }

  ghost predicate Good<T>(s: State<T>) {
    Ordered(s.list) && Once(s.list) && Watched(s)
    && NeverEarly(s.fired) && Accounted(s.armed, s.list, s.fired, s.dropped)
  }

  lemma {:induction false} RemoveMultiset<T>(l: seq<Entry<T>>, t: T)
    ensures multiset(l) == multiset(Remove(l, t)) + Dropped(l, t)
  {
    if l != [] {
      assert l == [l[0]] + l[1..];
      if l[0].timer != t { RemoveMultiset(l[1..], t); }
    }
  }

  /** After a removal the first timer is the one that was first, or one due no earlier. */
  lemma RemoveHead<T>(l: seq<Entry<T>>, t: T)
    requires Ordered(l) && Remove(l, t) != []
    ensures l != [] && l[0].due <= Remove(l, t)[0].due
  {}

  lemma InsertHead<T>(l: seq<Entry<T>>, e: Entry<T>)
    ensures Insert(l, e) != []
    ensures Insert(l, e)[0] == e || (l != [] && Insert(l, e)[0] == l[0])
  {}

  lemma ElapseGood<T>(s: State<T>, n: nat)
    requires Good(s)
    ensures Good(Elapse(s, n))
  {
    hide Ordered, Once, NeverEarly, Accounted;
  }

  /** Setting the alarm for the first timer restores the watch, whatever it was before. */
  lemma ReprogrammedGood<T>(s: State<T>, late: nat)
    requires Ordered(s.list) && Once(s.list)
    requires NeverEarly(s.fired) && Accounted(s.armed, s.list, s.fired, s.dropped)
    requires s.list != [] && s.list[0].due - s.now < 0x8000_0000
    ensures Good(Reprogrammed(s, s.list[0].due - s.now, late))
    ensures Good(Reprogrammed(s, s.list[0].due - s.now, late).(irq := false))
  {
    hide Ordered, Once, NeverEarly, Accounted, Period, Program;
    AlarmNeverOvershoots(s.list[0].due - s.now);
  }

  lemma CancelGood<T>(s: State<T>, t: T)
    requires Good(s)
    ensures Good(Cancelled(s, t))
  {
    hide Ordered, Once, NeverEarly;
    RemoveKeeps(s.list, t);
    RemoveMultiset(s.list, t);
    if Remove(s.list, t) != [] { RemoveHead(s.list, t); }
  }

  lemma RemoveAll<T>(l: seq<Entry<T>>, t: T)
    requires Ordered(l) && Once(l)
    ensures forall x :: x in Remove(l, t) ==> x.timer != t
  {
    hide Ordered, Once;
    forall x | x in Remove(l, t)
      ensures x.timer != t
    {
      RemoveIn(l, t, x);
    }
  }

  lemma SetGood<T>(s: State<T>, e: Entry<T>, late: nat)
    requires Good(s) && Near(s.now, e.due)
    ensures Good(Step(s, Set(e, late)))
  {
    hide Ordered, Once, NeverEarly, Insert, Remove, Dropped, Watched, Reprogrammed, Elapse;
    var c := Cancelled(s, e.timer);
    CancelGood(s, e.timer);
    RemoveAll(s.list, e.timer);
    var t := c.(list := Insert(c.list, e), armed := c.armed + multiset{e});
    InsertKeeps(c.list, e);
    InsertMultiset(c.list, e);
    InsertHead(c.list, e);
    if t.list[0] == e {
      ReprogrammedGood(t, late);
    } else {
      InsertRest(c, t);
      ElapseGood(t, late);
    }
  }

  lemma InsertRest<T>(c: State<T>, t: State<T>)
    requires Good(c) && t == c.(list := t.list, armed := t.armed)
    requires t.list != [] && c.list != [] && t.list[0] == c.list[0]
    ensures Watched(t)
  {
    hide Ordered, Once, NeverEarly, Accounted;
  }

  lemma TurnGood<T>(s: State<T>, late: nat)
    requires Good(s) && s.irq && AllNear(s)
    ensures Good(Step(s, Turn(late)))
  {
    hide Ordered, Once, Reprogrammed, Accounted, NeverEarly;
    if s.list != [] {
      if s.list[0].due - s.now > SLACK {
        ReprogrammedGood(s, late);
      } else {
        Rest(s.list);
        FireGood(s);
      }
    }
  }

  lemma FireGood<T>(s: State<T>)
    requires Good(s) && s.list != [] && s.list[0].due - s.now <= SLACK
    ensures var t := s.(list := s.list[1..], fired := s.fired + [Firing(s.list[0], s.now)]);
            NeverEarly(t.fired) && Accounted(t.armed, t.list, t.fired, t.dropped)
  {
    hide Good, NeverEarly, Accounted;
    GoodParts(s);
    LateEnough(s.fired, Firing(s.list[0], s.now));
    MovedToFired(s.armed, s.list, s.fired, s.dropped, s.now);
  }

  lemma GoodParts<T>(s: State<T>)
    requires Good(s)
    ensures NeverEarly(s.fired) && Accounted(s.armed, s.list, s.fired, s.dropped)
  {}

  lemma LateEnough<T>(fired: seq<Firing<T>>, f: Firing<T>)
    requires NeverEarly(fired) && f.at >= f.e.due - SLACK
    ensures NeverEarly(fired + [f])
  {}

  lemma MovedToFired<T>(armed: multiset<Entry<T>>, l: seq<Entry<T>>, fired: seq<Firing<T>>, dropped: multiset<Entry<T>>,
                        now: int)
    requires l != [] && Accounted(armed, l, fired, dropped)
    ensures Accounted(armed, l[1..], fired + [Firing(l[0], now)], dropped)
  {
    hide FiredOf;
    FiredMore(fired, Firing(l[0], now));
    assert l == [l[0]] + l[1..];
    Shifted(multiset{l[0]}, multiset(l[1..]), FiredOf(fired), dropped);
  }

  lemma FiredMore<T>(fired: seq<Firing<T>>, f: Firing<T>)
    ensures FiredOf(fired + [f]) == FiredOf(fired) + multiset{f.e}
  {
    assert (fired + [f])[..|fired + [f]| - 1] == fired;
  }

  lemma Shifted<T>(a: multiset<T>, b: multiset<T>, c: multiset<T>, d: multiset<T>)
    ensures (a + b) + c + d == b + (c + a) + d
  {}

  /** In every run, from any start, over every interleaving of timers being set and cancelled, time passing,
      alarms falling due, interrupts and callbacks: the list stays ordered with each timer in it once, it is
      always watched, nothing fires early, and no deadline is lost or fires twice. */
  lemma {:induction false} NoTimerIsLost<T>(now: int, evs: seq<Event<T>>)
    requires Runs(Start(now), evs)
    ensures Good(Run(Start(now), evs))
    decreases |evs|
  {
    hide Ordered, Once, Watched, NeverEarly, Accounted;
    if evs == [] {
      StartGood<T>(now);
    } else {
      NoTimerIsLost(now, evs[..|evs| - 1]);
      StepGood(Run(Start(now), evs[..|evs| - 1]), evs[|evs| - 1]);
    }
  }

  lemma StartGood<T>(now: int)
    ensures Good(Start<T>(now))
  {}

  lemma StepGood<T>(s: State<T>, ev: Event<T>)
    requires Good(s) && Possible(s, ev)
    ensures Good(Step(s, ev))
  {
    hide Good, Elapse, Reprogrammed, Cancelled, Near, AllNear;
    match ev
    case Tick(n) => ElapseGood(s, n);
    case Cancel(t) => CancelGood(s, t);
    case Set(e, late) => SetGood(s, e, late);
    case Enter => EnterGood(s);
    case Turn(late) => TurnGood(s, late);
  }

  lemma EnterGood<T>(s: State<T>)
    requires Good(s)
    ensures Good(s.(pending := false, irq := true))
  {
    hide Ordered, Once, NeverEarly;
  }

  // ----- how soon the first timer is reached

  /** How often the alarm is set before a timer due in delta ticks runs, when interrupts are taken at once. */
  function Reprograms(delta: int): nat
    requires delta < 0x8000_0000
    decreases if delta <= SLACK then 0 else delta
  {
    AlarmNeverOvershoots(delta);
    if delta <= SLACK then 0 else 1 + Reprograms(delta - Period(delta))
  }

  lemma {:induction false} ReprogramsShort(delta: int)
    requires 0 <= delta < 45000
    ensures Reprograms(delta) <= 1
  {
    hide Program, Period;
    AlarmNeverOvershoots(delta);
  }

  /** Once for each whole alarm of the longest kind, once to come within five milliseconds, and once more. */
  lemma {:induction false} ReprogramsBound(delta: int)
    requires 0 <= delta < 0x8000_0000
    ensures Reprograms(delta) <= delta / (65536 * 900) + 2
    decreases delta
  {
    hide Period;
    AlarmNeverOvershoots(delta);
    var rest := delta - Period(delta);
    if delta <= SLACK {
    } else if delta < 0x1_0000 || Program(delta).arr < 0xffff {
      ReprogramsShort(rest);
    } else {
      ReprogramsBound(rest);
    }
  }

  /** The run of alarms and interrupts that leads to it, with nothing else going on. */
  function ServiceRun<T>(delta: int): seq<Event<T>>
    requires delta < 0x8000_0000
    decreases if delta <= SLACK then 0 else delta
  {
    AlarmNeverOvershoots(delta);
    if delta <= SLACK then []
    else [Turn(0), Tick(Period(delta)), Enter] + ServiceRun(delta - Period(delta))
  }

  lemma {:induction false} RunConcat<T>(s: State<T>, a: seq<Event<T>>, b: seq<Event<T>>)
    ensures Run(s, a + b) == Run(Run(s, a), b)
    ensures Runs(s, a) && Runs(Run(s, a), b) ==> Runs(s, a + b)
    decreases |b|
  {
    hide Step, Possible;
    if b == [] {
      assert a + b == a;
    } else {
      var init := b[..|b| - 1];
      assert (a + b)[..|a + b| - 1] == a + init;
      RunConcat(s, a, init);
    }
  }

  lemma RunOne<T>(s: State<T>, ev: Event<T>)
    ensures Run(s, [ev]) == Step(s, ev)
    ensures Possible(s, ev) ==> Runs(s, [ev])
  {
    hide Step, Possible;
    assert [ev][..0] == [];
    assert Run(s, []) == s && Runs(s, []);
    assert |[ev]| == 1 && [ev][..|[ev]| - 1] == [];
  }

  lemma RunTwo<T>(s: State<T>, a: Event<T>, b: Event<T>)
    ensures Run(s, [a, b]) == Step(Step(s, a), b)
    ensures Possible(s, a) && Possible(Step(s, a), b) ==> Runs(s, [a, b])
  {
    hide Step, Possible;
    RunOne(s, a);
    RunOne(Step(s, a), b);
    RunConcat(s, [a], [b]);
    assert [a] + [b] == [a, b];
  }

  lemma RunThree<T>(s: State<T>, a: Event<T>, b: Event<T>, c: Event<T>)
    ensures Run(s, [a, b, c]) == Step(Step(Step(s, a), b), c)
    ensures Possible(s, a) && Possible(Step(s, a), b) && Possible(Step(Step(s, a), b), c) ==> Runs(s, [a, b, c])
  {
    hide Step, Possible;
    RunTwo(s, a, b);
    RunOne(Step(Step(s, a), b), c);
    RunConcat(s, [a, b], [c]);
    assert [a, b] + [c] == [a, b, c];
  }

  /** One alarm and its interrupt. */
  lemma OneAlarm<T>(s: State<T>, delta: int)
    requires s.irq && s.list != [] && Ordered(s.list) && AllNear(s)
    requires delta == s.list[0].due - s.now && SLACK < delta < 0x8000_0000
    ensures var evs := [Turn(0), Tick(Period(delta)), Enter];
            var t := Run(s, evs);
            && Runs(s, evs) && t.irq && t.list == s.list && t.fired == s.fired && t.dropped == s.dropped
            && t.now == s.now + Period(delta) && AllNear(t)
  {
    hide Period, Program, Run, Runs, Ordered, AllNear;
    AlarmNeverOvershoots(delta);
    RunThree(s, Turn(0), Tick(Period(delta)), Enter);
    var t := Step(s, Turn(0));
    var u := Step(t, Tick(Period(delta)));
    assert t == Reprogrammed(s, delta, 0).(irq := false);
    NearLater(s, Period(delta), Step(u, Enter));
  }

  lemma NearLater<T>(s: State<T>, n: nat, t: State<T>)
    requires AllNear(s) && Ordered(s.list) && s.list != [] && n <= s.list[0].due - s.now
    requires t.list == s.list && t.now == s.now + n
    ensures AllNear(t)
  {
    forall i | 0 <= i < |t.list|
      ensures Near(t.now, t.list[i].due)
    {
      assert s.list[0].due <= s.list[i].due;
      assert Near(s.now, s.list[i].due);
    }
  }

  /** From any interrupt with a timer waiting, however far off, at most delta / (65536 * 900) + 2 alarms later the
      interrupt loop finds that timer first in the list, and runs its callback: eleven ticks before its deadline,
      or at once when no more than twelve ticks were left. */
  lemma {:induction false} FirstTimerIsReached<T>(s: State<T>, delta: int)
    requires s.irq && s.list != [] && Ordered(s.list) && AllNear(s) && delta == s.list[0].due - s.now < 0x8000_0000
    ensures Runs(s, ServiceRun<T>(delta))
    ensures |ServiceRun<T>(delta)| == 3 * Reprograms(delta)
    ensures delta > 0 ==> Reprograms(delta) <= delta / (65536 * 900) + 2
    ensures var t := Run(s, ServiceRun<T>(delta));
            && t.list == s.list && t.irq && t.now == (if delta <= SLACK then s.now else s.list[0].due - 11)
            && Step(t, Turn(0)).fired == s.fired + [Firing(s.list[0], t.now)]
            && Step(t, Turn(0)).list == s.list[1..]
    decreases if delta <= SLACK then 0 else delta
  {
    hide Period, Program, Ordered, AllNear;
    if delta > 0 { ReprogramsBound(delta); }
    AlarmNeverOvershoots(delta);
    if delta > SLACK {
      var evs := [Turn(0), Tick(Period(delta)), Enter];
      OneAlarm(s, delta);
      var t := Run(s, evs);
      FirstTimerIsReached(t, delta - Period(delta));
      RunConcat(s, evs, ServiceRun<T>(delta - Period(delta)));
    }
  }

  // ----- how late a timer can be

  /** Timer x is set, due at once, and then timer y every tick, due no later. */
  function SetEachTick<T>(x: T, y: T, n: nat): seq<Event<T>> {
    if n == 0 then [Set(Entry(x, 0), 0)] else SetEachTick(x, y, n - 1) + [Set(Entry(y, 0), 0), Tick(1)]
  }

  /** No bound on how long an interrupt waits bounds how late a callback runs, for every timer that is set first in the
      list starts the alarm again: here no interrupt ever waits, and x is as late as 32 bits can tell. */
  lemma {:induction false} LateWithoutWaiting<T>(x: T, y: T, n: nat)
    requires x != y && n <= 0x8000_0000
    ensures var evs := SetEachTick(x, y, n);
            var s := Run(Start(0), evs);
            && Runs(Start(0), evs) && s.now == n && s.fired == [] && Entry(x, 0) in s.list
            && forall k | 0 <= k <= |evs| :: !Run(Start(0), evs[..k]).pending
  {
    var evs := SetEachTick(x, y, n);
    var s := LateState(x, y, n);
    forall k | 0 <= k <= |evs|
      ensures !Run(Start(0), evs[..k]).pending
    {
      NeverWaits(x, y, n, k);
    }
  }

  lemma {:induction false} LateState<T>(x: T, y: T, n: nat) returns (s: State<T>)
    requires x != y && n <= 0x8000_0000
    ensures Runs(Start(0), SetEachTick(x, y, n)) && s == Run(Start(0), SetEachTick(x, y, n))
    ensures s.now == n && s.fired == [] && !s.pending && !s.irq && s.alarm.Running? && s.alarm.at >= n + 1
    ensures s.list == if n == 0 then [Entry(x, 0)] else [Entry(y, 0), Entry(x, 0)]
  {
    hide Run, Runs, Step, Possible;
    if n == 0 {
      SetPast(Start(0), x);
      RunOne(Start(0), Set(Entry(x, 0), 0));
      s := Step(Start(0), Set(Entry(x, 0), 0));
    } else {
      var t := LateState(x, y, n - 1);
      RemoveOther(x, y);
      SetPast(t, y);
      OneTick(Step(t, Set(Entry(y, 0), 0)));
      RunTwo(t, Set(Entry(y, 0), 0), Tick(1));
      RunConcat(Start(0), SetEachTick(x, y, n - 1), [Set(Entry(y, 0), 0), Tick(1)]);
      s := Step(Step(t, Set(Entry(y, 0), 0)), Tick(1));
    }
  }

  lemma RemoveOther<T>(x: T, y: T)
    requires x != y
    ensures Remove([Entry(x, 0)], y) == [Entry(x, 0)] && Remove([Entry(y, 0), Entry(x, 0)], y) == [Entry(x, 0)]
  {}

  /** A timer set for time zero, which nothing in the list comes before. */
  lemma SetPast<T>(s: State<T>, e: T)
    requires 0 <= s.now < 0x8000_0000 && forall i :: 0 <= i < |s.list| ==> s.list[i].due == 0
    requires forall i :: 0 <= i < |Remove(s.list, e)| ==> Remove(s.list, e)[i].due == 0
    ensures var t := Step(s, Set(Entry(e, 0), 0));
            && Possible(s, Set(Entry(e, 0), 0)) && t.now == s.now && t.list == [Entry(e, 0)] + Remove(s.list, e)
            && t.fired == s.fired && !t.pending && t.irq == s.irq && t.alarm.Running? && t.alarm.at == s.now + 2
  {
    hide Remove, Dropped, Program, Period;
    AlarmNeverOvershoots(-s.now);
  }

  lemma OneTick<T>(s: State<T>)
    requires s.alarm.Running? && s.alarm.at > s.now + 1
    ensures Possible(s, Tick(1)) && Step(s, Tick(1)) == s.(now := s.now + 1)
  {}

  lemma {:induction false} NeverWaits<T>(x: T, y: T, n: nat, k: nat)
    requires x != y && n <= 0x8000_0000 && k <= |SetEachTick(x, y, n)|
    ensures !Run(Start(0), SetEachTick(x, y, n)[..k]).pending
  {
    hide Run, Runs, Period, Program, Remove, Insert;
    var evs := SetEachTick(x, y, n);
    if k == |evs| {
      assert evs[..k] == evs;
      var s := LateState(x, y, n);
    } else if n == 0 {
      StartRun<T>(evs[..0]);
    } else {
      var before := SetEachTick(x, y, n - 1);
      if k <= |before| {
        assert evs[..k] == before[..k];
        NeverWaits(x, y, n - 1, k);
      } else {
        assert evs[..k] == before + [Set(Entry(y, 0), 0)];
        var t := LateState(x, y, n - 1);
        RunConcat(Start(0), before, [Set(Entry(y, 0), 0)]);
        RunOne(t, Set(Entry(y, 0), 0));
      }
    }
  }

  lemma StartRun<T>(evs: seq<Event<T>>)
    requires evs == []
    ensures Run(Start(0), evs) == Start(0)
  {}
}
