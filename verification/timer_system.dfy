/** The timer list in memory together with the system it serves: every operation is a step of the state machine. */
module TimerSystem {
  import opened TimerSpec
  import opened TimerRun
  import opened Timers

  /** The list, and the state the whole system is in. */
  class System {
    const queue: TimerQueue
    ghost var state: State<Timer>

    /** The linked list is the state's list, and a running alarm is due when its registers make the counter overflow. */
    ghost predicate Refines()
      reads this, queue, queue.all, queue.list
    {
      && queue.Valid() && queue.Entries() == state.list
      && (state.alarm.Running? ==> state.alarm.at == state.alarm.from + Ticks(queue.regs))
    }

    /** timers_init: an empty list and a stopped alarm. */
    constructor (ghost now: int)
      ensures Refines() && state == Start(now) && fresh(queue) && queue.all == {}
    {
      queue := new TimerQueue();
      state := Start(now);
    }

    /** timer_set, late ticks of which pass before the alarm is programmed. */
    method TimerSet(t: Timer, deadline: int, time: int, ghost due: int, ghost late: nat)
      requires Refines() && t in queue.all
      requires deadline == Wrap(due) && time == Wrap(state.now) && Possible(state, Set(Entry(t, due), late))
      modifies this`state, queue`head, queue`list, queue`regs, queue.all`next, t`deadline, t`due
      ensures Refines() && queue.all == old(queue.all)
      ensures state == Step(old(state), Set(Entry(t, due), late))
    {
      hide Wrap, Insert, Remove, Near, Program, Ticks, Dropped, Shape, EntriesOf, Step, AllNear, Elapse, Period;
      ghost var e, s := Entry(t, due), state;
      ListNear(queue.list, s);
      queue.Set(t, deadline, time, due, s.now);
      InsertHead(Remove(s.list, t), e);
      StepOfSet(s, e, late);
      state := Step(s, Set(e, late));
      PeriodIs(due - s.now);
    }

    /** timer_cancel. */
    method TimerCancel(t: Timer)
      requires Refines() && t in queue.all
      modifies this`state, queue`head, queue`list, queue.all`next
      ensures Refines() && queue.all == old(queue.all)
      ensures state == Step(old(state), TimerRun.Cancel(t))
    {
      hide Wrap, Remove, Ticks, Dropped, Shape, EntriesOf;
      queue.Cancel(t);
      state := Step(state, TimerRun.Cancel(t));
    }

    /** One turn of the interrupt loop; the callback of a timer taken off the list runs after it. */
    method IrqTurn(time: int, ghost late: nat) returns (turn: Timers.Turn)
      requires Refines() && time == Wrap(state.now) && Possible(state, TimerRun.Turn(late))
      modifies this`state, queue`head, queue`list, queue`regs, queue.all`next
      ensures Refines() && queue.all == old(queue.all)
      ensures state == Step(old(state), TimerRun.Turn(late))
      ensures turn.Run? ==> old(state.list) != [] && old(state.list)[0].timer == turn.timer
      ensures turn.Run? <==> state.irq
    {
      hide Wrap, Near, Program, Ticks, Shape, EntriesOf, Step, Period, AllNear;
      ghost var s := state;
      ListNear(queue.list, s);
      turn := queue.Service(time, s.now);
      state := Step(s, TimerRun.Turn(late));
      StepOfTurn(s, late);
      if s.list != [] { PeriodIs(s.list[0].due - s.now); }
    }

    /** Time passes, and the interrupt is taken: the list has no part in either. */
    ghost method Hardware(ev: Event<Timer>)
      requires Refines() && (ev.Tick? || ev.Enter?)
      modifies this`state
      ensures Refines() && state == Step(old(state), ev)
    {
      state := Step(state, ev);
    }
  }

  lemma ListNear(list: seq<Timer>, s: State<Timer>)
    requires EntriesOf(list) == s.list && AllNear(s)
    ensures forall u :: u in list ==> Near(s.now, u.due)
  {
    forall u | u in list
      ensures Near(s.now, u.due)
    {
      var i :| 0 <= i < |list| && list[i] == u;
      assert s.list[i].due == u.due;
    }
  }

  lemma PeriodIs(delta: int)
    ensures Period(delta) == Ticks(Program(delta))
  {}

  /** What setting a timer does to the list and the alarm. */
  lemma StepOfSet(s: State<Timer>, e: Entry<Timer>, late: nat)
    ensures var l, t := Insert(Remove(s.list, e.timer), e), Step(s, Set(e, late));
            && l != [] && t.list == l
            && (l[0] == e ==> t.alarm == Running(s.now + late + Period(e.due - s.now), s.now + late, late))
            && (l[0] != e ==> t.alarm == s.alarm || t.alarm == Stopped)
  {
    hide Insert, Remove, Dropped, Period;
    InsertHead(Remove(s.list, e.timer), e);
  }

  /** What a turn of the interrupt loop does to them. */
  lemma StepOfTurn(s: State<Timer>, late: nat)
    ensures var t := Step(s, TimerRun.Turn(late));
            if s.list == [] then t == s.(irq := false)
            else if s.list[0].due - s.now > SLACK then
              && t.list == s.list && !t.irq
              && t.alarm == Running(s.now + late + Period(s.list[0].due - s.now), s.now + late, late)
            else t.list == s.list[1..] && t.alarm == s.alarm && t.irq == s.irq
  {
    hide Period;
  }
}
