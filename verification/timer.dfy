/** The timer list as it lies in memory: linked timers, the pointer walk, and the alarm registers. */
module Timers {
  import opened TimerSpec

  /** What a next field may hold: the inactive mark, the end of the list, or a timer. */
  datatype Link = Inactive | Null | To(timer: Timer)

  /** A timer: its 32-bit deadline, its link, and the time it is really due. */
  class Timer {
    var deadline: int
    var next: Link
    ghost var due: int

    constructor ()
      ensures next == Inactive
    {
      next := Inactive;
    }
  }

  /** What one turn of the interrupt loop did. */
  datatype Turn = Empty | Rearmed | Run(timer: Timer)

  /** The link to item i of the list, or the end. */
  ghost function LinkAt(list: seq<Timer>, i: nat): Link
    requires i <= |list|
  {
    if i < |list| then To(list[i]) else Null
  }

  /** The links run through the list in order, and exactly the timers in it are active. */
  ghost predicate Shape(head: Link, list: seq<Timer>, nexts: map<Timer, Link>) {
    && head == LinkAt(list, 0) && Distinct(list)
    && (forall i: nat :: i < |list| ==> list[i] in nexts && nexts[list[i]] == LinkAt(list, i + 1))
    && (forall t :: t in nexts ==> (nexts[t] != Inactive <==> t in list))
  }

  ghost function With(nexts: map<Timer, Link>, t: Timer, l: Link): map<Timer, Link> { nexts[t := l] }

  /** The links after the pointer prev, before item i, has been moved past it. */
  lemma UnlinkShape(head: Link, list: seq<Timer>, nexts: map<Timer, Link>, i: nat)
    requires Shape(head, list, nexts) && i < |list|
    ensures var t := list[i];
            if i == 0 then Shape(nexts[t], Without(list, i), With(nexts, t, Inactive))
            else Shape(head, Without(list, i), With(With(nexts, list[i - 1], nexts[t]), t, Inactive))
  {
    hide Distinct, LinkAt, Without;
    WithoutItem(list, i);
    var t, l := list[i], Without(list, i);
    var n := if i == 0 then With(nexts, t, Inactive) else With(With(nexts, list[i - 1], nexts[t]), t, Inactive);
    LinkWithout(list, i, 0);
    LinkActive(list, i + 1);
    forall k: nat | k < |l|
      ensures n[l[k]] == LinkAt(l, k + 1)
    {
      LinkWithout(list, i, k + 1);
      if k < i { DistinctAt(list, k, i); if k < i - 1 { DistinctAt(list, k, i - 1); } }
      else { DistinctAt(list, i, k + 1); if i > 0 { DistinctAt(list, i - 1, k + 1); } }
    }
  }

  lemma ShapeAt(head: Link, list: seq<Timer>, nexts: map<Timer, Link>, i: nat)
    requires Shape(head, list, nexts) && i < |list|
    ensures Distinct(list) && list[i] in nexts && nexts[list[i]] == LinkAt(list, i + 1)
    ensures i == 0 ==> head == To(list[i])
  {}

  lemma LinkActive(list: seq<Timer>, i: nat)
    requires i <= |list|
    ensures LinkAt(list, i) != Inactive
  {}

  lemma LinkWithout(list: seq<Timer>, i: nat, k: nat)
    requires i < |list| && k < |list|
    ensures |Without(list, i)| == |list| - 1
    ensures LinkAt(Without(list, i), k) == LinkAt(list, if k < i then k else k + 1)
  {}

  ghost predicate Distinct(list: seq<Timer>) { forall i, j :: 0 <= i < j < |list| ==> list[i] != list[j] }

  ghost function Without(l: seq<Timer>, i: nat): seq<Timer>
    requires i < |l|
  {
    l[..i] + l[i + 1..]
  }

  lemma DistinctAt(l: seq<Timer>, i: nat, j: nat)
    requires Distinct(l) && i < j < |l|
    ensures l[i] != l[j]
  {}

  lemma WithoutItem(l: seq<Timer>, i: nat)
    requires i < |l| && Distinct(l)
    ensures Distinct(Without(l, i)) && |Without(l, i)| == |l| - 1
    ensures forall k: nat {:trigger Without(l, i)[k]} :: k < |l| - 1 ==> Without(l, i)[k] == l[if k < i then k else k + 1]
    ensures forall u :: u in Without(l, i) <==> u in l && u != l[i]
  {
    forall u | u in l && u != l[i]
      ensures u in Without(l, i)
    {
      var k :| 0 <= k < |l| && l[k] == u;
      assert Without(l, i)[if k < i then k else k - 1] == u;
    }
  }

  ghost function EntriesOf(list: seq<Timer>): (r: seq<Entry<Timer>>)
    reads list
    ensures |r| == |list|
  {
    seq(|list|, i requires 0 <= i < |list| reads list => Entry(list[i], list[i].due))
  }

  /** Moving links does not change what is due. */
  twostate lemma SameEntries(list: seq<Timer>)
    requires forall t :: t in list ==> t.due == old(t.due)
    ensures EntriesOf(list) == old(EntriesOf(list))
  {}

  ghost function NextsOf(all: set<Timer>): map<Timer, Link>
    reads all`next
  {
    map t | t in all :: t.next
  }

  /** The list, and every timer there is. */
  class TimerQueue {
    var head: Link
    var regs: Registers
    ghost var list: seq<Timer>
    ghost var all: set<Timer>

    /** A timer is active exactly when it is in the list, where it is once; the links run through the list in order. */
    ghost predicate Valid()
      reads this, all, list
    {
      && Shape(head, list, NextsOf(all))
      && (forall t :: t in list ==> t in all && t.deadline == Wrap(t.due))
    }

    ghost function Entries(): seq<Entry<Timer>>
      reads this, list
    {
      EntriesOf(list)
    }

    constructor ()
      ensures Valid() && list == [] && all == {}
    {
      head, list, all := Null, [], {};
    }

    /** timer_init: an inactive timer joins. */
    method Init(t: Timer)
      requires Valid() && t !in list
      modifies this`all, t`next
      ensures Valid() && all == old(all) + {t} && list == old(list) && t.next == Inactive
    {
      t.next := Inactive;
      all := all + {t};
    }

    /** The link before item i: the head pointer itself, or the timer whose next field it is. */
    ghost predicate LinkBefore(prev: Link, i: nat)
      reads this
    {
      i <= |list| && prev == if i == 0 then Null else To(list[i - 1])
    }

    /** Walks to the link that points at t. */
    method Find(t: Timer) returns (prev: Link, ghost i: nat)
      requires Valid() && t in list
      ensures i < |list| && list[i] == t && LinkBefore(prev, i)
    {
      hide Wrap;
      prev, i := Null, 0;
      var cur := head;
      while cur != To(t)
        invariant i < |list| && t in list[i..] && cur == LinkAt(list, i) && LinkBefore(prev, i)
        decreases |list| - i
      {
        prev := cur;
        cur := cur.timer.next;
        i := i + 1;
      }
    }

    method Unlink(t: Timer, prev: Link, ghost i: nat)
      requires Valid() && i < |list| && list[i] == t && LinkBefore(prev, i)
      modifies this`head, this`list, all`next
      ensures Valid() && t.next == Inactive && list == Without(old(list), i)
    {
      hide Wrap;
      hide Shape, Without, LinkAt;
      ghost var was := NextsOf(all);
      UnlinkShape(head, list, was, i);
      ShapeAt(head, list, was, i);
      WithoutItem(list, i);
      if i > 0 { ShapeAt(head, list, was, i - 1); }
      if prev == Null { head := t.next; } else { prev.timer.next := t.next; }
      t.next := Inactive;
      list := Without(list, i);
      assert NextsOf(all) == if i == 0 then With(was, t, Inactive) else With(With(was, prev.timer, was[t]), t, Inactive);
    }

    /** _timer_cancel: unlinks t if it is active. */
    method Cancel(t: Timer)
      requires Valid() && t in all
      modifies this`head, this`list, all`next
      ensures Valid() && t !in list && t.next == Inactive && forall u :: u in list ==> u in old(list)
      ensures Entries() == Remove(old(Entries()), t)
    {
      hide Wrap, Remove, Shape, Without, LinkAt, EntriesOf;
      ActiveIs(head, list, NextsOf(all), t);
      if t.next == Inactive {
        RemoveAbsent(list, t);
        return;
      }
      ghost var l := list;
      var prev, i := Find(t);
      RemoveAt(l, t, i);
      WithoutItem(l, i);
      Unlink(t, prev, i);
      SameEntries(list);
    }

    /** reprogram_timer. */
    method Reprogram(delta: int)
      modifies this`regs
      ensures regs == Program(delta)
    {
      if delta < 0x1_0000 {
        regs := Registers(72 / 9 - 1, if delta <= SLACK then 1 else delta - SLACK);
      } else {
        var early := delta / (100 * 9) - 50;
        regs := Registers(100 * 72 - 1, if early < 0xffff then early else 0xffff);
      }
    }

    /** Walks to the first timer that is due no earlier, 32-bit differences from time deciding. */
    method FindSlot(time: int, delta: int) returns (prev: Link, cur: Link, ghost i: nat)
      requires Valid()
      ensures i <= |list| && LinkBefore(prev, i) && cur == LinkAt(list, i)
      ensures forall k :: 0 <= k < i ==> TimeDiff(time, list[k].deadline) < delta
      ensures i < |list| ==> delta <= TimeDiff(time, list[i].deadline)
    {
      hide TimeDiff, Wrap, Shape, LinkAt;
      prev, cur, i := Null, head, 0;
      HeadIs(head, list, NextsOf(all));
      LinkIs(list, 0);
      while cur != Null && TimeDiff(time, cur.timer.deadline) < delta
        invariant i <= |list| && cur == LinkAt(list, i) == (if i < |list| then To(list[i]) else Null) && LinkBefore(prev, i)
        invariant forall k :: 0 <= k < i ==> TimeDiff(time, list[k].deadline) < delta
        decreases |list| - i
      {
        ShapeAt(head, list, NextsOf(all), i);
        LinkIs(list, i + 1);
        prev := cur;
        cur := cur.timer.next;
        i := i + 1;
      }
    }

    method LinkIn(t: Timer, prev: Link, cur: Link, ghost i: nat)
      requires Valid() && t in all && t !in list && t.deadline == Wrap(t.due)
      requires i <= |list| && LinkBefore(prev, i) && cur == LinkAt(list, i)
      modifies this`head, this`list, all`next
      ensures Valid() && list == Joined(old(list), t, i)
    {
      hide Wrap, Shape, Joined, LinkAt;
      ghost var was := NextsOf(all);
      NotListed(head, list, was, t);
      LinkInShape(head, list, was, t, i);
      JoinedItem(list, t, i);
      if i > 0 { ShapeAt(head, list, was, i - 1); }
      t.next := cur;
      if prev == Null { head := To(t); } else { prev.timer.next := To(t); }
      ghost var n := With(was, t, LinkAt(list, i));
      list := Joined(list, t, i);
      assert NextsOf(all) == if i == 0 then n else With(n, prev.timer, To(t));
    }

    /** Links an inactive timer in where its deadline puts it. */
    method Place(t: Timer, time: int, delta: int, ghost now: int)
      requires Valid() && t in all && t !in list && t.deadline == Wrap(t.due)
      requires time == Wrap(now) && delta == t.due - now
      requires forall u :: u in list ==> Near(now, u.due)
      modifies this`head, this`list, all`next
      ensures Valid()
      ensures Entries() == Insert(old(Entries()), Entry(t, t.due))
    {
      hide Wrap, TimeDiff, Shape, LinkAt, Insert, Near;
      ghost var l := list;
      var prev, cur, i := FindSlot(time, delta);
      DiffsAreExact(l, now);
      InsertAt(l, t, i);
      LinkIn(t, prev, cur, i);
    }

    /** timer_set: t, active or not, ends up in the list exactly once and before everything due no earlier; when it
        is the first to be due, the alarm is programmed for it. now is the time and time its 32 bits. */
    method Set(t: Timer, deadline: int, time: int, ghost due: int, ghost now: int)
      requires Valid() && t in all
      requires deadline == Wrap(due) && time == Wrap(now)
      requires Near(now, due) && forall u :: u in list ==> Near(now, u.due)
      modifies this`head, this`list, this`regs, all`next, t`deadline, t`due
      ensures Valid() && all == old(all)
      ensures Entries() == Insert(Remove(old(Entries()), t), Entry(t, due))
      ensures regs == if Entries()[0] == Entry(t, due) then Program(due - now) else old(regs)
    {
      hide Wrap, TimeDiff, Shape, LinkAt, Insert, Remove, Program, Near;
      Cancel(t);
      ghost var l := Entries();
      t.deadline, t.due := deadline, due;
      assert Entries() == l;
      var delta := TimeDiff(time, t.deadline);
      TimeDiffExact(now, due);
      Place(t, time, delta, now);
      HeadIs(head, list, NextsOf(all));
      InsertSome(l, Entry(t, due));
      if head == To(t) { Reprogram(delta); }
    }

    /** One turn of the interrupt loop: nothing left to do, or the alarm programmed for a timer that is not yet due,
        or the first timer taken off the list, its callback to be run. */
    method Service(time: int, ghost now: int) returns (turn: Turn)
      requires Valid() && time == Wrap(now)
      requires forall u :: u in list ==> Near(now, u.due)
      modifies this`head, this`list, this`regs, all`next
      ensures Valid() && all == old(all)
      ensures turn.Empty? <==> old(Entries()) == []
      ensures turn.Rearmed? ==> old(Entries())[0].due - now > SLACK && regs == Program(old(Entries())[0].due - now)
      ensures turn.Run? ==> old(Entries())[0] == Entry(turn.timer, turn.timer.due) && turn.timer.due - now <= SLACK
      ensures Entries() == if turn.Run? then old(Entries())[1..] else old(Entries())
      ensures !turn.Rearmed? ==> regs == old(regs)
    {
      hide Wrap, TimeDiff, Shape, LinkAt, Program;
      HeadIs(head, list, NextsOf(all));
      if head == Null { return Empty; }
      var t := head.timer;
      var delta := TimeDiff(time, t.deadline);
      TimeDiffExact(now, t.due);
      if delta > SLACK {
        Reprogram(delta);
        return Rearmed;
      }
      ghost var l := list;
      Unlink(t, Null, 0);
      assert Without(l, 0) == l[1..];
      return Run(t);
    }
  }

  lemma ActiveIs(head: Link, list: seq<Timer>, nexts: map<Timer, Link>, t: Timer)
    requires Shape(head, list, nexts) && t in nexts
    ensures Distinct(list) && (nexts[t] != Inactive <==> t in list)
  {}

  lemma NotListed(head: Link, list: seq<Timer>, nexts: map<Timer, Link>, t: Timer)
    requires Shape(head, list, nexts) && t in nexts && t !in list
    ensures nexts[t] == Inactive && Distinct(list)
  {}

  lemma InsertSome(l: seq<Entry<Timer>>, e: Entry<Timer>)
    ensures Insert(l, e) != []
  {}

  lemma LinkIs(list: seq<Timer>, i: nat)
    requires i <= |list|
    ensures LinkAt(list, i) == if i < |list| then To(list[i]) else Null
  {}

  lemma HeadIs(head: Link, list: seq<Timer>, nexts: map<Timer, Link>)
    requires Shape(head, list, nexts)
    ensures head == if list == [] then Null else To(list[0])
  {}

  lemma DiffsAreExact(list: seq<Timer>, now: int)
    requires forall u :: u in list ==> Near(now, u.due) && u.deadline == Wrap(u.due)
    ensures forall k :: 0 <= k < |list| ==> TimeDiff(Wrap(now), list[k].deadline) == list[k].due - now
  {
    hide Wrap, TimeDiff;
    forall k | 0 <= k < |list|
      ensures TimeDiff(Wrap(now), list[k].deadline) == list[k].due - now
    {
      assert list[k] in list;
      TimeDiffExact(now, list[k].due);
    }
  }

  /** The links after t has been linked in before item i. */
  lemma LinkInShape(head: Link, list: seq<Timer>, nexts: map<Timer, Link>, t: Timer, i: nat)
    requires Shape(head, list, nexts) && i <= |list| && t in nexts && nexts[t] == Inactive
    ensures var n := With(nexts, t, LinkAt(list, i));
            if i == 0 then Shape(To(t), Joined(list, t, i), n)
            else Shape(head, Joined(list, t, i), With(n, list[i - 1], To(t)))
  {
    hide Distinct, LinkAt, Joined;
    JoinedItem(list, t, i);
    var l := Joined(list, t, i);
    var n := With(nexts, t, LinkAt(list, i));
    if i > 0 { n := With(n, list[i - 1], To(t)); }
    LinkJoined(list, t, i, 0);
    LinkActive(list, i);
    forall k: nat | k < |l|
      ensures l[k] in n && n[l[k]] == LinkAt(l, k + 1)
    {
      LinkJoined(list, t, i, k + 1);
      if k < i - 1 { DistinctAt(list, k, i - 1); }
      else if k > i && i > 0 { DistinctAt(list, i - 1, k - 1); }
    }
  }

  ghost function Joined(l: seq<Timer>, t: Timer, i: nat): seq<Timer>
    requires i <= |l|
  {
    l[..i] + [t] + l[i..]
  }

  lemma JoinedStep(l: seq<Timer>, t: Timer, i: nat)
    requires i <= |l|
    ensures Joined(l, t, i) == if i == 0 then [t] + l else [l[0]] + Joined(l[1..], t, i - 1)
  {}

  lemma EntriesCons(t: Timer, l: seq<Timer>)
    ensures EntriesOf([t] + l) == [Entry(t, t.due)] + EntriesOf(l)
  {}

  lemma JoinedItem(l: seq<Timer>, t: Timer, i: nat)
    requires i <= |l| && Distinct(l) && t !in l
    ensures Distinct(Joined(l, t, i)) && |Joined(l, t, i)| == |l| + 1
    ensures forall k: nat {:trigger Joined(l, t, i)[k]} :: k < |l| + 1 ==>
      Joined(l, t, i)[k] == if k < i then l[k] else if k == i then t else l[k - 1]
    ensures forall u :: u in Joined(l, t, i) <==> u == t || u in l
  {
    assert l == l[..i] + l[i..];
  }

  lemma LinkJoined(l: seq<Timer>, t: Timer, i: nat, k: nat)
    requires i <= |l| && k <= |l| + 1
    ensures |Joined(l, t, i)| == |l| + 1
    ensures LinkAt(Joined(l, t, i), k) == if k < i then LinkAt(l, k) else if k == i then To(t) else LinkAt(l, k - 1)
  {}

  lemma {:induction false} InsertAt(l: seq<Timer>, t: Timer, i: nat)
    requires i <= |l|
    requires forall k :: 0 <= k < i ==> l[k].due < t.due
    requires i < |l| ==> t.due <= l[i].due
    ensures Insert(EntriesOf(l), Entry(t, t.due)) == EntriesOf(Joined(l, t, i))
  {
    hide EntriesOf, Joined;
    JoinedStep(l, t, i);
    if i > 0 {
      EntriesCons(l[0], l[1..]);
      assert l == [l[0]] + l[1..];
      InsertAt(l[1..], t, i - 1);
      EntriesCons(l[0], Joined(l[1..], t, i - 1));
    } else {
      EntriesCons(t, l);
      if l != [] { EntriesCons(l[0], l[1..]); assert l == [l[0]] + l[1..]; }
    }
  }

  lemma {:induction false} RemoveAbsent(list: seq<Timer>, t: Timer)
    requires t !in list
    ensures Remove(EntriesOf(list), t) == EntriesOf(list)
  {
    if list != [] {
      assert EntriesOf(list)[1..] == EntriesOf(list[1..]);
      RemoveAbsent(list[1..], t);
    }
  }

  lemma {:induction false} RemoveAt(list: seq<Timer>, t: Timer, i: nat)
    requires i < |list| && list[i] == t && Distinct(list)
    ensures Remove(EntriesOf(list), t) == EntriesOf(Without(list, i))
  {
    assert EntriesOf(list)[1..] == EntriesOf(list[1..]);
    if i > 0 {
      assert list[0] != list[i];
      RemoveAt(list[1..], t, i - 1);
      assert list[..i] + list[i + 1..] == [list[0]] + (list[1..][..i - 1] + list[1..][i..]);
      assert EntriesOf([list[0]] + (list[1..][..i - 1] + list[1..][i..]))
          == [Entry(list[0], list[0].due)] + EntriesOf(list[1..][..i - 1] + list[1..][i..]);
    }
  }
}
