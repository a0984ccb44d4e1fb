/** Deadlines in 32 bits, the order of the timer list, and the one-shot alarm that serves it. */
module TimerSpec {
  import opened Arithmetic

  /** Times wrap at 32 bits. */
  const WRAP: int := U32

  /** A time as the 32 bits of it a time_t holds. */
  function Wrap(x: int): (r: int)
    ensures 0 <= r < WRAP
  {
    x % WRAP
  }

  /** time_diff: y - x in 32 bits, read as a signed number. */
  function TimeDiff(x: int, y: int): int {
    var d := (y - x) % WRAP;
    if d >= 0x8000_0000 then d - WRAP else d
  }

  /** Close enough for a signed 32-bit difference. */
  predicate Near(now: int, due: int) { -0x8000_0000 <= due - now < 0x8000_0000 }

  lemma WrapIs(x: int, k: int, r: int)
    requires x == WRAP * k + r && 0 <= r < WRAP
    ensures Wrap(x) == r
  {}

  lemma WrapParts(x: int) returns (k: int)
    ensures x == WRAP * k + Wrap(x)
  {
    k := x / WRAP;
  }

  /** Differences of 32-bit times are exact across any number of wraps. */
  lemma TimeDiffExact(now: int, due: int)
    requires Near(now, due)
    ensures TimeDiff(Wrap(now), Wrap(due)) == due - now
  {
    hide Wrap;
    var a := WrapParts(now);
    var b := WrapParts(due);
    var d := due - now;
    if d >= 0 { WrapIs(Wrap(due) - Wrap(now), a - b, d); }
    else { WrapIs(Wrap(due) - Wrap(now), a - b - 1, d + WRAP); }
    WrapOf(Wrap(due) - Wrap(now));
  }

  lemma WrapOf(x: int)
    ensures Wrap(x) == x % WRAP
  {}

  // ----- the list

  /** A timer in the list, with the time it is due as it would be without wrapping. */
  datatype Entry<T> = Entry(timer: T, due: int)

  /** The list without timer t. */
  function Remove<T(==)>(l: seq<Entry<T>>, t: T): seq<Entry<T>> {
    if l == [] then [] else if l[0].timer == t then l[1..] else [l[0]] + Remove(l[1..], t)
  }

  /** The list with e before everything due at the same time or later. */
  function Insert<T>(l: seq<Entry<T>>, e: Entry<T>): seq<Entry<T>> {
    if l == [] || e.due <= l[0].due then [e] + l else [l[0]] + Insert(l[1..], e)
  }

  ghost predicate Ordered<T>(l: seq<Entry<T>>) {
    forall i, j :: 0 <= i < j < |l| ==> l[i].due <= l[j].due
  }

  /** Each timer is in the list at most once. */
  ghost predicate Once<T>(l: seq<Entry<T>>) {
    forall i, j :: 0 <= i < j < |l| ==> l[i].timer != l[j].timer
  }

  /** x may stand before every entry of l. */
  ghost predicate Before<T>(x: Entry<T>, l: seq<Entry<T>>) {
    forall i :: 0 <= i < |l| ==> x.due <= l[i].due && x.timer != l[i].timer
  }

  lemma BeforeIn<T>(x: Entry<T>, l: seq<Entry<T>>, y: Entry<T>)
    requires Before(x, l) && y in l
    ensures x.due <= y.due && x.timer != y.timer
  {}

  /** A list starts with x and goes on with l. */
  lemma Prepend<T>(x: Entry<T>, l: seq<Entry<T>>)
    requires Ordered(l) && Once(l)
    requires Before(x, l)
    ensures Ordered([x] + l) && Once([x] + l)
  {
    forall i, j | 0 <= i < j < |[x] + l|
      ensures ([x] + l)[i].due <= ([x] + l)[j].due && ([x] + l)[i].timer != ([x] + l)[j].timer
    {
      assert ([x] + l)[j] == l[j - 1];
      if i > 0 { assert ([x] + l)[i] == l[i - 1]; }
    }
  }

  lemma Rest<T>(l: seq<Entry<T>>)
    requires Ordered(l) && Once(l) && l != []
    ensures Ordered(l[1..]) && Once(l[1..])
    ensures Before(l[0], l[1..])
  {
    forall i | 0 <= i < |l[1..]|
      ensures l[0].due <= l[1..][i].due && l[0].timer != l[1..][i].timer
    {
      assert l[1..][i] == l[i + 1];
    }
  }

  lemma {:induction false} RemoveIn<T>(l: seq<Entry<T>>, t: T, e: Entry<T>)
    requires Ordered(l) && Once(l)
    ensures e in Remove(l, t) <==> e in l && e.timer != t
  {
    hide Ordered, Once;
    if l != [] {
      Rest(l);
      assert l == [l[0]] + l[1..];
      if l[0].timer != t { RemoveIn(l[1..], t, e); }
    }
  }

  lemma {:induction false} RemoveKeeps<T>(l: seq<Entry<T>>, t: T)
    requires Ordered(l) && Once(l)
    ensures Ordered(Remove(l, t)) && Once(Remove(l, t))
  {
    hide Ordered, Once;
    if l != [] {
      Rest(l);
      if l[0].timer != t {
        RemoveKeeps(l[1..], t);
        var r := Remove(l[1..], t);
        forall i | 0 <= i < |r|
          ensures l[0].due <= r[i].due && l[0].timer != r[i].timer
        {
          RemoveIn(l[1..], t, r[i]);
          BeforeIn(l[0], l[1..], r[i]);
        }
        Prepend(l[0], r);
      }
    }
  }

  lemma {:induction false} InsertIn<T>(l: seq<Entry<T>>, e: Entry<T>, x: Entry<T>)
    ensures x in Insert(l, e) <==> x == e || x in l
  {
    if l != [] && e.due > l[0].due {
      InsertIn(l[1..], e, x);
      assert l == [l[0]] + l[1..];
    }
  }

  lemma {:induction false} InsertKeeps<T>(l: seq<Entry<T>>, e: Entry<T>)
    requires Ordered(l) && Once(l) && forall x :: x in l ==> x.timer != e.timer
    ensures Ordered(Insert(l, e)) && Once(Insert(l, e))
  {
    hide Ordered, Once;
    if l != [] {
      Rest(l);
      assert l[0] in l && l == [l[0]] + l[1..];
    }
    if l != [] && e.due > l[0].due {
      InsertKeeps(l[1..], e);
      var r := Insert(l[1..], e);
      forall i | 0 <= i < |r|
        ensures l[0].due <= r[i].due && l[0].timer != r[i].timer
      {
        InsertIn(l[1..], e, r[i]);
        if r[i] != e { BeforeIn(l[0], l[1..], r[i]); }
      }
      Prepend(l[0], r);
    } else {
      Prepend(e, l);
    }
  }

  /** The new timer stands behind all that are due earlier, and before all that are due when it is, or later. */
  lemma {:induction false} InsertPlace<T>(l: seq<Entry<T>>, e: Entry<T>) returns (k: nat)
    requires Ordered(l)
    ensures k <= |l| && Insert(l, e) == l[..k] + [e] + l[k..]
    ensures forall i :: 0 <= i < |l| ==> (l[i].due < e.due <==> i < k)
  {
    if l == [] || e.due <= l[0].due {
      k := 0;
    } else {
      k := InsertPlace(l[1..], e);
      k := k + 1;
      assert l == [l[0]] + l[1..];
      forall i | 0 < i < |l|
        ensures l[i].due < e.due <==> i < k
      {
        assert l[i] == l[1..][i - 1];
      }
    }
  }

  /** Nothing is lost or doubled. */
  lemma {:induction false} InsertMultiset<T>(l: seq<Entry<T>>, e: Entry<T>)
    ensures multiset(Insert(l, e)) == multiset(l) + multiset{e}
  {
    if l != [] && e.due > l[0].due {
      InsertMultiset(l[1..], e);
      assert l == [l[0]] + l[1..];
    }
  }

  // ----- the alarm

  /** Callbacks may run this many ticks early. */
  const SLACK: int := 12

  /** The two registers that set the one-shot counter: it overflows after (arr + 1) periods of psc + 1 system
      clocks each, eight of which make a tick. */
  datatype Registers = Registers(psc: int, arr: int)

  function Program(delta: int): Registers {
    if delta < 0x1_0000 then Registers(7, if delta <= SLACK then 1 else delta - SLACK)
    else Registers(7199, if delta / 900 - 50 < 0xffff then delta / 900 - 50 else 0xffff)
  }

  /** Ticks from the setting of the registers to the overflow. */
  function Ticks(r: Registers): int { (r.arr + 1) * (r.psc + 1) / 8 }

  function Period(delta: int): int { Ticks(Program(delta)) }

  /** The registers are in range, and the alarm never overshoots: a fine one leaves eleven ticks, unless fewer were
      left to start with; a coarse one leaves at least 44100, and less than 45000 unless the counter is at its limit. */
  lemma AlarmNeverOvershoots(delta: int)
    requires delta < 0x8000_0000
    ensures 0 <= Program(delta).psc < 0x1_0000 && 0 < Program(delta).arr < 0x1_0000
    ensures delta <= SLACK ==> Period(delta) == 2
    ensures SLACK < delta < 0x1_0000 ==> delta - Period(delta) == 11
    ensures 0x1_0000 <= delta ==> 0 < Period(delta) && 44100 <= delta - Period(delta)
    ensures 0x1_0000 <= delta && Program(delta).arr < 0xffff ==> delta - Period(delta) < 45000
    ensures Program(delta).arr == 0xffff && 0x1_0000 <= delta ==> Period(delta) == 65536 * 900
  {}
}
