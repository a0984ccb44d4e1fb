/** Laying out sector addresses on a track with skew and interleave. */
module Interleave {
  import opened Arithmetic

  /** A sector address: four bytes. */
  datatype Slot = Slot(c: nat, h: nat, r: nat, n: nat)

  /** An address not yet written: memory filled with 0xff. */
  function Blank(): Slot { Slot(0xff, 0xff, 0xff, 0xff) }

  /** The slots so far, and where the next sector is to go if that slot is free. */
  datatype Layout = Layout(slots: seq<Slot>, pos: nat)

  function Next(pos: nat, nr: nat): (r: nat)
    requires pos < nr
    ensures r < nr
  {
    (pos + 1) % nr
  }

  /** The first free slot from pos on, looking at no more than fuel of them. */
  function Probe(s: seq<Slot>, pos: nat, fuel: nat): (r: nat)
    requires pos < |s|
    ensures r < |s|
    decreases fuel
  {
    if fuel == 0 || s[pos].r == 0xff then pos else Probe(s, Next(pos, |s|), fuel - 1)
  }

  function Start(i0: Slot, nr: nat, cskew: nat, hskew: nat): (r: nat)
    requires nr > 0
    ensures r < nr
  {
    (i0.c * cskew + i0.h * hskew) % U32 % nr
  }

  /** Sector i of the track goes to slot p. */
  function Put(l: Layout, i0: Slot, i: nat, p: nat, interleave: nat): (r: Layout)
    requires p < |l.slots|
    ensures |r.slots| == |l.slots| && r.pos < |r.slots|
  {
    Layout(l.slots[p := i0.(r := (i + i0.r) % 256)], (p + interleave) % U32 % |l.slots|)
  }

  /** The layout once i sectors have been placed. */
  function Build(i0: Slot, nr: nat, start: nat, interleave: nat, i: nat): (l: Layout)
    requires start < nr
    ensures |l.slots| == nr && l.pos < nr
    decreases i
  {
    if i == 0 then Layout(seq(nr, k => Blank()), start)
    else
      var l := Build(i0, nr, start, interleave, i - 1);
      Put(l, i0, i - 1, Probe(l.slots, l.pos, nr), interleave)
  }

  /** The slots the first i sectors went to. */
  function Chosen(i0: Slot, nr: nat, start: nat, interleave: nat, i: nat): (r: seq<nat>)
    requires start < nr
    ensures |r| == i && forall j :: 0 <= j < i ==> r[j] < nr
    decreases i
  {
    if i == 0 then []
    else
      var l := Build(i0, nr, start, interleave, i - 1);
      Chosen(i0, nr, start, interleave, i - 1) + [Probe(l.slots, l.pos, nr)]
  }

  // ----- where a track starts

  function Skew(i0: Slot, cskew: nat, hskew: nat): nat { i0.c * cskew + i0.h * hskew }

  /** Without skew, or on the first track, the first sector is in slot zero; one more cylinder moves it on by the cylinder
      skew, one more head by the head skew, round the track, as long as 32 bits hold the sum. */
  lemma SkewIs(i0: Slot, nr: nat, cskew: nat, hskew: nat)
    requires nr > 0
    ensures Chosen(i0, nr, Start(i0, nr, cskew, hskew), 1, 1) == [Start(i0, nr, cskew, hskew)]
    ensures (cskew == 0 && hskew == 0) || (i0.c == 0 && i0.h == 0) ==> Start(i0, nr, cskew, hskew) == 0
    ensures Skew(i0, cskew, hskew) + cskew < U32 ==>
      Start(i0.(c := i0.c + 1), nr, cskew, hskew) == (Start(i0, nr, cskew, hskew) + cskew) % nr
    ensures Skew(i0, cskew, hskew) + hskew < U32 ==>
      Start(i0.(h := i0.h + 1), nr, cskew, hskew) == (Start(i0, nr, cskew, hskew) + hskew) % nr
  {
    hide Start, Skew;
    var sum := Skew(i0, cskew, hskew);
    StartIs(i0, nr, cskew, hskew);
    StartIs(i0.(c := i0.c + 1), nr, cskew, hskew);
    StartIs(i0.(h := i0.h + 1), nr, cskew, hskew);
    OneMore(i0, cskew, hskew);
    AddMod(sum, cskew, nr);
    AddMod(sum, hskew, nr);
    NoSkew(i0, nr, cskew, hskew);
  }

  lemma NoSkew(i0: Slot, nr: nat, cskew: nat, hskew: nat)
    requires nr > 0
    ensures (cskew == 0 && hskew == 0) || (i0.c == 0 && i0.h == 0) ==> Start(i0, nr, cskew, hskew) == 0
  {}

  lemma OneMore(i0: Slot, cskew: nat, hskew: nat)
    ensures Skew(i0.(c := i0.c + 1), cskew, hskew) == Skew(i0, cskew, hskew) + cskew
    ensures Skew(i0.(h := i0.h + 1), cskew, hskew) == Skew(i0, cskew, hskew) + hskew
  {
    OneMoreTimes(i0.c, cskew);
    OneMoreTimes(i0.h, hskew);
  }

  lemma StartIs(i0: Slot, nr: nat, cskew: nat, hskew: nat)
    requires nr > 0
    ensures Skew(i0, cskew, hskew) < U32 ==> Start(i0, nr, cskew, hskew) == Skew(i0, cskew, hskew) % nr
  {
    if Skew(i0, cskew, hskew) < U32 { SmallMod(Skew(i0, cskew, hskew), U32); }
  }

  lemma OneMoreTimes(a: nat, b: nat)
    ensures (a + 1) * b == a * b + b
  {}

  lemma AddMod(x: nat, y: nat, n: nat)
    requires n > 0
    ensures (x + y) % n == (x % n + y) % n
  {
    Division(x, n);
    ModAdd(x % n + y, n, x / n);
  }

  // ----- probing ends

  function Below(n: nat): (r: set<nat>)
    ensures |r| == n && forall k: nat :: k in r <==> k < n
  {
    if n == 0 then {} else Below(n - 1) + {n - 1}
  }

  function Items(s: seq<nat>): set<nat> { set x | x in s }

  ghost predicate Distinct(s: seq<nat>) { forall i, j :: 0 <= i < j < |s| ==> s[i] != s[j] }

  lemma {:induction false} ItemsSize(s: seq<nat>)
    ensures |Items(s)| <= |s|
    ensures Distinct(s) ==> |Items(s)| == |s|
    decreases |s|
  {
    if s != [] {
      var n := |s| - 1;
      ItemsSize(s[..n]);
      assert s == s[..n] + [s[n]];
      assert Items(s) == Items(s[..n]) + {s[n]};
      if Distinct(s) {
        assert s[n] !in Items(s[..n]);
      }
    }
  }

  lemma SubsetSize(a: set<nat>, b: set<nat>)
    requires a <= b
    ensures |a| <= |b|
    ensures |a| == |b| ==> a == b
  {
    assert b == a + (b - a);
    assert |b| == |a| + |b - a|;
  }

  /** Fewer than nr choices leave a slot over; nr different ones leave none. */
  lemma Pigeonhole(s: seq<nat>, nr: nat)
    requires forall j :: 0 <= j < |s| ==> s[j] < nr
    ensures |s| < nr ==> exists k: nat :: k < nr && k !in s
    ensures |s| == nr && !Distinct(s) ==> exists k: nat :: k < nr && k !in s
    ensures |s| == nr && Distinct(s) ==> forall k: nat :: k < nr ==> k in s
  {
    ItemsSize(s);
    SubsetSize(Items(s), Below(nr));
    if |s| == nr && Distinct(s) {
      forall k: nat | k < nr
        ensures k in s
      {
        assert k in Below(nr);
      }
    } else if |s| < nr || (|s| == nr && !Distinct(s)) {
      if !Distinct(s) { Repeated(s); }
      assert Items(s) != Below(nr);
      var k :| k in Below(nr) && k !in Items(s);
      assert k < nr && k !in s;
    }
  }

  lemma Repeated(s: seq<nat>)
    requires !Distinct(s)
    ensures |Items(s)| < |s|
  {
    var i, j :| 0 <= i < j < |s| && s[i] == s[j];
    var t := s[..j] + s[j + 1..];
    ItemsSize(t);
    forall x | x in s
      ensures x in t
    {
      var k :| 0 <= k < |s| && s[k] == x;
      if k == j { assert t[i] == x; } else if k < j { assert t[k] == x; } else { assert t[k - 1] == x; }
    }
    assert Items(s) == Items(t);
  }

  /** Steps from pos round to k. */
  function Distance(pos: nat, k: nat, nr: nat): (d: nat)
    requires pos < nr && k < nr
    ensures d < nr
  {
    if k >= pos then k - pos else k + nr - pos
  }

  lemma NextIs(pos: nat, nr: nat)
    requires pos < nr
    ensures Next(pos, nr) == if pos + 1 == nr then 0 else pos + 1
  {
    if pos + 1 < nr { SmallMod(pos + 1, nr); } else { DivIs(pos + 1, nr, 1, 0); }
  }

  lemma NextIsCloser(pos: nat, k: nat, nr: nat)
    requires pos < nr && k < nr && pos != k
    ensures Distance(Next(pos, nr), k, nr) == Distance(pos, k, nr) - 1
  {
    hide Next;
    NextIs(pos, nr);
  }

  lemma {:induction false} ProbeFinds(s: seq<Slot>, pos: nat, fuel: nat, k: nat)
    requires pos < |s| && k < |s| && s[k].r == 0xff && Distance(pos, k, |s|) <= fuel
    ensures s[Probe(s, pos, fuel)].r == 0xff
    decreases fuel
  {
    hide Distance, Next;
    if s[pos].r != 0xff {
      NextIsCloser(pos, k, |s|);
      ProbeFinds(s, Next(pos, |s|), fuel - 1, k);
    }
  }

  /** Only chosen slots are ever taken. */
  lemma {:induction false} TakenWereChosen(i0: Slot, nr: nat, start: nat, interleave: nat, i: nat, k: nat)
    requires start < nr && k < nr && k !in Chosen(i0, nr, start, interleave, i)
    ensures Build(i0, nr, start, interleave, i).slots[k] == Blank()
    decreases i
  {
    if i > 0 {
      TakenWereChosen(i0, nr, start, interleave, i - 1, k);
    }
  }

  /** So while a sector is left to place, the probe finds a free slot. */
  lemma ProbeIsFree(i0: Slot, nr: nat, start: nat, interleave: nat, i: nat) returns (k: nat)
    requires start < nr && i < nr
    ensures var l := Build(i0, nr, start, interleave, i);
            k < nr && l.slots[k].r == 0xff && l.slots[Probe(l.slots, l.pos, nr)].r == 0xff
  {
    hide Build, Chosen, Probe, Distance;
    var l := Build(i0, nr, start, interleave, i);
    Pigeonhole(Chosen(i0, nr, start, interleave, i), nr);
    k :| k < nr && k !in Chosen(i0, nr, start, interleave, i);
    TakenWereChosen(i0, nr, start, interleave, i, k);
    ProbeFinds(l.slots, l.pos, nr, k);
  }

  /** The probing loop: the next free slot. */
  method FindFree(idam: array<Slot>, start: nat, ghost free: nat) returns (pos: nat)
    requires start < idam.Length && free < idam.Length && idam[free].r == 0xff
    ensures pos == Probe(idam[..], start, idam.Length)
  {
    hide Probe, Distance, Next;
    pos := start;
    ghost var fuel := idam.Length;
    while idam[pos].r != 0xff
      invariant pos < idam.Length && Distance(pos, free, idam.Length) <= fuel
      invariant Probe(idam[..], pos, fuel) == Probe(idam[..], start, idam.Length)
      decreases fuel
    {
      NextIsCloser(pos, free, idam.Length);
      ProbeNext(idam[..], pos, fuel);
      pos := Next(pos, idam.Length);
      fuel := fuel - 1;
    }
    ProbeHere(idam[..], pos, fuel);
  }

  /** mk_ibm_idams: idam[0] is the model for the rest. Every probe ends. */
  method MkIdams(idam: array<Slot>, interleave: nat, cskew: nat, hskew: nat)
    requires 0 < idam.Length < U32
    modifies idam
    ensures idam[..] ==
      Build(old(idam[0]), idam.Length, Start(old(idam[0]), idam.Length, cskew, hskew), interleave, idam.Length).slots
  {
    hide Build, Chosen, Probe, Put, Blank;
    var nr := idam.Length;
    var i0 := idam[0];
    for k := 0 to nr
      invariant forall j :: 0 <= j < k ==> idam[j] == Blank()
    {
      idam[k] := Blank();
    }
    var pos: nat := (i0.c * cskew + i0.h * hskew) % U32 % nr;
    ghost var start := Start(i0, nr, cskew, hskew);
    BuildNone(idam[..], i0, nr, start, interleave);
    for i := 0 to nr
      invariant pos < nr && Layout(idam[..], pos) == Build(i0, nr, start, interleave, i)
    {
      ghost var l := Layout(idam[..], pos);
      BuildStep(i0, nr, start, interleave, i);
      ghost var free := ProbeIsFree(i0, nr, start, interleave, i);
      pos := FindFree(idam, pos, free);
      PutIs(l, i0, i, pos, interleave);
      idam[pos] := i0;
      idam[pos] := idam[pos].(r := (i + i0.r) % 256);
      pos := (pos + interleave) % U32 % nr;
    }
  }

  lemma BuildNone(s: seq<Slot>, i0: Slot, nr: nat, start: nat, interleave: nat)
    requires start < nr == |s| && forall j :: 0 <= j < nr ==> s[j] == Blank()
    ensures Build(i0, nr, start, interleave, 0) == Layout(s, start)
  {}

  lemma BuildStep(i0: Slot, nr: nat, start: nat, interleave: nat, i: nat)
    requires start < nr
    ensures var l := Build(i0, nr, start, interleave, i);
            Build(i0, nr, start, interleave, i + 1) == Put(l, i0, i, Probe(l.slots, l.pos, nr), interleave)
  {}

  lemma ProbeNext(s: seq<Slot>, pos: nat, fuel: nat)
    requires pos < |s| && s[pos].r != 0xff && fuel > 0
    ensures Probe(s, pos, fuel) == Probe(s, Next(pos, |s|), fuel - 1)
  {}

  lemma ProbeHere(s: seq<Slot>, pos: nat, fuel: nat)
    requires pos < |s| && s[pos].r == 0xff
    ensures Probe(s, pos, fuel) == pos
  {}

  lemma PutIs(l: Layout, i0: Slot, i: nat, p: nat, interleave: nat)
    requires p < |l.slots|
    ensures Put(l, i0, i, p, interleave)
         == Layout(l.slots[p := i0.(r := (i + i0.r) % 256)], (p + interleave) % U32 % |l.slots|)
  {}

  // ----- which slots are chosen

  lemma BuildZero(i0: Slot, nr: nat, start: nat, interleave: nat)
    requires start < nr
    ensures Chosen(i0, nr, start, interleave, 0) == [] && Build(i0, nr, start, interleave, 0).pos == start
  {}

  lemma ChosenStep(i0: Slot, nr: nat, start: nat, interleave: nat, i: nat)
    requires start < nr
    ensures var l := Build(i0, nr, start, interleave, i);
            Chosen(i0, nr, start, interleave, i + 1) == Chosen(i0, nr, start, interleave, i) + [Probe(l.slots, l.pos, nr)]
  {}

  lemma {:induction false} ChosenGrows(i0: Slot, nr: nat, start: nat, interleave: nat, i: nat, n: nat)
    requires start < nr && i <= n
    ensures Chosen(i0, nr, start, interleave, n)[..i] == Chosen(i0, nr, start, interleave, i)
    decreases n
  {
    hide Probe, Build;
    if i < n { ChosenGrows(i0, nr, start, interleave, i, n - 1); }
  }

  /** Sector j of the track, as it is written: its number cut to a byte. */
  function Sector(i0: Slot, j: nat): Slot { i0.(r := (j + i0.r) % 256) }

  /** Sector j is in slot c[j]. */
  ghost predicate Holds(i0: Slot, s: seq<Slot>, c: seq<nat>) {
    forall j: nat :: j < |c| ==> c[j] < |s| && s[c[j]] == Sector(i0, j)
  }

  lemma HoldsMore(i0: Slot, s: seq<Slot>, c: seq<nat>, p: nat)
    requires Holds(i0, s, c) && p < |s| && forall j :: 0 <= j < |c| ==> c[j] != p
    ensures Holds(i0, s[p := Sector(i0, |c|)], c + [p])
  {}

  lemma DistinctInit(c: seq<nat>, p: nat)
    ensures Distinct(c + [p]) ==> Distinct(c) && forall j :: 0 <= j < |c| ==> c[j] != p
    ensures Distinct(c) && (forall j :: 0 <= j < |c| ==> c[j] != p) ==> Distinct(c + [p])
  {
    var d := c + [p];
    if Distinct(d) {
      forall i, j | 0 <= i < j < |c|
        ensures c[i] != c[j]
      {
        assert d[i] != d[j];
      }
      forall j | 0 <= j < |c|
        ensures c[j] != p
      {
        assert d[j] != d[|c|];
      }
    }
  }

  /** As long as no slot is chosen twice, every sector stays where it was put. */
  lemma {:induction false} ChosenHold(i0: Slot, nr: nat, start: nat, interleave: nat, i: nat)
    requires start < nr && Distinct(Chosen(i0, nr, start, interleave, i))
    ensures Holds(i0, Build(i0, nr, start, interleave, i).slots, Chosen(i0, nr, start, interleave, i))
    decreases i
  {
    hide Build, Chosen, Probe, Holds, Distinct;
    if i == 0 {
      BuildZero(i0, nr, start, interleave);
      HoldsNone(i0, Build(i0, nr, start, interleave, 0).slots);
    } else {
      BuildStep(i0, nr, start, interleave, i - 1);
      ChosenStep(i0, nr, start, interleave, i - 1);
      var l, c := Build(i0, nr, start, interleave, i - 1), Chosen(i0, nr, start, interleave, i - 1);
      var p := Probe(l.slots, l.pos, nr);
      DistinctInit(c, p);
      ChosenHold(i0, nr, start, interleave, i - 1);
      HoldsMore(i0, l.slots, c, p);
    }
  }

  lemma HoldsNone(i0: Slot, s: seq<Slot>)
    ensures Holds(i0, s, [])
  {}

  // ----- every sector keeps a slot of its own

  /** Each sector is in a slot of its own. */
  ghost predicate EachKept(i0: Slot, s: seq<Slot>) {
    exists c: seq<nat> :: |c| == |s| && Distinct(c) && Holds(i0, s, c)
  }

  /** Then no slot is left over: each holds one of the sectors. */
  lemma KeptFill(i0: Slot, s: seq<Slot>, k: nat) returns (j: nat)
    requires EachKept(i0, s) && k < |s|
    ensures j < |s| && s[k] == Sector(i0, j)
  {
    var c: seq<nat> :| |c| == |s| && Distinct(c) && Holds(i0, s, c);
    j := SectorIn(i0, s, c, k);
  }

  lemma SectorIn(i0: Slot, s: seq<Slot>, c: seq<nat>, k: nat) returns (j: nat)
    requires |c| == |s| && Distinct(c) && Holds(i0, s, c) && k < |s|
    ensures j < |c| && c[j] == k && s[k] == Sector(i0, j)
  {
    hide Sector;
    HoldsBelow(i0, s, c);
    Pigeonhole(c, |s|);
    j := IndexIn(c, k);
    assert s[c[j]] == Sector(i0, j);
  }

  lemma HoldsBelow(i0: Slot, s: seq<Slot>, c: seq<nat>)
    requires Holds(i0, s, c)
    ensures forall j :: 0 <= j < |c| ==> c[j] < |s|
  {}

  lemma IndexIn(c: seq<nat>, k: nat) returns (j: nat)
    requires k in c
    ensures j < |c| && c[j] == k
  {
    j :| j < |c| && c[j] == k;
  }

  /** Choosing a slot twice leaves another blank. */
  lemma BlankLeft(i0: Slot, nr: nat, start: nat, interleave: nat)
    requires start < nr && !Distinct(Chosen(i0, nr, start, interleave, nr))
    ensures exists k: nat :: k < nr && Build(i0, nr, start, interleave, nr).slots[k] == Blank()
  {
    hide Build, Chosen, Blank, Distinct;
    var c := Chosen(i0, nr, start, interleave, nr);
    Pigeonhole(c, nr);
    var k: nat :| k < nr && k !in c;
    TakenWereChosen(i0, nr, start, interleave, nr, k);
  }

  /** Whether each sector keeps a slot is whether no slot is chosen twice; an address of four bytes 0xff alone could be
      mistaken for a blank slot. */
  lemma KeptIsDistinct(i0: Slot, nr: nat, start: nat, interleave: nat)
    requires start < nr && i0.(r := 0xff) != Blank()
    ensures EachKept(i0, Build(i0, nr, start, interleave, nr).slots) <==> Distinct(Chosen(i0, nr, start, interleave, nr))
  {
    hide Build, Chosen, Distinct, Holds, EachKept;
    var s := Build(i0, nr, start, interleave, nr).slots;
    if Distinct(Chosen(i0, nr, start, interleave, nr)) {
      ChosenHold(i0, nr, start, interleave, nr);
      KeptBy(i0, s, Chosen(i0, nr, start, interleave, nr));
    } else if EachKept(i0, s) {
      BlankLeft(i0, nr, start, interleave);
      var k: nat :| k < nr && s[k] == Blank();
      var j := KeptFill(i0, s, k);
      NotBlank(i0, j);
    }
  }

  lemma KeptBy(i0: Slot, s: seq<Slot>, c: seq<nat>)
    requires |c| == |s| && Distinct(c) && Holds(i0, s, c)
    ensures EachKept(i0, s)
  {}

  lemma NotBlank(i0: Slot, j: nat)
    requires i0.(r := 0xff) != Blank()
    ensures Sector(i0, j) != Blank()
  {}

  /** While all sectors before have numbers below 0xff, a slot that looks free is free. */
  lemma {:induction false} SmallNumbers(i0: Slot, nr: nat, start: nat, interleave: nat, i: nat)
    requires start < nr && i <= nr && i0.r + i <= 256
    ensures Distinct(Chosen(i0, nr, start, interleave, i))
    decreases i
  {
    hide Probe, Build, Chosen, Distinct;
    if i == 0 {
      BuildZero(i0, nr, start, interleave);
      DistinctNone();
    } else {
      SmallNumbers(i0, nr, start, interleave, i - 1);
      ChosenHold(i0, nr, start, interleave, i - 1);
      var free := ProbeIsFree(i0, nr, start, interleave, i - 1);
      ChosenStep(i0, nr, start, interleave, i - 1);
      var l, c := Build(i0, nr, start, interleave, i - 1), Chosen(i0, nr, start, interleave, i - 1);
      forall j: nat | j < i - 1
        ensures c[j] != Probe(l.slots, l.pos, nr)
      {
        SmallMod(j + i0.r, 256);
        assert l.slots[c[j]] == Sector(i0, j);
      }
      DistinctInit(c, Probe(l.slots, l.pos, nr));
    }
  }

  lemma DistinctNone()
    ensures Distinct([])
  {}

  /** Sector j under its full number. */
  function Numbered(i0: Slot, j: nat): Slot { i0.(r := i0.r + j) }

  /** Every slot holds one of the sectors, every sector is in a slot, and no two slots have the same number. */
  ghost predicate EachOnce(i0: Slot, s: seq<Slot>) {
    && (forall k: nat :: k < |s| ==> exists j: nat :: j < |s| && s[k] == Numbered(i0, j))
    && (forall j: nat :: j < |s| ==> Numbered(i0, j) in s)
    && (forall k: nat, m: nat :: k < m < |s| ==> s[k].r != s[m].r)
  }

  lemma WholeNumber(i0: Slot, j: nat)
    requires j + i0.r < 256
    ensures Sector(i0, j) == Numbered(i0, j)
  {
    SmallMod(j + i0.r, 256);
  }

  lemma KeptOnce(i0: Slot, s: seq<Slot>, c: seq<nat>)
    requires |c| == |s| && Distinct(c) && Holds(i0, s, c) && i0.r + |s| <= 256
    ensures EachOnce(i0, s)
  {
    hide Sector, Distinct, Holds;
    forall k: nat | k < |s|
      ensures exists j: nat :: j < |s| && s[k] == Numbered(i0, j)
    {
      var j := SectorIn(i0, s, c, k);
      WholeNumber(i0, j);
    }
    forall j: nat | j < |s|
      ensures Numbered(i0, j) in s
    {
      HeldBy(i0, s, c, j);
      WholeNumber(i0, j);
    }
    forall k: nat, m: nat | k < m < |s|
      ensures s[k].r != s[m].r
    {
      NumbersDiffer(i0, s, c, k, m);
    }
    assert forall j: nat :: j < |s| ==> Numbered(i0, j) in s;
  }

  lemma NumbersDiffer(i0: Slot, s: seq<Slot>, c: seq<nat>, k: nat, m: nat)
    requires |c| == |s| && Distinct(c) && Holds(i0, s, c) && i0.r + |s| <= 256 && k < m < |s|
    ensures s[k].r != s[m].r
  {
    hide Sector, Distinct, Holds;
    var i := SectorIn(i0, s, c, k);
    var j := SectorIn(i0, s, c, m);
    WholeNumber(i0, i);
    WholeNumber(i0, j);
  }

  lemma HeldBy(i0: Slot, s: seq<Slot>, c: seq<nat>, j: nat)
    requires Holds(i0, s, c) && j < |c|
    ensures Sector(i0, j) in s
  {
    assert s[c[j]] == Sector(i0, j);
  }

  /** Whatever the skew and the interleave, as long as the last sector number fits a byte, every sector keeps a slot of
      its own: each number from the first to the last is in exactly one slot. */
  lemma EverySectorOnce(i0: Slot, nr: nat, start: nat, interleave: nat)
    requires start < nr && i0.r + nr <= 256
    ensures EachKept(i0, Build(i0, nr, start, interleave, nr).slots)
    ensures EachOnce(i0, Build(i0, nr, start, interleave, nr).slots)
  {
    hide Build, Chosen, Distinct, Holds, EachKept, EachOnce;
    SmallNumbers(i0, nr, start, interleave, nr);
    ChosenHold(i0, nr, start, interleave, nr);
    var s, c := Build(i0, nr, start, interleave, nr).slots, Chosen(i0, nr, start, interleave, nr);
    KeptBy(i0, s, c);
    KeptOnce(i0, s, c);
  }

  // ----- going round: exactly when a slot is chosen twice

  /** Adding the interleave in 32 bits is adding it on the circle of slots. */
  predicate NoWrap(step: nat, nr: nat)
    requires nr > 0
  {
    step + nr <= U32 || U32 % nr == 0
  }

  lemma StepExact(p: nat, step: nat, nr: nat)
    requires p < nr && NoWrap(step, nr)
    ensures (p + step) % U32 % nr == (p + step) % nr
  {
    if step + nr <= U32 { SmallMod(p + step, U32); } else { ModMod(p + step, nr, U32); }
  }

  /** The slot of sector i when each goes where the interleave takes it, or one further when that has come round. */
  function SlotOf(nr: nat, start: nat, step: nat, i: nat): (r: nat)
    requires nr > 0
    ensures r < nr
  {
    TurnPositive(step, nr);
    (start + i / Turn(step, nr) + i * step) % nr
  }

  lemma TurnPositive(step: nat, nr: nat)
    requires nr > 0
    ensures Turn(step, nr) > 0
  {
    var m := TurnIs(step, nr);
  }

  /** A place before the first full turn of the last round. */
  lemma RoundBound(nr: nat, step: nat, i: nat)
    requires i < nr
    ensures Turn(step, nr) > 0 && i / Turn(step, nr) < Gcd(step, nr)
  {
    hide Gcd, Turn;
    var m := TurnIs(step, nr);
    var g, t := Gcd(step, nr), Turn(step, nr);
    Division(i, t);
    Commute(g, t);
    if i / t >= g {
      Spread(t, i / t, g);
      AtLeast(t, i / t - g);
    }
  }

  lemma AtLeast(t: nat, d: nat)
    ensures t * d >= 0
  {}

  /** Before the circle is full no slot comes up twice. */
  lemma SlotsDiffer(nr: nat, start: nat, step: nat, i: nat, j: nat)
    requires i < j < nr
    ensures SlotOf(nr, start, step, i) != SlotOf(nr, start, step, j)
  {
    hide Gcd, Turn, SlotOf, Travel, Product;
    var m := TurnIs(step, nr);
    var t := Turn(step, nr);
    RoundBound(nr, step, i);
    RoundBound(nr, step, j);
    QuotientGrows(i, j, t);
    forall q: int
      ensures Travel(step, t, i, j) != Product(nr, q)
    {
      Meeting(nr, step, Gcd(step, nr), t, m, i, j, q);
    }
    DifferIf(nr, start, step, i, j);
  }

  /** How much further round the circle sector j is than sector i. */
  function Travel(step: nat, t: nat, i: nat, j: nat): int
    requires t > 0
  {
    j / t - i / t + (j * step - i * step)
  }

  lemma DifferIf(nr: nat, start: nat, step: nat, i: nat, j: nat)
    requires nr > 0 && Turn(step, nr) > 0 && forall q: int :: Travel(step, Turn(step, nr), i, j) != Product(nr, q)
    ensures SlotOf(nr, start, step, i) != SlotOf(nr, start, step, j)
  {
    hide Turn, Product;
    var t := Turn(step, nr);
    Apart(start + i / t + i * step, start + j / t + j * step, nr);
  }

  function Product(n: int, q: int): int { n * q }

  /** Numbers whose difference is no multiple of n have different remainders. */
  lemma Apart(a: int, b: int, n: nat)
    requires n > 0
    ensures (forall q: int :: b - a != Product(n, q)) ==> a % n != b % n
  {
    if a % n == b % n {
      SameRemainder(a, b, n);
      assert b - a == Product(n, b / n - a / n);
    }
  }

  lemma QuotientGrows(i: nat, j: nat, t: nat)
    requires i <= j && t > 0
    ensures i / t <= j / t
  {
    Division(i, t);
    Division(j, t);
    Spread(t, j / t, i / t);
    Grows(t, j / t - i / t);
  }

  /** Two sectors in one slot would have to be in the same round, less than a turn apart. */
  lemma Meeting(nr: nat, step: nat, g: nat, t: nat, m: nat, i: nat, j: nat, q: int)
    requires nr > 0 && g == Gcd(step, nr) && t == Turn(step, nr) > 0 && nr == g * t && step == g * m && i < j
    requires 0 <= i / t <= j / t < g
    ensures Travel(step, t, i, j) != Product(nr, q)
  {
    hide Gcd, Turn;
    var d, k := j / t - i / t, j - i;
    Spread(step, j, i);
    Commute(step, k);
    Associate(g, t, q);
    Commute(k, g);
    Associate(g, k, m);
    Associate(k, g, m);
    Spread(g, t * q, k * m);
    assert j * step - i * step == k * step == g * (k * m);
    if d > 0 {
      Multiple(d, g, t * q - k * m);
    } else {
      Division(i, t);
      Division(j, t);
      NoEarlyReturn(nr, step, k, q);
    }
  }

  /** The slot the walk is at once sector i has been placed. */
  function After(nr: nat, start: nat, step: nat, i: nat): nat
    requires nr > 0
  {
    (SlotOf(nr, start, step, i) + step) % nr
  }

  lemma AfterIs(nr: nat, start: nat, step: nat, i: nat)
    requires nr > 0 && Turn(step, nr) > 0
    ensures After(nr, start, step, i) == (start + i / Turn(step, nr) + (i + 1) * step) % nr
  {
    hide Gcd, Turn;
    var a := start + i / Turn(step, nr) + i * step;
    Distribute(step, i, 1);
    Commute(step, i + 1);
    Commute(step, i);
    Division(a, nr);
    ModAdd(a % nr + step, nr, a / nr);
  }

  /** Within a round the walk goes on to the next sector's slot. At the end of one it has come back to the slot of the
      sector a turn before, next to that of the next sector. */
  lemma Walk(nr: nat, start: nat, step: nat, i: nat)
    requires nr > 0 && Turn(step, nr) > 0
    ensures var t := Turn(step, nr);
            if (i + 1) % t != 0 then After(nr, start, step, i) == SlotOf(nr, start, step, i + 1)
            else
              && i + 1 >= t
              && After(nr, start, step, i) == SlotOf(nr, start, step, i + 1 - t)
              && Next(After(nr, start, step, i), nr) == SlotOf(nr, start, step, i + 1)
  {
    hide Gcd, Turn;
    AfterIs(nr, start, step, i);
    var t := Turn(step, nr);
    var u, e := i / t, start + i / t + (i + 1) * step;
    Division(i, t);
    Division(i + 1, t);
    if (i + 1) % t != 0 {
      SameRound(i, t);
    } else {
      NextRound(i, t);
      var m := FullTurn(nr, step);
      var k := i + 1 - t;
      Spread(step, i + 1, t);
      Commute(step, k);
      Commute(step, i + 1);
      Commute(step, t);
      assert e == nr * m + (start + u + k * step);
      ModAdd(start + u + k * step, nr, m);
      Division(e, nr);
      ModAdd(e % nr + 1, nr, e / nr);
    }
  }

  lemma SameRound(i: nat, t: nat)
    requires t > 0 && (i + 1) % t != 0
    ensures (i + 1) / t == i / t
  {
    Division(i + 1, t);
    DivIs(i, t, (i + 1) / t, (i + 1) % t - 1);
  }

  lemma NextRound(i: nat, t: nat)
    requires t > 0 && (i + 1) % t == 0
    ensures i + 1 >= t && (i + 1) / t == i / t + 1 && (i + 1 - t) / t == i / t
  {
    Division(i + 1, t);
    var q := (i + 1) / t;
    Grows(t, q);
    Spread(t, q, 1);
    DivIs(i, t, q - 1, t - 1);
    DivIs(i + 1 - t, t, q - 1, 0);
  }

  /** Sector i is numbered 0xff and a later sector comes round to its slot. */
  predicate Clash(i0: Slot, nr: nat, step: nat, i: nat)
    requires nr > 0
  {
    TurnPositive(step, nr);
    i % Turn(step, nr) == 0 && i + Turn(step, nr) < nr && (i + i0.r) % 256 == 0xff
  }

  /** No such sector is met by the first n. */
  ghost predicate ClearTo(i0: Slot, nr: nat, step: nat, n: nat)
    requires nr > 0
  {
    forall i: nat :: Clash(i0, nr, step, i) ==> i + Turn(step, nr) >= n
  }

  /** The slots of the first n sectors. */
  ghost predicate OnCircle(c: seq<nat>, nr: nat, start: nat, step: nat)
    requires nr > 0
  {
    forall j: nat :: j < |c| ==> c[j] == SlotOf(nr, start, step, j)
  }

  lemma CircleDistinct(c: seq<nat>, nr: nat, start: nat, step: nat)
    requires nr > 0 && |c| <= nr && OnCircle(c, nr, start, step)
    ensures Distinct(c)
  {
    hide SlotOf;
    forall i, j | 0 <= i < j < |c|
      ensures c[i] != c[j]
    {
      SlotsDiffer(nr, start, step, i, j);
    }
  }

  lemma CircleMore(c: seq<nat>, nr: nat, start: nat, step: nat)
    requires nr > 0 && OnCircle(c, nr, start, step)
    ensures OnCircle(c + [SlotOf(nr, start, step, |c|)], nr, start, step)
  {
    hide SlotOf;
  }

  lemma CircleFresh(c: seq<nat>, nr: nat, start: nat, step: nat)
    requires nr > 0 && |c| < nr && OnCircle(c, nr, start, step)
    ensures SlotOf(nr, start, step, |c|) !in c
  {
    hide SlotOf;
    forall j: nat | j < |c|
      ensures c[j] != SlotOf(nr, start, step, |c|)
    {
      SlotsDiffer(nr, start, step, j, |c|);
    }
  }

  lemma Unclear(i0: Slot, nr: nat, step: nat, n: nat, i: nat)
    requires nr > 0 && ClearTo(i0, nr, step, n) && i + Turn(step, nr) < n
    ensures !Clash(i0, nr, step, i)
  {
    hide Clash;
  }

  lemma BlankIsFree()
    ensures Blank().r == 0xff
  {}

  lemma FirstSlot(nr: nat, start: nat, step: nat)
    requires start < nr
    ensures SlotOf(nr, start, step, 0) == start
  {
    SmallMod(start, nr);
    TurnPositive(step, nr);
    DivIs(0, Turn(step, nr), 0, 0);
  }

  /** The probe for the next sector, when all before are on the circle: it finds the next slot of the circle, unless it
      takes a slot already chosen for free. */
  lemma ProbeOnCircle(i0: Slot, nr: nat, start: nat, step: nat, n: nat)
    requires start < nr && 0 < n < nr && OnCircle(Chosen(i0, nr, start, step, n), nr, start, step)
    requires Build(i0, nr, start, step, n).pos == After(nr, start, step, n - 1)
    ensures var l, t := Build(i0, nr, start, step, n), Turn(step, nr);
            && t > 0
            && Probe(l.slots, l.pos, nr)
               == (if n >= t && Clash(i0, nr, step, n - t) then SlotOf(nr, start, step, n - t) else SlotOf(nr, start, step, n))
  {
    hide Build, Chosen, Probe, SlotOf, After, Turn, Gcd, Blank, Next, Distinct, Holds, OnCircle;
    var l, c, t := Build(i0, nr, start, step, n), Chosen(i0, nr, start, step, n), Turn(step, nr);
    TurnPositive(step, nr);
    Walk(nr, start, step, n - 1);
    CircleFresh(c, nr, start, step);
    TakenWereChosen(i0, nr, start, step, n, SlotOf(nr, start, step, n));
    BlankIsFree();
    if n % t != 0 {
      ProbeHere(l.slots, l.pos, nr);
      NoTurn(n, t);
    } else {
      CircleDistinct(c, nr, start, step);
      ChosenHold(i0, nr, start, step, n);
      HeldAt(i0, l.slots, c, nr, start, step, n - t);
      TurnBefore(n, t);
      if l.slots[l.pos].r == 0xff {
        ProbeHere(l.slots, l.pos, nr);
      } else {
        ProbeNext(l.slots, l.pos, nr);
        ProbeHere(l.slots, Next(l.pos, nr), nr - 1);
      }
    }
  }

  lemma HeldAt(i0: Slot, s: seq<Slot>, c: seq<nat>, nr: nat, start: nat, step: nat, j: nat)
    requires nr > 0 && Holds(i0, s, c) && OnCircle(c, nr, start, step) && j < |c| && |s| == nr
    ensures s[SlotOf(nr, start, step, j)].r == (j + i0.r) % 256
  {
    hide SlotOf;
    assert s[c[j]] == Sector(i0, j);
  }

  lemma NoTurn(n: nat, t: nat)
    requires t > 0 && n % t != 0
    ensures n >= t ==> (n - t) % t != 0
  {
    Division(n, t);
    if n >= t {
      Spread(t, n / t, 1);
      DivIs(n - t, t, n / t - 1, n % t);
    }
  }

  lemma TurnBefore(n: nat, t: nat)
    requires t > 0 && n >= t && n % t == 0
    ensures (n - t) % t == 0
  {
    Division(n, t);
    Spread(t, n / t, 1);
    DivIs(n - t, t, n / t - 1, 0);
  }

  /** While no 0xff sector is met, the sectors go round the circle. */
  lemma {:induction false} GoesRound(i0: Slot, nr: nat, start: nat, step: nat, n: nat)
    requires start < nr && n <= nr && NoWrap(step, nr) && ClearTo(i0, nr, step, n)
    ensures OnCircle(Chosen(i0, nr, start, step, n), nr, start, step)
    ensures n > 0 ==> Build(i0, nr, start, step, n).pos == After(nr, start, step, n - 1)
    decreases n
  {
    hide Build, Chosen, Probe, SlotOf, Turn, Gcd, Blank, Clash, NoWrap, OnCircle;
    BuildZero(i0, nr, start, step);
    if n == 0 {
      CircleNone(nr, start, step);
    } else {
      var k := n - 1;
      GoesRound(i0, nr, start, step, k);
      BuildStep(i0, nr, start, step, k);
      ChosenStep(i0, nr, start, step, k);
      var l := Build(i0, nr, start, step, k);
      TurnPositive(step, nr);
      if k == 0 {
        TakenWereChosen(i0, nr, start, step, 0, start);
        BlankIsFree();
        ProbeHere(l.slots, l.pos, nr);
        FirstSlot(nr, start, step);
      } else {
        ProbeOnCircle(i0, nr, start, step, k);
        if k >= Turn(step, nr) { Unclear(i0, nr, step, n, k - Turn(step, nr)); }
      }
      CircleMore(Chosen(i0, nr, start, step, k), nr, start, step);
      StepExact(SlotOf(nr, start, step, k), step, nr);
    }
  }

  lemma CircleNone(nr: nat, start: nat, step: nat)
    requires nr > 0
    ensures OnCircle([], nr, start, step)
  {}

  /** The first 0xff sector that is met loses its slot. */
  lemma FirstClash(i0: Slot, nr: nat, start: nat, step: nat, i: nat)
    requires start < nr && NoWrap(step, nr) && Clash(i0, nr, step, i) && ClearTo(i0, nr, step, i + Turn(step, nr))
    ensures !Distinct(Chosen(i0, nr, start, step, nr))
  {
    hide Build, Chosen, Probe, SlotOf, Turn, Gcd, NoWrap, ClearTo;
    TurnPositive(step, nr);
    var n := i + Turn(step, nr);
    GoesRound(i0, nr, start, step, n);
    ProbeOnCircle(i0, nr, start, step, n);
    ChosenStep(i0, nr, start, step, n);
    ChosenGrows(i0, nr, start, step, n + 1, nr);
    var c, d := Chosen(i0, nr, start, step, nr), Chosen(i0, nr, start, step, n);
    assert c[..n + 1] == d + [SlotOf(nr, start, step, i)];
    assert c[i] == c[..n + 1][i] == d[i] && c[n] == c[..n + 1][n];
  }

  lemma {:induction false} LeastClash(i0: Slot, nr: nat, step: nat, n: nat) returns (i: nat)
    requires nr > 0 && !ClearTo(i0, nr, step, n)
    ensures Clash(i0, nr, step, i) && ClearTo(i0, nr, step, i + Turn(step, nr))
    decreases n
  {
    hide Clash, Turn;
    var k: nat :| Clash(i0, nr, step, k) && k + Turn(step, nr) < n;
    if ClearTo(i0, nr, step, k + Turn(step, nr)) {
      i := k;
    } else {
      i := LeastClash(i0, nr, step, k + Turn(step, nr));
    }
  }

  /** Some sector numbered 0xff is met by a later one. */
  predicate Clashes(i0: Slot, nr: nat, step: nat)
    requires nr > 0
  {
    exists i: nat :: i < nr && Clash(i0, nr, step, i)
  }

  lemma ClearIsNoClash(i0: Slot, nr: nat, step: nat)
    requires nr > 0
    ensures ClearTo(i0, nr, step, nr) <==> !Clashes(i0, nr, step)
  {
    if i: nat :| Clash(i0, nr, step, i) {
      assert i + Turn(step, nr) < nr;
    }
  }

  /** Exactly when the sectors keep their slots: for every interleave, skew, count and first number, no slot is chosen
      twice if and only if no sector numbered 0xff starts a round that another follows. */
  lemma ReuseIsExact(i0: Slot, nr: nat, start: nat, step: nat)
    requires start < nr && NoWrap(step, nr)
    ensures Distinct(Chosen(i0, nr, start, step, nr)) <==> !Clashes(i0, nr, step)
    ensures i0.(r := 0xff) != Blank() ==>
      (EachKept(i0, Build(i0, nr, start, step, nr).slots) <==> !Clashes(i0, nr, step))
  {
    hide Build, Chosen, Clash, Clashes, ClearTo, Distinct, EachKept, NoWrap, Turn, OnCircle, Blank;
    ClearIsNoClash(i0, nr, step);
    if ClearTo(i0, nr, step, nr) {
      GoesRound(i0, nr, start, step, nr);
      CircleDistinct(Chosen(i0, nr, start, step, nr), nr, start, step);
    } else {
      var i := LeastClash(i0, nr, step, nr);
      FirstClash(i0, nr, start, step, i);
    }
    if i0.(r := 0xff) != Blank() { KeptIsDistinct(i0, nr, start, step); }
  }

  /** Nine sectors numbered from 252 with an interleave of three: the fourth is numbered 0xff, and the seventh takes its
      slot. */
  lemma ReusedSlot(c: nat, h: nat, n: nat)
    ensures var i0 := Slot(c, h, 252, n);
            Clash(i0, 9, 3, 3) && !Distinct(Chosen(i0, 9, 0, 3, 9))
  {
    hide Chosen, Distinct;
    var i0 := Slot(c, h, 252, n);
    assert Gcd(3, 9) == Gcd(9, 3) == Gcd(3, 0) == 3;
    assert Turn(3, 9) == 3;
    assert Clash(i0, 9, 3, 3);
    ReuseIsExact(i0, 9, 0, 3);
  }

  /** Where the 32-bit sum wraps, the slots no longer go round. Three sectors numbered from 254 with an interleave of
      2^32 - 1, a multiple of three: the second is numbered 0xff and the third would start a new round on its slot, but
      goes to the slot before it, which is free. */
  lemma WrapBreaksRounds(c: nat, h: nat, n: nat)
    ensures var i0, step := Slot(c, h, 254, n), U32 - 1;
            !NoWrap(step, 3) && Clash(i0, 3, step, 1) && Distinct(Chosen(i0, 3, 2, step, 3))
  {
    hide Distinct;
    var i0, step := Slot(c, h, 254, n), U32 - 1;
    assert Gcd(step, 3) == Gcd(3, 0) == 3;
    assert Turn(step, 3) == 1;
    var b, x, y := Blank(), i0.(r := 254), i0.(r := 255);
    assert Build(i0, 3, 2, step, 0) == Layout([b, b, b], 2);
    assert Build(i0, 3, 2, step, 1) == Layout([b, b, x], 1);
    assert Build(i0, 3, 2, step, 2) == Layout([b, y, x], 0);
    assert Chosen(i0, 3, 2, step, 1) == [2];
    assert Chosen(i0, 3, 2, step, 2) == [2, 1];
    assert Chosen(i0, 3, 2, step, 3) == [2, 1, 0];
    ThreeDistinct();
  }

  lemma ThreeDistinct()
    ensures Distinct([2, 1, 0])
  {}

  /** Three sectors with an interleave of 2^32 - 2, which is prime to three: from slot two the second sector goes to slot
      zero, so that slot one, a step further round, is left to the third. */
  lemma WrapBreaksSteps(c: nat, h: nat, n: nat)
    ensures var i0, step := Slot(c, h, 1, n), U32 - 2;
            !NoWrap(step, 3) && Gcd(step, 3) == 1
            && Build(i0, 3, 2, step, 3).slots[(2 + 1 * step) % 3] == i0.(r := 3) != i0.(r := (1 + i0.r) % 256)
  {
    var i0, step, b := Slot(c, h, 1, n), U32 - 2, Blank();
    PrimeToThree();
    assert Build(i0, 3, 2, step, 0) == Layout([b, b, b], 2);
    assert Build(i0, 3, 2, step, 1) == Layout([b, b, i0], 0);
    assert Build(i0, 3, 2, step, 2) == Layout([i0.(r := 2), b, i0], 2);
  }

  lemma PrimeToThree()
    ensures Gcd(U32 - 2, 3) == 1
  {
    assert Gcd(U32 - 2, 3) == Gcd(3, 2) == Gcd(2, 1) == Gcd(1, 0) == 1;
  }

  /** An interleave prime to the number of sectors needs no probing: sector number first + j goes to slot
      start + j * interleave, counted round, whatever the numbers are. */
  lemma CoprimeInterleave(i0: Slot, nr: nat, start: nat, step: nat, j: nat)
    requires start < nr && j < nr && Gcd(step, nr) == 1 && NoWrap(step, nr)
    ensures Build(i0, nr, start, step, nr).slots[(start + j * step) % nr] == i0.(r := (j + i0.r) % 256)
  {
    hide Build, Chosen, Clashes, NoWrap, Gcd, Turn, Distinct;
    var m := TurnIs(step, nr);
    assert Turn(step, nr) == nr;
    OneRound(i0, nr, step);
    ClearIsNoClash(i0, nr, step);
    GoesRound(i0, nr, start, step, nr);
    CircleDistinct(Chosen(i0, nr, start, step, nr), nr, start, step);
    ChosenHold(i0, nr, start, step, nr);
    DivIs(j, nr, 0, j);
    var c := Chosen(i0, nr, start, step, nr);
    assert c[j] == SlotOf(nr, start, step, j);
  }

  lemma OneRound(i0: Slot, nr: nat, step: nat)
    requires nr > 0 && Turn(step, nr) == nr
    ensures !Clashes(i0, nr, step)
  {}
}
