/** Cell streams put together from pieces of others, and the sync marks they hold. */
module Splice {
  import opened Bits
  import opened Mfm
  import opened Stream
  import opened IbmLayout

  /** Cells lo up to hi of c are cells lo - d up to hi - d of t. */
  predicate Agree(c: seq<bool>, lo: nat, hi: nat, t: seq<bool>, d: nat) {
    && d <= lo <= hi <= |c| && hi - d <= |t|
    && c[lo..hi] == t[lo - d..hi - d]
  }

  lemma PartAgree(c: seq<bool>, lo: nat, hi: nat, t: seq<bool>, d: nat, i: nat, j: nat)
    requires Agree(c, lo, hi, t, d) && lo <= i <= j <= hi
    ensures c[i..j] == t[i - d..j - d] && Agree(c, i, j, t, d)
  {
    var u, v := c[i..j], t[i - d..j - d];
    forall k | 0 <= k < j - i
      ensures u[k] == v[k]
    {
      assert c[lo..hi][i - lo + k] == t[lo - d..hi - d][i - lo + k];
    }
  }

  lemma SyncAgrees(c: seq<bool>, lo: nat, hi: nat, t: seq<bool>, d: nat, o: nat)
    requires Agree(c, lo, hi, t, d) && lo <= o && o + 32 <= hi
    ensures SyncAt(c, o) <==> SyncAt(t, o - d)
  {
    hide Agree;
    PartAgree(c, lo, hi, t, d, o, o + 32);
    AgreeBounds(c, lo, hi, t, d);
  }

  lemma AgreeBounds(c: seq<bool>, lo: nat, hi: nat, t: seq<bool>, d: nat)
    requires Agree(c, lo, hi, t, d)
    ensures d <= lo <= hi <= |c| && hi - d <= |t|
  {}

  lemma TenAgrees(c: seq<bool>, lo: nat, hi: nat, t: seq<bool>, d: nat, o: nat)
    requires Agree(c, lo, hi, t, d) && lo <= o && o + 160 <= hi
    ensures o + 160 <= |c| && o - d + 160 <= |t| && TenBytes(c, o) == TenBytes(t, o - d)
  {
    hide Agree, Decode, PackBytes;
    PartAgree(c, lo, hi, t, d, o, o + 160);
    AgreeBounds(c, lo, hi, t, d);
  }

  lemma FieldAgrees(c: seq<bool>, lo: nat, hi: nat, t: seq<bool>, d: nat, o: nat, x: seq<bv8>)
    requires Agree(c, lo, hi, t, d) && lo <= o && o + 16 * (6 + |x|) <= hi && FieldAt(t, o - d, x)
    ensures FieldAt(c, o, x)
  {
    hide Agree, Decode, PackBytes, DamField;
    PartAgree(c, lo, hi, t, d, o, o + 16 * (6 + |x|));
    AgreeBounds(c, lo, hi, t, d);
  }

  /** A mark is one wherever its cells are. */
  lemma MarkAgrees(c: seq<bool>, hi: nat, t: seq<bool>, d: nat, at: nat, ten: seq<bv8>)
    requires MarkAt(t, at, ten) && Agree(c, d + at, hi, t, d) && d + at + 192 <= hi
    ensures MarkAt(c, d + at, ten)
  {
    hide Agree, SyncAt, TenBytes, IsIdam;
    AgreeBounds(c, d + at, hi, t, d);
    SyncAgrees(c, d + at, hi, t, d, d + at);
    SyncAgrees(c, d + at, hi, t, d, d + at + 16);
    TenAgrees(c, d + at, hi, t, d, d + at);
    TenAgrees(c, d + at, hi, t, d, d + at + 16);
    forall o: nat | d + at <= o < d + at + 160 && SyncAt(c, o)
      ensures o == d + at || o == d + at + 16
    {
      SyncAgrees(c, d + at, hi, t, d, o);
    }
  }

  function Moved(p: Placed, d: nat): Placed { Placed(p.id, p.s + d / 16, p.at + d, p.data) }

  /** Likewise a whole sector. */
  lemma SectorAgrees(c: seq<bool>, hi: nat, t: seq<bool>, d: nat, from: nat, p: Placed, from': nat)
    requires SectorAt(t, from, p) && d % 16 == 0
    requires Agree(c, d + 16 * (p.s + 12), hi, t, d) && d + p.at + 16 * (6 + |p.data|) <= hi
    requires from' + MAX_LATENCY <= d + 16 * (p.s + 12)
    requires forall o: nat :: from' <= o < d + 16 * (p.s + 12) ==> !SyncAt(c, o)
    ensures SectorAt(c, from', Moved(p, d))
  {
    hide Agree, SyncAt, MarkAt, FieldAt, IdamField, DamField;
    var a, b := 16 * (p.s + 12), p.at;
    BlockAhead(t, a + 160, b, DamField(p.data)[..10]);
    MarkAgrees(c, hi, t, d, a, IdamField(p.id));
    PartAgree(c, d + a, hi, t, d, d + b, hi);
    forall o: nat | d + a + 160 <= o < d + b
      ensures !SyncAt(c, o)
    {
      SyncAgrees(c, d + a, hi, t, d, o);
      BlockAlone(t, a + 160, b, DamField(p.data)[..10], o - d);
    }
    MarkAgrees(c, hi, t, d, b, DamField(p.data)[..10]);
    FieldAgrees(c, d + b, hi, t, d, d + b, p.data);
  }

  lemma BlockAlone(c: seq<bool>, from: nat, at: nat, ten: seq<bv8>, o: nat)
    requires NextBlock(c, from, at, ten) && from <= o < at
    ensures !SyncAt(c, o)
  {
    hide SyncAt, TenBytes, IsIdam;
  }

  // ----- one piece behind another

  /** The sectors of the second piece. */
  lemma {:induction false} HoldsBehind(x: seq<bool>, y: seq<bool>, from: nat, ps: seq<Placed>)
    requires Holds(y, from, ps) && |x| % 16 == 0
    ensures Holds(x + y, |x| + from, MovedAll(ps, |x|))
    decreases |ps|
  {
    hide SyncAt, SectorAt;
    var c := x + y;
    assert Agree(c, |x|, |c|, y, |x|);
    if ps == [] {
      forall o: nat | |x| + from <= o
        ensures !SyncAt(c, o)
      {
        if o + 32 <= |c| { SyncAgrees(c, |x|, |c|, y, |x|, o); } else { SyncFits(c, o); }
      }
    } else {
      SectorBehind(x, y, from, ps[0]);
      HoldsBehind(x, y, ps[0].at + 160, ps[1..]);
      assert MovedAll(ps, |x|)[1..] == MovedAll(ps[1..], |x|);
    }
  }

  lemma SyncFits(c: seq<bool>, o: nat)
    requires o + 32 > |c|
    ensures !SyncAt(c, o)
  {}

  lemma SectorBehind(x: seq<bool>, y: seq<bool>, from: nat, p: Placed)
    requires SectorAt(y, from, p) && |x| % 16 == 0
    ensures SectorAt(x + y, |x| + from, Moved(p, |x|))
  {
    hide SyncAt, NextBlock, FieldAt, Agree, IdamField, DamField, Moved;
    var c, a := x + y, 16 * (p.s + 12);
    Behind(x, y);
    SectorEnds(y, from, p);
    PartAgree(c, |x|, |c|, y, |x|, |x| + a, |c|);
    forall o: nat | |x| + from <= o < |x| + a
      ensures !SyncAt(c, o)
    {
      SyncAgrees(c, |x|, |c|, y, |x|, o);
      BlockAlone(y, from, a, IdamField(p.id), o - |x|);
    }
    SectorAgrees(c, |c|, y, |x|, from, p, |x| + from);
  }

  lemma Behind(x: seq<bool>, y: seq<bool>)
    ensures Agree(x + y, |x|, |x + y|, y, |x|) && Agree(x + y, 0, |x|, x, 0)
  {}

  lemma SectorEnds(c: seq<bool>, from: nat, p: Placed)
    requires SectorAt(c, from, p)
    ensures from + MAX_LATENCY <= 16 * (p.s + 12) && 16 * (p.s + 22) + MAX_LATENCY <= p.at
    ensures |p.data| >= 128 && p.at + 16 * (6 + |p.data|) <= |c|
  {
    hide NextBlock, IdamField, DamField, BytesAt;
    BlockAhead(c, from, 16 * (p.s + 12), IdamField(p.id));
    BlockAhead(c, 16 * (p.s + 22), p.at, DamField(p.data)[..10]);
  }

  function MovedAll(ps: seq<Placed>, d: nat): (r: seq<Placed>)
    ensures |r| == |ps|
  {
    seq(|ps|, i requires 0 <= i < |ps| => Moved(ps[i], d))
  }

  /** The sectors of the first piece and then those of the second, when the seam makes no mark. */
  lemma {:induction false} HoldsBoth(x: seq<bool>, y: seq<bool>, from: nat, ps: seq<Placed>, qs: seq<Placed>)
    requires Holds(x, from, ps) && from <= |x| && Holds(x + y, |x|, qs)
    requires forall o: nat :: |x| - 32 < o < |x| ==> !SyncAt(x + y, o)
    ensures Holds(x + y, from, ps + qs)
    decreases |ps|
  {
    hide SyncAt, SectorAt, Agree;
    var c := x + y;
    Behind(x, y);
    if ps == [] {
      assert [] + qs == qs;
      forall o: nat | from <= o < |x|
        ensures !SyncAt(c, o)
      {
        if o + 32 <= |x| { SyncAgrees(c, 0, |x|, x, 0, o); }
      }
      Earlier(c, from, |x|, qs);
    } else {
      var p, a := ps[0], 16 * (ps[0].s + 12);
      SectorEnds(x, from, p);
      PartAgree(c, 0, |x|, x, 0, a, |x|);
      forall o: nat | from <= o < a
        ensures !SyncAt(c, o)
      {
        SyncAgrees(c, 0, |x|, x, 0, o);
        NoneBefore(x, from, p, o);
      }
      SectorAgrees(c, |x|, x, 0, from, p, from);
      assert Moved(p, 0) == p;
      HoldsBoth(x, y, p.at + 160, ps[1..], qs);
      assert (ps + qs)[1..] == ps[1..] + qs;
    }
  }

  lemma NoneBefore(c: seq<bool>, from: nat, p: Placed, o: nat)
    requires SectorAt(c, from, p) && from <= o < 16 * (p.s + 12)
    ensures !SyncAt(c, o)
  {
    hide SyncAt, NextBlock, FieldAt, IdamField, DamField;
    BlockAlone(c, from, 16 * (p.s + 12), IdamField(p.id), o);
  }

  lemma Earlier(c: seq<bool>, from: nat, later: nat, ps: seq<Placed>)
    requires Holds(c, later, ps) && from <= later && forall o: nat :: from <= o < later ==> !SyncAt(c, o)
    ensures Holds(c, from, ps)
  {
    hide SyncAt, FieldAt, TenBytes, IsIdam, IdamField, DamField;
  }

  // ----- seams

  predicate WordAt(c: seq<bool>, o: nat) {
    o + 16 <= |c| && c[o..o + 16] == SYNC_WORD
  }

  lemma PairIsWords(c: seq<bool>, o: nat)
    requires SyncAt(c, o)
    ensures WordAt(c, o) && WordAt(c, o + 16)
  {
    assert c[o..o + 16] == c[o..o + 32][..16];
    assert c[o + 16..o + 32] == c[o..o + 32][16..];
  }

  /** Words of one piece lie where the piece has its marks. */
  lemma WordAgrees(c: seq<bool>, lo: nat, hi: nat, t: seq<bool>, d: nat, marks: set<nat>, o: nat)
    requires Agree(c, lo, hi, t, d) && lo <= o && o + 16 <= hi && Lawful(t, marks) && WordAt(c, o)
    ensures (o - d) / 16 in marks
  {
    hide Agree, Lawful;
    PartAgree(c, lo, hi, t, d, o, o + 16);
    AgreeBounds(c, lo, hi, t, d);
    WordUnambiguous(t, marks, o - d);
  }

  /** No marked word holds any of the cells lo up to hi. */
  predicate Clear(marks: set<nat>, lo: int, hi: int) {
    forall m :: m in marks ==> 16 * m + 16 <= lo || hi <= 16 * m
  }

  /** No sync pattern straddles a seam between two lawful pieces whose marks keep a word's distance from it. */
  lemma NoneAcross(c: seq<bool>, lo: nat, seam: nat, hi: nat, t: seq<bool>, d: nat, marks: set<nat>,
                   t': seq<bool>, d': nat, marks': set<nat>, o: nat)
    requires Agree(c, lo, seam, t, d) && Agree(c, seam, hi, t', d') && Lawful(t, marks) && Lawful(t', marks')
    requires Clear(marks, seam - 31 - d, seam - 15 - d) && Clear(marks', seam - d', seam + 16 - d')
    requires lo <= o < seam < o + 32 <= hi
    ensures !SyncAt(c, o)
  {
    hide Agree, Lawful, WordAt, SyncAt;
    AgreeBounds(c, lo, seam, t, d);
    AgreeBounds(c, seam, hi, t', d');
    if SyncAt(c, o) {
      PairIsWords(c, o);
      if o + 16 <= seam {
        WordAgrees(c, lo, seam, t, d, marks, o);
      } else {
        WordAgrees(c, seam, hi, t', d', marks', o + 16);
      }
    }
  }
}
