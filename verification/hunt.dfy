/** What the sync hunt and the decoder recover from a lawful stream when they start at an arbitrary reversal. */
module Hunt {
  import opened Bits
  import opened Flux
  import opened Reader
  import opened Stream

  // ----- flux reversals by number

  /** Cells up to and including the n-th reversal. */
  function End(c: seq<bool>, n: nat): nat
    requires n <= |Gaps(c)|
  {
    Sum(Gaps(c)[..n])
  }

  lemma {:induction false} GapsPrefix(c: seq<bool>, x: nat)
    requires x <= |c|
    ensures Gaps(c[..x]) <= Gaps(c)
    decreases |c|
  {
    if x == |c| {
      assert c[..x] == c;
    } else {
      assert c[..|c| - 1][..x] == c[..x];
      GapsPrefix(c[..|c| - 1], x);
    }
  }

  /** Reversal number |Gaps(c[..x + 1])| is the one in cell x. */
  lemma ReversalAt(c: seq<bool>, x: nat)
    requires x < |c| && c[x]
    ensures var n := |Gaps(c[..x + 1])|;
            0 < n <= |Gaps(c)| && End(c, n) == x + 1
  {
    var d := c[..x + 1];
    GapsPrefix(c, x + 1);
    GapsCoverCells(d);
    assert Gaps(c)[..|Gaps(d)|] == Gaps(d);
  }

  /** The cells of the first n gaps. */
  lemma {:induction false} UnrollUpTo(c: seq<bool>, n: nat)
    requires n <= |Gaps(c)|
    ensures End(c, n) <= |c| && Unroll(Gaps(c)[..n]) == c[..End(c, n)]
    ensures n > 0 ==> End(c, n) > 0 && c[End(c, n) - 1]
    decreases |c|
  {
    if n == 0 {
    } else {
      var init := c[..|c| - 1];
      if n == |Gaps(c)| && c[|c| - 1] {
        assert Gaps(c)[..n] == Gaps(c);
        UnrollGaps(c);
        GapsCoverCells(c);
      } else {
        assert Gaps(c)[..n] == Gaps(init)[..n];
        UnrollUpTo(init, n);
        assert init[..End(c, n)] == c[..End(c, n)];
      }
    }
  }

  lemma {:induction false} SumConcat(a: seq<Gap>, b: seq<Gap>)
    ensures Sum(a + b) == Sum(a) + Sum(b)
    decreases |b|
  {
    if b == [] {
      assert a + b == a;
    } else {
      assert (a + b)[..|a + b| - 1] == a + b[..|b| - 1];
      SumConcat(a, b[..|b| - 1]);
    }
  }

  lemma EndMonotone(c: seq<bool>, m: nat, n: nat)
    requires m <= n <= |Gaps(c)|
    ensures End(c, m) <= End(c, n) && (m < n ==> End(c, m) < End(c, n))
  {
    var g := Gaps(c);
    assert g[..n] == g[..m] + g[m..n];
    SumConcat(g[..m], g[m..n]);
    if m < n {
      var d := g[m..n];
      assert Sum(d) == Sum(d[..|d| - 1]) + d[|d| - 1];
    }
  }

  /** The cells between two reversals. */
  lemma UnrollBetween(c: seq<bool>, m: nat, n: nat)
    requires m <= n <= |Gaps(c)|
    ensures End(c, m) <= End(c, n) <= |c|
    ensures Unroll(Gaps(c)[m..n]) == c[End(c, m)..End(c, n)]
  {
    var g := Gaps(c);
    EndMonotone(c, m, n);
    UnrollUpTo(c, m);
    UnrollUpTo(c, n);
    assert g[..n] == g[..m] + g[m..n];
    UnrollConcat(g[..m], g[m..n]);
    var u, v := Unroll(g[..m]), Unroll(g[m..n]);
    assert u + v == c[..End(c, n)];
    assert v == (u + v)[|u|..];
  }

  // ----- hearing a stream from its f-th reversal on

  /** The counts are the gaps of c from reversal f on, but for the first, which is measured from the
      moment the timer was started and can be anything. */
  predicate Heard(c: seq<bool>, f: nat, counts: seq<Gap>) {
    && f + |counts| <= |Gaps(c)|
    && forall i :: 1 <= i < |counts| ==> counts[i] == Gaps(c)[f + i]
  }

  /** The cell holding the first reversal heard. */
  function FirstCell(c: seq<bool>, f: nat): nat
    requires f < |Gaps(c)|
  {
    UnrollUpTo(c, f + 1);
    End(c, f + 1) - 1
  }

  /** Everything decoded is true to the stream from the first reversal on. */
  lemma HeardCells(c: seq<bool>, f: nat, counts: seq<Gap>, k: nat)
    requires Heard(c, f, counts) && 0 < k <= |counts|
    ensures FirstCell(c, f) < End(c, f + k) <= |c|
    ensures Unroll(counts[..k]) == Zeros(counts[0] as int - 1) + c[FirstCell(c, f)..End(c, f + k)]
  {
    hide Gaps, Unroll, End, Zeros;
    var g := Gaps(c);
    UnrollUpTo(c, f + 1);
    UnrollBetween(c, f + 1, f + k);
    assert counts[..k] == [counts[0]] + g[f + 1..f + k];
    UnrollConcat([counts[0]], g[f + 1..f + k]);
    UnrollOne(counts[0]);
    var q, e := FirstCell(c, f), End(c, f + k);
    assert c[q..e] == [true] + c[q + 1..e];
    Regroup(Zeros(counts[0] as int - 1), [true], c[q + 1..e]);
  }

  lemma UnrollOne(g: Gap)
    ensures Unroll([g]) == Zeros(g as int - 1) + [true]
  {
    UnrollSnoc([], g);
    assert [] + [g] == [g];
  }

  lemma Regroup(a: seq<bool>, b: seq<bool>, c: seq<bool>)
    ensures a + b + c == a + (b + c)
  {}

  lemma WindowPure(z: seq<bool>, s: seq<bool>)
    requires |s| >= 32 && |z| >= 32
    ensures Tail(z + s) == s[|s| - 32..]
  {}

  lemma OnesThenZeros(n: nat)
    ensures var z := Ones(32) + Zeros(n);
            forall i :: 0 <= i < |z| - 1 && !z[i] ==> !z[i + 1]
  {}

  /** A window that is not yet full of the stream but begins with an empty cell and a reversal, as both sync patterns
      do, has all but its first cell from it. */
  lemma LeadIn(n: nat, s: seq<bool>)
    requires |s| < 32
    requires var w := Tail(Ones(32) + Zeros(n) + s); !w[0] && w[1]
    ensures |s| == 31 && Tail(Ones(32) + Zeros(n) + s) == [false] + s
  {
    var z := Ones(32) + Zeros(n);
    var w, at := Tail(z + s), |z + s| - 32;
    assert w[0] == (z + s)[at] && w[1] == (z + s)[at + 1];
    OnesThenZeros(n);
    assert at + 1 == |z|;
    assert w == [false] + s;
  }

  lemma TailOf(c: seq<bool>, q: nat, e: nat)
    requires q + 32 <= e <= |c|
    ensures c[q..e][e - q - 32..] == c[e - 32..e]
  {
    var u, v := c[q..e][e - q - 32..], c[e - 32..e];
    forall k | 0 <= k < 32
      ensures u[k] == v[k]
    {
      assert u[k] == c[q..e][e - q - 32 + k];
    }
  }

  /** The window after k counts is the stream's own, or, if it begins as sync patterns do, all but its first cell is. */
  lemma HeardWindow(c: seq<bool>, f: nat, counts: seq<Gap>, k: nat)
    requires Heard(c, f, counts) && 0 < k <= |counts|
    ensures FirstCell(c, f) < End(c, f + k) <= |c|
    ensures var w, q, e := Tail(Ones(32) + Unroll(counts[..k])), FirstCell(c, f), End(c, f + k);
            && (q + 32 <= e ==> w == c[e - 32..e])
            && (q + 32 > e && !w[0] && w[1] ==> q + 31 == e && w == [false] + c[q..e])
  {
    hide Gaps, Unroll, End, Zeros, Ones, FirstCell, Tail;
    HeardCells(c, f, counts, k);
    var q, e, n := FirstCell(c, f), End(c, f + k), counts[0] as int - 1;
    var s := c[q..e];
    Regroup(Ones(32), Zeros(n), s);
    if |s| >= 32 {
      WindowPure(Ones(32) + Zeros(n), s);
      TailOf(c, q, e);
    } else {
      var w := Tail(Ones(32) + Zeros(n) + s);
      if !w[0] && w[1] { LeadIn(n, s); }
    }
  }

  /** When the hunt fires, its window is the sync pattern in the stream itself, whatever was heard before. */
  lemma FiresOnSync(c: seq<bool>, marks: set<nat>, f: nat, counts: seq<Gap>, k: nat)
    requires Lawful(c, marks) && Heard(c, f, counts) && 0 < k <= |counts|
    requires Fires(SyncMfm, Tail(Ones(32) + Unroll(counts[..k])))
    ensures 32 <= End(c, f + k) <= |c| && SyncAt(c, End(c, f + k) - 32)
    ensures FirstCell(c, f) <= End(c, f + k) - 32 + 1
  {
    hide Gaps, Unroll, End, Ones, Lawful, FirstCell, Tail, Fires, SyncAt;
    HeardWindow(c, f, counts, k);
    var w, q, e := Tail(Ones(32) + Unroll(counts[..k])), FirstCell(c, f), End(c, f + k);
    MfmWindow(w);
    if q + 32 <= e {
      SyncHere(c, e - 32);
    } else {
      AllButFirst(c[q..e]);
      FirstReversalEarly(c, marks, q, c[q..e]);
    }
  }

  lemma MfmWindow(w: Window)
    requires Fires(SyncMfm, w)
    ensures w == SYNC_PAIR && !w[0] && w[1]
  {
    PairFirst();
  }

  lemma SyncHere(c: seq<bool>, o: nat)
    requires o + 32 <= |c| && c[o..o + 32] == SYNC_PAIR
    ensures SyncAt(c, o)
  {}

  lemma AllButFirst(s: seq<bool>)
    requires [false] + s == SYNC_PAIR
    ensures s == SYNC_PAIR[1..]
  {
    assert s == ([false] + s)[1..];
  }

  lemma PairFirst()
    ensures !SYNC_PAIR[0] && SYNC_PAIR[1]
  {}

  lemma FirstReversalEarly(c: seq<bool>, marks: set<nat>, q: nat, s: seq<bool>)
    requires Lawful(c, marks) && q + 31 <= |c| && s == c[q..q + 31] && s == SYNC_PAIR[1..]
    ensures 1 <= q && SyncAt(c, q - 1)
  {
    assert s[0] && !s[1] && !s[2] && !s[3] && c[q] == s[0] && c[q + 1] == s[1] && c[q + 2] == s[2] && c[q + 3] == s[3];
    if q == 0 {
      MissingClock(c, marks, 2);
    } else {
      RunLengths(c, marks, q - 1);
      assert c[q - 1..q + 31] == [c[q - 1]] + s;
      assert SYNC_PAIR == [false] + SYNC_PAIR[1..];
    }
  }

  /** A sync pattern lying wholly after the first reversal heard is never missed. */
  lemma SyncFires(c: seq<bool>, f: nat, counts: seq<Gap>, k: nat)
    requires Heard(c, f, counts) && 0 < k <= |counts|
    requires 32 <= End(c, f + k) <= |c| && SyncAt(c, End(c, f + k) - 32)
    requires FirstCell(c, f) <= End(c, f + k) - 32
    ensures Fires(SyncMfm, Tail(Ones(32) + Unroll(counts[..k])))
  {
    hide Gaps, Unroll, End, Ones, FirstCell, Tail;
    HeardWindow(c, f, counts, k);
  }

  /** Offset o holds the first sync pattern that lies wholly in the cells from q on, or one that begins
      a cell before. */
  predicate FirstSync(c: seq<bool>, q: nat, o: nat) {
    && SyncAt(c, o) && q <= o + 1
    && forall o' :: q <= o' < o ==> !SyncAt(c, o')
  }

  /** The hunt stops exactly at the first sync pattern. */
  lemma StopsAtFirstSync(c: seq<bool>, marks: set<nat>, f: nat, counts: seq<Gap>, k: nat)
    requires Lawful(c, marks) && Heard(c, f, counts)
    requires StopsAt(SyncMfm, Ones(32), counts, k)
    ensures 32 <= End(c, f + k) <= |c| && FirstSync(c, FirstCell(c, f), End(c, f + k) - 32)
  {
    hide Fires, Unroll, Lawful;
    FiresOnSync(c, marks, f, counts, k);
    var q, o := FirstCell(c, f), End(c, f + k) - 32;
    forall o': nat | q <= o' < o
      ensures !SyncAt(c, o')
    {
      if SyncAt(c, o') {
        EarlierSyncFires(c, f, counts, k, o');
      }
    }
  }

  lemma FirstCellIs(c: seq<bool>, f: nat)
    requires f < |Gaps(c)|
    ensures FirstCell(c, f) == End(c, f + 1) - 1 && End(c, f + 1) <= |c|
  {
    UnrollUpTo(c, f + 1);
  }

  lemma EarlierSyncFires(c: seq<bool>, f: nat, counts: seq<Gap>, k: nat, o: nat)
    requires Heard(c, f, counts) && 0 < k <= |counts| && SyncAt(c, o)
    requires FirstCell(c, f) <= o && o + 32 < End(c, f + k)
    ensures exists j :: 0 < j < k && Fires(SyncMfm, Tail(Ones(32) + Unroll(counts[..j])))
  {
    hide Gaps, Unroll, Zeros, Ones, FirstCell, Tail, Fires;
    FirstCellIs(c, f);
    assert c[o + 31] == c[o..o + 32][31];
    ReversalAt(c, o + 31);
    var n := |Gaps(c[..o + 32])|;
    UnrollUpTo(c, f + 1);
    if n <= f { EndMonotone(c, n, f + 1); }
    if n >= f + k { EndMonotone(c, f + k, n); }
    SyncFires(c, f, counts, n - f);
  }
}
