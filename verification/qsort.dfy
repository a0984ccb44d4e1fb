/** The in-place quicksort of an array of references. */
module Quicksort {
  import opened Arithmetic

  /** A comparison the way qsort asks for it: negative, zero or positive, of a total preorder. */
  ghost predicate TotalPreorder<T(!new)>(cmp: (T, T) -> int) {
    && (forall x :: cmp(x, x) == 0)
    && (forall x, y :: cmp(x, y) < 0 <==> cmp(y, x) > 0)
    && (forall x, y, z :: cmp(x, y) <= 0 && cmp(y, z) <= 0 ==> cmp(x, z) <= 0)
  }

  ghost predicate Sorted<T>(s: seq<T>, cmp: (T, T) -> int, lo: int, hi: int)
    requires 0 <= lo && hi <= |s|
  {
    forall x, y :: lo <= x < y < hi ==> cmp(s[x], s[y]) <= 0
  }

  /** s is t with the items from lo to hi rearranged. */
  ghost predicate Perm<T>(s: seq<T>, t: seq<T>, lo: int, hi: int) {
    && 0 <= lo <= hi <= |s| == |t|
    && s[..lo] == t[..lo] && s[hi..] == t[hi..]
    && multiset(s[lo..hi]) == multiset(t[lo..hi])
  }

  /** s with two items exchanged. */
  function Swapped<T>(s: seq<T>, i: int, j: int): seq<T>
    requires 0 <= i < |s| && 0 <= j < |s|
  {
    s[i := s[j]][j := s[i]]
  }

  lemma PermSwap<T>(s: seq<T>, i: int, j: int, lo: int, hi: int)
    requires 0 <= lo <= i < hi <= |s| && lo <= j < hi
    ensures Perm(Swapped(s, i, j), s, lo, hi)
  {
    var u, v := s[lo..hi], Swapped(s, i, j)[lo..hi];
    assert v == u[i - lo := u[j - lo]][j - lo := u[i - lo]];
  }

  lemma PermTrans<T>(s: seq<T>, t: seq<T>, u: seq<T>, lo: int, hi: int)
    requires Perm(s, t, lo, hi) && Perm(t, u, lo, hi)
    ensures Perm(s, u, lo, hi)
  {}

  lemma PermWiden<T>(s: seq<T>, t: seq<T>, lo: int, hi: int, l: int, h: int)
    requires Perm(s, t, lo, hi) && 0 <= l <= lo && hi <= h <= |s|
    ensures Perm(s, t, l, h)
  {
    assert s[..l] == s[..lo][..l] && t[..l] == t[..lo][..l];
    assert s[h..] == s[hi..][h - hi..] && t[h..] == t[hi..][h - hi..];
    assert s[l..lo] == s[..lo][l..] && t[l..lo] == t[..lo][l..];
    assert s[hi..h] == s[hi..][..h - hi] && t[hi..h] == t[hi..][..h - hi];
    assert s[l..h] == s[l..lo] + s[lo..hi] + s[hi..h] && t[l..h] == t[l..lo] + t[lo..hi] + t[hi..h];
  }

  lemma PermOutside<T>(s: seq<T>, t: seq<T>, lo: int, hi: int, k: int)
    requires Perm(s, t, lo, hi) && 0 <= k < |s| && !(lo <= k < hi)
    ensures s[k] == t[k]
  {
    if k < lo { assert s[..lo][k] == t[..lo][k]; } else { assert s[hi..][k - hi] == t[hi..][k - hi]; }
  }

  /** Every item of a rearranged part comes from that part. */
  lemma PermFrom<T>(s: seq<T>, t: seq<T>, lo: int, hi: int, k: int) returns (m: int)
    requires Perm(s, t, lo, hi) && lo <= k < hi
    ensures lo <= m < hi && s[k] == t[m]
  {
    assert s[lo..hi][k - lo] in multiset(s[lo..hi]);
    var u := t[lo..hi];
    assert s[k] in u;
    var n :| 0 <= n < |u| && u[n] == s[k];
    m := lo + n;
  }

  lemma PermFromAny<T>(s: seq<T>, t: seq<T>, lo: int, hi: int, k: int) returns (m: int)
    requires Perm(s, t, lo, hi) && 0 <= k < |s|
    ensures 0 <= m < |t| && s[k] == t[m] && (if lo <= k < hi then lo <= m < hi else m == k)
  {
    if lo <= k < hi {
      m := PermFrom(s, t, lo, hi, k);
    } else {
      PermOutside(s, t, lo, hi, k);
      m := k;
    }
  }

  // ----- partitioning

  /** Everything before item i is less than it, everything after is not. */
  ghost predicate Split<T>(s: seq<T>, cmp: (T, T) -> int, lo: int, i: int, hi: int)
    requires 0 <= lo <= i <= hi < |s|
  {
    && (forall x :: lo <= x < i ==> cmp(s[x], s[i]) < 0)
    && (forall y :: i < y <= hi ==> cmp(s[y], s[i]) >= 0)
  }

  ghost predicate Low<T>(s: seq<T>, cmp: (T, T) -> int, pivot: T, lo: int, hi: int)
    requires 0 <= lo && hi <= |s|
  {
    forall k :: lo <= k < hi ==> cmp(s[k], pivot) < 0
  }

  ghost predicate High<T>(s: seq<T>, cmp: (T, T) -> int, pivot: T, lo: int, hi: int)
    requires 0 <= lo && hi <= |s|
  {
    forall k :: lo <= k < hi ==> cmp(s[k], pivot) >= 0
  }

  method Swap<T>(a: array<T>, i: int, j: int)
    requires 0 <= i < a.Length && 0 <= j < a.Length
    modifies a
    ensures a[..] == Swapped(old(a[..]), i, j)
  {
    a[i], a[j] := a[j], a[i];
  }

  /** Walks up from i to the next item that is not less than pivot, which item j, if no other, is. */
  method ScanUp<T>(a: array<T>, cmp: (T, T) -> int, pivot: T, l: int, i: int, ghost j: int) returns (k: int)
    requires 0 <= l && l - 1 <= i < j < a.Length && cmp(a[j], pivot) >= 0
    requires Low(a[..], cmp, pivot, l, i + 1)
    ensures i < k <= j && Low(a[..], cmp, pivot, l, k) && cmp(a[k], pivot) >= 0
  {
    k := i + 1;
    while cmp(a[k], pivot) < 0
      invariant i < k <= j && Low(a[..], cmp, pivot, l, k)
      decreases j - k
    {
      k := k + 1;
    }
  }

  /** Walks down from j to the next item less than pivot, or to i. */
  method ScanDown<T>(a: array<T>, cmp: (T, T) -> int, pivot: T, i: int, j: int, r: int) returns (k: int)
    requires 0 <= i <= j <= r < a.Length && 0 < j
    requires High(a[..], cmp, pivot, j, r + 1)
    ensures 0 <= k < j && i - 1 <= k && High(a[..], cmp, pivot, k + 1, r + 1)
    ensures i < k ==> cmp(a[k], pivot) < 0
    ensures i < j ==> i <= k
  {
    k := j - 1;
    while cmp(a[k], pivot) >= 0 && i < k
      invariant 0 <= k < j && i - 1 <= k && (i < j ==> i <= k) && High(a[..], cmp, pivot, k + 1, r + 1)
      decreases k - i
    {
      k := k - 1;
    }
  }

  /** Where the two scans stand: what is below i or, while they have not met, at i is low, and likewise high. */
  ghost predicate Scanned<T>(s: seq<T>, cmp: (T, T) -> int, pivot: T, l: int, i: int, j: int, r: int) {
    && 0 <= l < r < |s| && l - 1 <= i <= r && l <= j <= r && s[r] == pivot
    && (i == l - 1 ==> j == r)
    && Low(s, cmp, pivot, l, if i < j then i + 1 else i)
    && High(s, cmp, pivot, if i < j then j else i, r + 1)
  }

  /** One turn of the outer loop: both scans, and an exchange unless they have met. */
  method Turn<T>(a: array<T>, cmp: (T, T) -> int, pivot: T, l: int, i: int, j: int, r: int) returns (i': int, j': int)
    requires r < a.Length && Scanned(a[..], cmp, pivot, l, i, j, r) && i < j
    modifies a
    ensures Scanned(a[..], cmp, pivot, l, i', j', r) && i < i' && j' < j
    ensures Perm(a[..], old(a[..]), l, r + 1)
  {
    hide Perm, High, Low;
    HighAt(a[..], cmp, pivot, j, r);
    i' := ScanUp(a, cmp, pivot, l, i, j);
    j' := ScanDown(a, cmp, pivot, i', j, r);
    PermSame(a[..], l, r + 1);
    if i' < j' {
      PermSwap(a[..], i', j', l, r + 1);
      Exchanged(a[..], cmp, pivot, l, i', j', r);
      Swap(a, i', j');
    } else {
      HighFrom(a[..], cmp, pivot, i', j', r);
    }
  }

  lemma HighAt<T>(s: seq<T>, cmp: (T, T) -> int, pivot: T, j: int, r: int)
    requires 0 <= j <= r < |s| && High(s, cmp, pivot, j, r + 1)
    ensures cmp(s[j], pivot) >= 0
  {}

  lemma HighFrom<T>(s: seq<T>, cmp: (T, T) -> int, pivot: T, i: int, j: int, r: int)
    requires 0 <= j <= i <= r < |s| && High(s, cmp, pivot, j + 1, r + 1) && cmp(s[i], pivot) >= 0
    ensures High(s, cmp, pivot, i, r + 1)
  {}

  lemma Exchanged<T>(s: seq<T>, cmp: (T, T) -> int, pivot: T, l: int, i: int, j: int, r: int)
    requires 0 <= l <= i < j < r < |s| && Low(s, cmp, pivot, l, i) && High(s, cmp, pivot, j + 1, r + 1)
    requires cmp(s[i], pivot) >= 0 && cmp(s[j], pivot) < 0
    ensures Low(Swapped(s, i, j), cmp, pivot, l, i + 1) && High(Swapped(s, i, j), cmp, pivot, j, r + 1)
  {}

  lemma PermSame<T>(s: seq<T>, lo: int, hi: int)
    requires 0 <= lo <= hi <= |s|
    ensures Perm(s, s, lo, hi)
  {}

  lemma Reflexive<T(!new)>(cmp: (T, T) -> int, x: T)
    requires TotalPreorder(cmp)
    ensures cmp(x, x) == 0
  {}

  lemma ScanStart<T>(s: seq<T>, cmp: (T, T) -> int, l: int, r: int)
    requires 0 <= l < r < |s| && cmp(s[r], s[r]) == 0
    ensures Scanned(s, cmp, s[r], l, l - 1, r, r)
  {}

  /** Moves what is less than the middle item before it, and it to its place. No index leaves l to r. */
  method Partition<T(!new)>(a: array<T>, cmp: (T, T) -> int, l: int, r: int) returns (i: int)
    requires TotalPreorder(cmp) && 0 <= l < r < a.Length
    modifies a
    ensures l <= i <= r && Perm(a[..], old(a[..]), l, r + 1) && Split(a[..], cmp, l, i, r)
  {
    hide Perm, TotalPreorder, Scanned, Swapped, Split;
    ghost var was := a[..];
    i := l - 1;
    var j := r;
    var m := (l + r) / 2;
    PermSwap(a[..], m, r, l, r + 1);
    var pivot := a[m];
    Reflexive(cmp, pivot);
    SwappedAt(a[..], m, r);
    Swap(a, m, r);
    assert a[..][r] == pivot;
    ScanStart(a[..], cmp, l, r);
    while i < j
      invariant l - 1 <= i && j <= r && (i >= j ==> l <= i <= r)
      invariant Scanned(a[..], cmp, pivot, l, i, j, r) && Perm(a[..], was, l, r + 1)
      decreases j - i
    {
      ghost var s := a[..];
      i, j := Turn(a, cmp, pivot, l, i, j, r);
      PermTrans(a[..], s, was, l, r + 1);
      ScanBounds(a[..], cmp, pivot, l, i, j, r);
    }
    PermSwap(a[..], i, r, l, r + 1);
    PermTrans(Swapped(a[..], i, r), a[..], was, l, r + 1);
    PlacePivot(a[..], cmp, pivot, l, i, j, r);
    ghost var s := a[..];
    a[r] := a[i];
    a[i] := pivot;
    IsSwapped(a[..], s, i, r);
  }

  lemma SwappedAt<T>(s: seq<T>, i: int, j: int)
    requires 0 <= i < |s| && 0 <= j < |s|
    ensures |Swapped(s, i, j)| == |s| && Swapped(s, i, j)[j] == s[i]
  {}

  lemma IsSwapped<T>(s: seq<T>, t: seq<T>, i: int, j: int)
    requires 0 <= i < |s| == |t| && 0 <= j < |s| && s == t[j := t[i]][i := t[j]]
    ensures s == Swapped(t, i, j)
  {}

  lemma ScanBounds<T>(s: seq<T>, cmp: (T, T) -> int, pivot: T, l: int, i: int, j: int, r: int)
    requires Scanned(s, cmp, pivot, l, i, j, r)
    ensures l - 1 <= i <= r && l <= j <= r && (i >= j ==> l <= i) && s[r] == pivot
  {}

  lemma PlacePivot<T>(s: seq<T>, cmp: (T, T) -> int, pivot: T, l: int, i: int, j: int, r: int)
    requires Scanned(s, cmp, pivot, l, i, j, r) && i >= j
    ensures Split(Swapped(s, i, r), cmp, l, i, r) && s[r] == pivot
  {}

  // ----- sorting

  /** Every pair of items, one of them outside lo to hi, is in order. */
  ghost predicate Done<T>(s: seq<T>, cmp: (T, T) -> int, l: int, lo: int, hi: int, r: int)
    requires 0 <= l && r < |s|
  {
    forall x, y :: l <= x < y <= r && (x < lo || y > hi) ==> cmp(s[x], s[y]) <= 0
  }

  lemma DonePerm<T>(s: seq<T>, t: seq<T>, cmp: (T, T) -> int, l: int, lo: int, hi: int, r: int)
    requires Perm(s, t, lo, hi + 1) && 0 <= l <= lo && hi <= r < |s|
    requires Done(t, cmp, l, lo, hi, r)
    ensures Done(s, cmp, l, lo, hi, r)
  {
    hide Perm;
    assert |s| == |t| by { PermSize(s, t, lo, hi + 1); }
    forall x, y | l <= x < y <= r && (x < lo || y > hi)
      ensures cmp(s[x], s[y]) <= 0
    {
      var m := PermFromAny(s, t, lo, hi + 1, x);
      var n := PermFromAny(s, t, lo, hi + 1, y);
    }
  }

  lemma PermSize<T>(s: seq<T>, t: seq<T>, lo: int, hi: int)
    requires Perm(s, t, lo, hi)
    ensures |s| == |t|
  {}

  /** The items before the pivot may be rearranged. */
  lemma SplitPerm<T>(s: seq<T>, t: seq<T>, cmp: (T, T) -> int, lo: int, i: int, hi: int, from: int, to: int)
    requires 0 <= lo <= i <= hi < |t| && Split(t, cmp, lo, i, hi) && Perm(s, t, from, to)
    requires (from == lo && to == i) || (from == i + 1 && to == hi + 1)
    ensures |s| == |t| && Split(s, cmp, lo, i, hi)
  {
    hide Perm;
    PermSize(s, t, from, to);
    PermOutside(s, t, from, to, i);
    forall x | lo <= x < i
      ensures cmp(s[x], s[i]) < 0
    {
      var m := PermFromAny(s, t, from, to, x);
    }
    forall y | i < y <= hi
      ensures cmp(s[y], s[i]) >= 0
    {
      var m := PermFromAny(s, t, from, to, y);
    }
  }

  lemma Across<T(!new)>(cmp: (T, T) -> int, x: T, p: T, y: T)
    requires TotalPreorder(cmp) && cmp(x, p) <= 0 && cmp(y, p) >= 0
    ensures cmp(x, y) <= 0 && cmp(p, y) <= 0
  {
    assert cmp(p, y) <= 0 by {
      assert cmp(p, y) > 0 <==> cmp(y, p) < 0;
    }
  }

  /** Once the part on one side of the pivot is sorted, only the other side is left. */
  lemma DoneSide<T(!new)>(s: seq<T>, cmp: (T, T) -> int, l: int, lo: int, i: int, hi: int, r: int, left: bool)
    requires TotalPreorder(cmp) && 0 <= l <= lo <= i <= hi <= r < |s|
    requires Done(s, cmp, l, lo, hi, r) && Split(s, cmp, lo, i, hi)
    requires if left then Sorted(s, cmp, lo, i) else Sorted(s, cmp, i + 1, hi + 1)
    ensures if left then Done(s, cmp, l, i + 1, hi, r) else Done(s, cmp, l, lo, i - 1, r)
  {
    hide TotalPreorder;
    var lo', hi' := if left then i + 1 else lo, if left then hi else i - 1;
    forall x, y | l <= x < y <= r && (x < lo' || y > hi')
      ensures cmp(s[x], s[y]) <= 0
    {
      if lo <= x && y <= hi {
        if x < i < y || (x < i && y == i) || (x == i && i < y) {
          Reflexive(cmp, s[i]);
          Across(cmp, s[x], s[i], s[y]);
        }
      }
    }
  }

  /** The items from l to r are those of was, and only those from lo to hi are left to sort. */
  ghost predicate Progress<T>(s: seq<T>, was: seq<T>, cmp: (T, T) -> int, l: int, lo: int, hi: int, r: int) {
    0 <= l && r < |s| && Perm(s, was, l, r + 1) && Done(s, cmp, l, lo, hi, r)
  }

  /** Partitioning and then sorting one side is progress. */
  lemma SideDone<T(!new)>(s: seq<T>, t: seq<T>, u: seq<T>, was: seq<T>, cmp: (T, T) -> int,
                          l: int, lo: int, i: int, hi: int, r: int, left: bool)
    requires TotalPreorder(cmp) && 0 <= l <= lo <= i <= hi <= r < |t|
    requires Progress(u, was, cmp, l, lo, hi, r) && Perm(t, u, lo, hi + 1) && Split(t, cmp, lo, i, hi)
    requires var from, to := if left then lo else i + 1, if left then i else hi + 1;
             Perm(s, t, from, to) && |s| == |t| && Sorted(s, cmp, from, to)
    ensures if left then Progress(s, was, cmp, l, i + 1, hi, r) else Progress(s, was, cmp, l, lo, i - 1, r)
  {
    hide TotalPreorder, Perm, Split, Done, Sorted;
    var from, to := if left then lo else i + 1, if left then i else hi + 1;
    DonePerm(t, u, cmp, l, lo, hi, r);
    PermSize(t, u, lo, hi + 1);
    PermWiden(t, u, lo, hi + 1, l, r + 1);
    PermTrans(t, u, was, l, r + 1);
    SideSorted(s, t, cmp, l, lo, i, hi, r, left);
    PermWiden(s, t, from, to, l, r + 1);
    PermTrans(s, t, was, l, r + 1);
  }

  /** One more than the binary logarithm of n, and none for nothing. */
  ghost function Levels(n: nat): (d: nat)
    ensures n < Power(2, d) && (n > 0 ==> d > 0 && Power(2, d - 1) <= n)
  {
    if n == 0 then 0 else 1 + Levels(n / 2)
  }

  /** The smaller of two sides needs one level less. */
  lemma Deeper(levels: nat, m: nat, n: nat)
    requires 2 * m + 1 <= n && 2 <= n < Power(2, levels)
    ensures levels > 0 && m < Power(2, levels - 1)
  {}

  /** Sorts items l to r, calling itself for the smaller side only. The levels left go down by one with every call, so no
      more calls nest than Levels gives for the number of items. */
  method Sort<T(!new)>(a: array<T>, cmp: (T, T) -> int, l: int, r: int, ghost levels: nat)
    requires TotalPreorder(cmp) && 0 <= l && l - 1 <= r < a.Length && r - l + 1 < Power(2, levels)
    modifies a
    ensures Perm(a[..], old(a[..]), l, r + 1) && Sorted(a[..], cmp, l, r + 1)
    decreases levels
  {
    hide TotalPreorder, Perm, Split, Done, Sorted, Progress, Power;
    ghost var was := a[..];
    var lo, hi := l, r;
    Starting(was, cmp, l, r);
    while lo < hi
      invariant l <= lo && lo - 1 <= hi <= r
      invariant Progress(a[..], was, cmp, l, lo, hi, r)
      decreases hi - lo + 1
    {
      ghost var u := a[..];
      var i := Partition(a, cmp, lo, hi);
      ghost var t := a[..];
      if i - lo < hi - i {
        Deeper(levels, i - lo, hi - lo + 1);
        Sort(a, cmp, lo, i - 1, levels - 1);
        SideDone(a[..], t, u, was, cmp, l, lo, i, hi, r, true);
        lo := i + 1;
      } else {
        Deeper(levels, hi - i, hi - lo + 1);
        Sort(a, cmp, i + 1, hi, levels - 1);
        SideDone(a[..], t, u, was, cmp, l, lo, i, hi, r, false);
        hi := i - 1;
      }
    }
    Finished(a[..], was, cmp, l, lo, hi, r);
  }

  lemma Starting<T>(s: seq<T>, cmp: (T, T) -> int, l: int, r: int)
    requires 0 <= l && l - 1 <= r < |s|
    ensures Progress(s, s, cmp, l, l, r, r)
  {}

  lemma Finished<T>(s: seq<T>, was: seq<T>, cmp: (T, T) -> int, l: int, lo: int, hi: int, r: int)
    requires lo >= hi && Progress(s, was, cmp, l, lo, hi, r)
    ensures 0 <= l && r < |s| && Perm(s, was, l, r + 1) && Sorted(s, cmp, l, r + 1)
  {}

  lemma SideSorted<T(!new)>(s: seq<T>, t: seq<T>, cmp: (T, T) -> int, l: int, lo: int, i: int, hi: int, r: int, left: bool)
    requires TotalPreorder(cmp) && 0 <= l <= lo <= i <= hi <= r < |s| == |t|
    requires Done(t, cmp, l, lo, hi, r) && Split(t, cmp, lo, i, hi)
    requires if left then Perm(s, t, lo, i) && Sorted(s, cmp, lo, i)
             else Perm(s, t, i + 1, hi + 1) && Sorted(s, cmp, i + 1, hi + 1)
    ensures if left then Done(s, cmp, l, i + 1, hi, r) else Done(s, cmp, l, lo, i - 1, r)
  {
    hide TotalPreorder, Perm, Split, Done, Sorted;
    var from, to := if left then lo else i + 1, if left then i else hi + 1;
    SplitPerm(s, t, cmp, lo, i, hi, from, to);
    PermWiden(s, t, from, to, lo, hi + 1);
    DonePerm(s, t, cmp, l, lo, hi, r);
    DoneSide(s, cmp, l, lo, i, hi, r, left);
  }

  /** Sorts a whole array: the same items, in order. */
  method QSort<T(!new)>(a: array<T>, cmp: (T, T) -> int)
    requires TotalPreorder(cmp)
    modifies a
    ensures multiset(a[..]) == multiset(old(a[..])) && Sorted(a[..], cmp, 0, a.Length)
  {
    hide TotalPreorder, Sorted, Power;
    ghost var was := a[..];
    Sort(a, cmp, 0, a.Length - 1, Levels(a.Length));
    assert a[..] == a[..][0..a.Length] && was == was[0..a.Length];
  }
}
