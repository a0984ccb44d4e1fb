/** 32-bit longs as their bits, most significant first, with the C operators the Amiga format uses. */
module Longs {

  type Long = w: seq<bool> | |w| == 32 witness seq(32, k => false)

  function Zero(): Long { seq(32, k => false) }

  function And(a: Long, b: Long): Long { seq(32, j requires 0 <= j < 32 => a[j] && b[j]) }

  function Or(a: Long, b: Long): Long { seq(32, j requires 0 <= j < 32 => a[j] || b[j]) }

  function Xor(a: Long, b: Long): Long { seq(32, j requires 0 <= j < 32 => a[j] != b[j]) }

  function Not(a: Long): Long { seq(32, j requires 0 <= j < 32 => !a[j]) }

  function Shl(a: Long, n: nat): Long
    requires n <= 32
  {
    seq(32, j requires 0 <= j < 32 => j + n < 32 && a[j + n])
  }

  function Shr(a: Long, n: nat): Long
    requires n <= 32
  {
    seq(32, j requires 0 <= j < 32 => j >= n && a[j - n])
  }

  /** a & 0x55555555: the data bits. */
  function Data(a: Long): Long { seq(32, j requires 0 <= j < 32 => j % 2 == 1 && a[j]) }

  lemma OrAt(a: Long, b: Long, j: nat)
    requires j < 32
    ensures Or(a, b)[j] == (a[j] || b[j])
  {}

  lemma ShlAt(a: Long, j: nat)
    requires j < 32
    ensures Shl(a, 1)[j] == (j + 1 < 32 && a[j + 1])
  {}

  lemma DataAt(a: Long, j: nat)
    requires j < 32
    ensures Data(a)[j] == (j % 2 == 1 && a[j])
  {}

  /** Byte order reversed: htobe32 and be32toh. */
  function Rev(a: Long): Long { a[24..32] + a[16..24] + a[8..16] + a[0..8] }

  /** Where byte reversal takes bit j from. */
  function Swap(j: nat): (i: nat)
    requires j < 32
    ensures i < 32 && i % 2 == j % 2
    ensures j % 2 == 0 ==> i + 1 < 32
  {
    24 - 8 * (j / 8) + j % 8
  }

  lemma SwapNext(j: nat)
    requires j < 32 && j % 2 == 0
    ensures Swap(j + 1) == Swap(j) + 1
  {}

  lemma SwapSwap(j: nat)
    requires j < 32
    ensures Swap(Swap(j)) == j
  {}

  lemma RevAt(a: Long, j: nat)
    requires j < 32
    ensures Rev(a)[j] == a[Swap(j)]
  {}

  lemma RevRev(a: Long)
    ensures Rev(Rev(a)) == a
  {
    forall j: nat | j < 32
      ensures Rev(Rev(a))[j] == a[j]
    {
      RevAt(Rev(a), j);
      RevAt(a, Swap(j));
      SwapSwap(j);
    }
  }

  lemma DataRev(a: Long)
    ensures Data(Rev(a)) == Rev(Data(a))
  {
    hide Rev, Swap, Data;
    forall j: nat | j < 32
      ensures Data(Rev(a))[j] == Rev(Data(a))[j]
    {
      RevAt(a, j);
      RevAt(Data(a), j);
      DataAt(Rev(a), j);
      DataAt(a, Swap(j));
    }
  }

  // ----- checksums

  function XorAll(s: seq<Long>): Long
    decreases |s|
  {
    if s == [] then Zero() else Xor(XorAll(s[..|s| - 1]), s[|s| - 1])
  }

  lemma XorZero(a: Long)
    ensures Xor(a, Zero()) == a && Xor(Zero(), a) == a
  {}

  lemma XorAssociative(a: Long, b: Long, c: Long)
    ensures Xor(Xor(a, b), c) == Xor(a, Xor(b, c))
  {}

  lemma {:induction false} XorAllConcat(s: seq<Long>, t: seq<Long>)
    ensures XorAll(s + t) == Xor(XorAll(s), XorAll(t))
    decreases |t|
  {
    hide Xor;
    if t == [] {
      assert s + t == s;
      XorZero(XorAll(s));
    } else {
      var init := t[..|t| - 1];
      assert (s + t)[..|s + t| - 1] == s + init;
      XorAllConcat(s, init);
      XorAssociative(XorAll(s), XorAll(init), t[|t| - 1]);
    }
  }

  lemma XorSwap(a: Long, b: Long, c: Long)
    ensures Xor(Xor(a, b), c) == Xor(Xor(a, c), b)
  {}

  /** Changing one long changes the sum by what it was and what it has become. */
  lemma {:induction false} XorAllUpdate(s: seq<Long>, k: nat, x: Long)
    requires k < |s|
    ensures XorAll(s[k := x]) == Xor(Xor(XorAll(s), s[k]), x)
    decreases |s|
  {
    hide Xor;
    var n := |s| - 1;
    var init := s[..n];
    if k == n {
      assert s[k := x][..n] == init;
      XorTwice(XorAll(init), s[n]);
    } else {
      assert s[k := x][..n] == init[k := x];
      XorAllUpdate(init, k, x);
      XorSwap(Xor(XorAll(init), s[k]), x, s[n]);
      XorSwap(XorAll(init), s[k], s[n]);
    }
  }

  lemma XorTwice(a: Long, b: Long)
    ensures Xor(Xor(a, b), b) == a
  {}

  /** A sum keeps its data bits if and only if the long that was changed has kept its own. */
  lemma SumKept(a: Long, was: Long, now: Long)
    ensures Data(Xor(Xor(a, was), now)) == Data(a) <==> Data(was) == Data(now)
  {
    hide Xor, Data;
    DataXor(Xor(a, was), now);
    DataXor(a, was);
    XorKeeps(Data(a), Data(was), Data(now));
  }

  lemma XorKeeps(a: Long, b: Long, c: Long)
    ensures Xor(Xor(a, b), c) == a <==> b == c
  {
    var x := Xor(Xor(a, b), c);
    forall j: nat | j < 32
      ensures x[j] == a[j] <==> b[j] == c[j]
    {}
    if x == a { assert forall j: nat :: j < 32 ==> x[j] == a[j]; }
  }

  lemma DataXor(a: Long, b: Long)
    ensures Data(Xor(a, b)) == Xor(Data(a), Data(b))
  {}

  lemma ShrXor(a: Long, b: Long)
    ensures Shr(Xor(a, b), 1) == Xor(Shr(a, 1), Shr(b, 1))
  {}

  lemma ZeroFacts()
    ensures Data(Zero()) == Zero() && Shr(Zero(), 1) == Zero() && Rev(Zero()) == Zero()
  {}

  /** A checksum's data bits are the checksum of the data bits. */
  lemma {:induction false} XorAllData(s: seq<Long>, t: seq<Long>)
    requires |s| == |t| && forall i :: 0 <= i < |s| ==> Data(s[i]) == Data(t[i])
    ensures Data(XorAll(s)) == Data(XorAll(t))
    decreases |s|
  {
    hide Xor, Data;
    if s == [] {
    } else {
      var n := |s| - 1;
      XorAllData(s[..n], t[..n]);
      DataXor(XorAll(s[..n]), s[n]);
      DataXor(XorAll(t[..n]), t[n]);
    }
  }

  lemma {:induction false} XorAllShr(s: seq<Long>, t: seq<Long>)
    requires |s| == |t| && forall i :: 0 <= i < |s| ==> t[i] == Shr(s[i], 1)
    ensures XorAll(t) == Shr(XorAll(s), 1)
    decreases |s|
  {
    hide Xor, Shr;
    if s == [] {
      ZeroFacts();
    } else {
      var n := |s| - 1;
      XorAllShr(s[..n], t[..n]);
      ShrXor(XorAll(s[..n]), s[n]);
    }
  }

  lemma {:induction false} XorAllZeros(n: nat)
    ensures XorAll(seq(n, i => Zero())) == Zero()
    decreases n
  {
    hide Xor;
    if n == 0 {
    } else {
      assert seq(n, i => Zero())[..n - 1] == seq(n - 1, i => Zero());
      XorAllZeros(n - 1);
      XorZero(Zero());
    }
  }
}
