/** Copying memory, also onto itself. */
module Memory {

  /** Memory with the n bytes at src copied to dest. */
  function Copied<T>(m: seq<T>, dest: nat, src: nat, n: nat): (r: seq<T>)
    requires dest + n <= |m| && src + n <= |m|
    ensures |r| == |m|
  {
    m[..dest] + m[src..src + n] + m[dest + n..]
  }

  /** Forward copying may overwrite its own source only behind itself. */
  predicate ForwardSafe(dest: nat, src: nat, n: nat) { dest <= src || src + n <= dest }

  /** The bytes of m from dest + lo to dest + hi are those of was from src + lo to src + hi, all others their own. */
  ghost predicate Moved<T>(m: seq<T>, was: seq<T>, dest: nat, src: nat, lo: nat, hi: nat) {
    && |m| == |was| && dest + hi <= |was| && src + hi <= |was|
    && forall i {:trigger m[i]} :: 0 <= i < |m| ==>
         m[i] == if dest + lo <= i < dest + hi then was[src + i - dest] else was[i]
  }

  lemma MovedAll<T>(m: seq<T>, was: seq<T>, dest: nat, src: nat, n: nat)
    requires Moved(m, was, dest, src, 0, n)
    ensures m == Copied(was, dest, src, n)
  {}

  lemma MovedUp<T>(m: seq<T>, was: seq<T>, dest: nat, src: nat, n: nat, k: nat)
    requires Moved(m, was, dest, src, 0, k) && ForwardSafe(dest, src, n) && k < n
    requires dest + n <= |was| && src + n <= |was|
    ensures m[src + k] == was[src + k] && Moved(m[dest + k := was[src + k]], was, dest, src, 0, k + 1)
  {}

  lemma MovedDown<T>(m: seq<T>, was: seq<T>, dest: nat, src: nat, n: nat, k: nat)
    requires Moved(m, was, dest, src, k + 1, n) && src <= dest && k < n
    ensures m[src + k] == was[src + k] && Moved(m[dest + k := was[src + k]], was, dest, src, k, n)
  {}

  /** A block loaded in full from where nothing has been stored yet. */
  lemma BlockIs<T>(m: seq<T>, was: seq<T>, dest: nat, src: nat, n: nat, k: nat, len: nat)
    requires Moved(m, was, dest, src, 0, k) && ForwardSafe(dest, src, n) && k + len <= n
    requires dest + n <= |was| && src + n <= |was|
    ensures m[src + k..src + k + len] == was[src + k..src + k + len]
  {}

  /** Stores 32 registers' worth of bytes. */
  method StoreBlock<T>(mem: array<T>, block: seq<T>, ghost was: seq<T>, dest: nat, src: nat, k: nat)
    requires |block| == 32 && Moved(mem[..], was, dest, src, 0, k)
    requires dest + k + 32 <= |was| && src + k + 32 <= |was| && block == was[src + k..src + k + 32]
    modifies mem
    ensures Moved(mem[..], was, dest, src, 0, k + 32)
  {
    hide Moved;
    MovedSize(mem[..], was, dest, src, 0, k);
    for j := 0 to 32
      invariant Moved(mem[..], was, dest, src, 0, k + j)
    {
      ghost var m := mem[..];
      mem[dest + k + j] := block[j];
      MovedOne(m, was, dest, src, k + j);
      assert mem[..] == m[dest + (k + j) := was[src + (k + j)]];
    }
  }

  lemma MovedSize<T>(m: seq<T>, was: seq<T>, dest: nat, src: nat, lo: nat, hi: nat)
    requires Moved(m, was, dest, src, lo, hi)
    ensures |m| == |was|
  {}

  lemma MovedOne<T>(m: seq<T>, was: seq<T>, dest: nat, src: nat, k: nat)
    requires Moved(m, was, dest, src, 0, k) && dest + k < |was| && src + k < |was|
    ensures Moved(m[dest + k := was[src + k]], was, dest, src, 0, k + 1)
  {}

  /** memcpy_fast: whole blocks of 32 bytes, each loaded before it is stored. There is one at least, and the instructions
      that load and store them take only aligned addresses. */
  method MemcpyFast<T>(mem: array<T>, dest: nat, src: nat, n32: nat)
    requires 0 < n32 && n32 % 32 == 0 && dest % 4 == 0 && src % 4 == 0
    requires dest + n32 <= mem.Length && src + n32 <= mem.Length && ForwardSafe(dest, src, n32)
    modifies mem
    ensures Moved(mem[..], old(mem[..]), dest, src, 0, n32)
  {
    hide ForwardSafe;
    var k := 0;
    ghost var was := mem[..];
    while k < n32
      invariant 0 <= k <= n32 && k % 32 == 0 && Moved(mem[..], was, dest, src, 0, k)
    {
      BlockIs(mem[..], was, dest, src, n32, k, 32);
      var block := mem[src + k..src + k + 32];
      StoreBlock(mem, block, was, dest, src, k);
      k := k + 32;
    }
  }

  /** memcpy: blocks while both pointers are aligned, then bytes. It copies upwards, so dest may lie below an
      overlapping src. */
  method Memcpy<T>(mem: array<T>, dest: nat, src: nat, n: nat)
    requires dest + n <= mem.Length && src + n <= mem.Length && ForwardSafe(dest, src, n)
    modifies mem
    ensures mem[..] == Copied(old(mem[..]), dest, src, n)
  {
    hide Copied, Moved;
    ghost var was := mem[..];
    var n32 := n - n % 32;
    var k := 0;
    NoneMoved(was, dest, src, n);
    if n32 != 0 && dest % 4 == 0 && src % 4 == 0 {
      MemcpyFast(mem, dest, src, n32);
      k := n32;
    }
    while k < n
      invariant k <= n && Moved(mem[..], was, dest, src, 0, k)
    {
      MovedUp(mem[..], was, dest, src, n, k);
      ghost var m := mem[..];
      mem[dest + k] := mem[src + k];
      assert mem[..] == m[dest + k := was[src + k]];
      k := k + 1;
    }
    MovedAll(mem[..], was, dest, src, n);
  }

  lemma NoneMoved<T>(m: seq<T>, dest: nat, src: nat, n: nat)
    requires dest + n <= |m| && src + n <= |m|
    ensures Moved(m, m, dest, src, 0, 0) && Moved(m, m, dest, src, n, n)
  {}

  /** memmove: upwards when dest is below src, downwards otherwise; right however the two overlap. */
  method Memmove<T>(mem: array<T>, dest: nat, src: nat, n: nat)
    requires dest + n <= mem.Length && src + n <= mem.Length
    modifies mem
    ensures mem[..] == Copied(old(mem[..]), dest, src, n)
  {
    hide Copied, Moved;
    if dest < src {
      Memcpy(mem, dest, src, n);
      return;
    }
    ghost var was := mem[..];
    var k := n;
    NoneMoved(was, dest, src, n);
    while k > 0
      invariant 0 <= k <= n && Moved(mem[..], was, dest, src, k, n)
    {
      k := k - 1;
      MovedDown(mem[..], was, dest, src, n, k);
      ghost var m := mem[..];
      mem[dest + k] := mem[src + k];
      assert mem[..] == m[dest + k := was[src + k]];
    }
    MovedAll(mem[..], was, dest, src, n);
  }
}
