/** Bytes as bit vectors, and memory as the stream of bits it holds, most significant bit first. */
module Bits {

  /** Empty cells, or zero bits. */
  function Zeros(n: nat): (r: seq<bool>)
    ensures |r| == n
  {
    seq(n, k => false)
  }

  /** Bit j of a byte, counting from the most significant bit. */
  predicate Bit(b: bv8, j: nat)
    requires j < 8
  {
    if j == 0 then b & 0x80 != 0
    else if j == 1 then b & 0x40 != 0
    else if j == 2 then b & 0x20 != 0
    else if j == 3 then b & 0x10 != 0
    else if j == 4 then b & 0x08 != 0
    else if j == 5 then b & 0x04 != 0
    else if j == 6 then b & 0x02 != 0
    else b & 0x01 != 0
  }

  /** A run of bytes as a stream of bits, in the order they pass under the head. */
  function BitsOf(s: seq<bv8>): (r: seq<bool>)
    ensures |r| == 8 * |s|
  {
    seq(8 * |s|, k requires 0 <= k < 8 * |s| => Bit(s[k / 8], k % 8))
  }

  /** The byte whose bits, most significant first, are the eight given. */
  function Pack(c: seq<bool>): bv8
    requires |c| == 8
  {
    (if c[0] then 0x80 else 0) | (if c[1] then 0x40 else 0) |
    (if c[2] then 0x20 else 0) | (if c[3] then 0x10 else 0) |
    (if c[4] then 0x08 else 0) | (if c[5] then 0x04 else 0) |
    (if c[6] then 0x02 else 0) | (if c[7] then 0x01 else 0)
  }

  function PackBytes(c: seq<bool>): (r: seq<bv8>)
    requires |c| % 8 == 0
    ensures |r| == |c| / 8
  {
    seq(|c| / 8, i requires 0 <= i < |c| / 8 => Pack(c[8 * i..8 * i + 8]))
  }

  /** A byte is determined by its bits. */
  lemma SameBits(a: bv8, b: bv8)
    requires forall j: nat | j < 8 :: Bit(a, j) == Bit(b, j)
    ensures a == b
  {
    assert Bit(a, 0) == Bit(b, 0) && Bit(a, 1) == Bit(b, 1);
    assert Bit(a, 2) == Bit(b, 2) && Bit(a, 3) == Bit(b, 3);
    assert Bit(a, 4) == Bit(b, 4) && Bit(a, 5) == Bit(b, 5);
    assert Bit(a, 6) == Bit(b, 6) && Bit(a, 7) == Bit(b, 7);
  }

  lemma PackBit(c: seq<bool>, j: nat)
    requires |c| == 8 && j < 8
    ensures Bit(Pack(c), j) == c[j]
  {
    if j == 0 {} else if j == 1 {} else if j == 2 {} else if j == 3 {}
    else if j == 4 {} else if j == 5 {} else if j == 6 {} else {}
  }

  /** Packing a bit stream into memory loses nothing. */
  lemma BitsOfPack(c: seq<bool>)
    requires |c| % 8 == 0
    ensures BitsOf(PackBytes(c)) == c
  {
    hide BitsOf, PackBytes;
    forall k: nat | k < |c|
      ensures BitsOf(PackBytes(c))[k] == c[k]
    {
      PackedBit(c, k / 8, k % 8);
    }
  }

  lemma PackedBit(c: seq<bool>, i: nat, j: nat)
    requires |c| % 8 == 0 && 8 * i + 8 <= |c| && j < 8
    ensures BitsOf(PackBytes(c))[8 * i + j] == c[8 * i + j]
  {
    hide Pack, Bit, BitsOf;
    BitAt(PackBytes(c), i, j);
    PackBit(c[8 * i..8 * i + 8], j);
  }

  lemma BitAt(s: seq<bv8>, n: nat, i: nat)
    requires n < |s| && i < 8
    ensures BitsOf(s)[8 * n + i] == Bit(s[n], i)
  {}

  lemma PackBitsAt(s: seq<bv8>, i: nat)
    requires i < |s|
    ensures Pack(BitsOf(s)[8 * i..8 * i + 8]) == s[i]
  {
    hide Pack, Bit;
    var c := BitsOf(s)[8 * i..8 * i + 8];
    forall j: nat | j < 8
      ensures Bit(Pack(c), j) == Bit(s[i], j)
    {
      PackBit(c, j);
      assert (8 * i + j) / 8 == i && (8 * i + j) % 8 == j;
    }
    SameBits(Pack(c), s[i]);
  }

  /** Unpacking and packing memory leaves every byte as it was. */
  lemma PackBitsOf(s: seq<bv8>)
    ensures PackBytes(BitsOf(s)) == s
  {
    forall i | 0 <= i < |s|
      ensures PackBytes(BitsOf(s))[i] == s[i]
    {
      PackBitsAt(s, i);
    }
  }

  lemma BitsOfConcat(a: seq<bv8>, b: seq<bv8>)
    ensures BitsOf(a + b) == BitsOf(a) + BitsOf(b)
  {
    forall k | 0 <= k < 8 * |a + b|
      ensures BitsOf(a + b)[k] == (BitsOf(a) + BitsOf(b))[k]
    {
      if k >= 8 * |a| {
        assert (k - 8 * |a|) / 8 == k / 8 - |a| && (k - 8 * |a|) % 8 == k % 8;
      }
    }
  }

  lemma BitOfSlice(s: seq<bv8>, lo: nat, hi: nat, n: nat, i: nat)
    requires lo + n < hi <= |s| && i < 8
    ensures BitsOf(s[lo..hi])[8 * n + i] == BitsOf(s)[8 * lo + (8 * n + i)]
  {
    hide BitsOf, Bit;
    BitAt(s[lo..hi], n, i);
    BitAt(s, lo + n, i);
  }

  lemma BitsOfSlice(s: seq<bv8>, lo: nat, hi: nat)
    requires lo <= hi <= |s|
    ensures BitsOf(s[lo..hi]) == BitsOf(s)[8 * lo..8 * hi]
  {
    hide BitsOf;
    forall k: nat | k < 8 * (hi - lo)
      ensures BitsOf(s[lo..hi])[k] == BitsOf(s)[8 * lo..8 * hi][k]
    {
      BitOfSlice(s, lo, hi, k / 8, k % 8);
    }
  }

  // ----- 16-bit words

  function Hi(w: bv16): bv8 { (w >> 8) as bv8 }

  function Lo(w: bv16): bv8 { (w & 0xff) as bv8 }

  function Join(hi: bv8, lo: bv8): bv16 { ((hi as bv16) << 8) | (lo as bv16) }

  /** Cell j of a word, counting from the most significant. */
  predicate Cell(w: bv16, j: nat)
    requires j < 16
  {
    if j < 8 then Bit(Hi(w), j) else Bit(Lo(w), j - 8)
  }

  lemma JoinSplit(w: bv16)
    ensures Join(Hi(w), Lo(w)) == w
  {}

  lemma SplitJoin(hi: bv8, lo: bv8)
    ensures Hi(Join(hi, lo)) == hi && Lo(Join(hi, lo)) == lo
  {}

  /** A word is determined by its cells. */
  lemma SameWord(u: bv16, v: bv16)
    requires forall j: nat | j < 16 :: Cell(u, j) == Cell(v, j)
    ensures u == v
  {
    forall j: nat | j < 8
      ensures Bit(Hi(u), j) == Bit(Hi(v), j) && Bit(Lo(u), j) == Bit(Lo(v), j)
    {
      assert Cell(u, j) == Cell(v, j) && Cell(u, j + 8) == Cell(v, j + 8);
    }
    SameBits(Hi(u), Hi(v));
    SameBits(Lo(u), Lo(v));
    JoinSplit(u);
    JoinSplit(v);
  }
}
