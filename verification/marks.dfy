/** Overwriting encoded 0xa1 bytes with sync words, and why the rest of the stream does not notice. */
module Marks {
  import opened Bits
  import opened Mfm
  import opened Stream

  /** Encoded memory with the words at marks overwritten by the big-endian sync word 0x4489. */
  function Patch(e: seq<bv8>, marks: set<nat>): (r: seq<bv8>)
    ensures |r| == |e|
  {
    seq(|e|, k requires 0 <= k < |e| =>
      if k / 2 !in marks then e[k] else if k % 2 == 0 then 0x44 else 0x89)
  }

  predicate MarksOn(data: seq<bv8>, marks: set<nat>) {
    forall m :: m in marks ==> m < |data| && data[m] == 0xa1
  }

  function MarkedBytes(prev: bv8, data: seq<bv8>, marks: set<nat>): (r: seq<bv8>)
    ensures |r| == 2 * |data|
  {
    Patch(Encode(prev, data), marks)
  }

  /** The cells of marked memory: what passes under the write head. */
  function MarkedCellStream(prev: bv8, data: seq<bv8>, marks: set<nat>): (r: seq<bool>)
    ensures |r| == 16 * |data|
  {
    BitsOf(MarkedBytes(prev, data, marks))
  }

  lemma SyncBytes(j: nat)
    requires j < 8
    ensures Bit(0x44, j) == SYNC_WORD[j] && Bit(0x89, j) == SYNC_WORD[8 + j]
  {
    if j == 0 {} else if j == 1 {} else if j == 2 {} else if j == 3 {}
    else if j == 4 {} else if j == 5 {} else if j == 6 {} else {}
  }

  lemma WordA1(prev: bv8)
    ensures Hi(Word(0xa1, prev)) == 0x44 && Lo(Word(0xa1, prev)) == 0xa9
  {}

  lemma LastHalf(j: nat)
    requires j < 8
    ensures Bit(0x89, j) == (Bit(0xa9, j) && j != 2)
  {
    if j == 0 {} else if j == 1 {} else if j == 2 {} else if j == 3 {}
    else if j == 4 {} else if j == 5 {} else if j == 6 {} else {}
  }

  lemma PatchedBit(prev: bv8, data: seq<bv8>, marks: set<nat>, n: nat, j: nat)
    requires MarksOn(data, marks) && n < 2 * |data| && j < 8
    ensures Bit(MarkedBytes(prev, data, marks)[n], j)
         == (Bit(Encode(prev, data)[n], j) && !Dropped(8 * n + j, marks))
  {
    hide Encode, Word, Bit;
    var e := Encode(prev, data);
    assert n == 2 * (n / 2) + n % 2;
    assert (8 * n + j) / 16 == n / 2 && (8 * n + j) % 16 == 8 * (n % 2) + j;
    if n / 2 in marks {
      EncodeBytes(prev, data, n / 2);
      WordA1(if n / 2 == 0 then prev else data[n / 2 - 1]);
      LastHalf(j);
    }
  }

  /** A sync word differs from the encoded 0xa1 beneath it in the dropped clock alone. */
  lemma PatchedCell(prev: bv8, data: seq<bv8>, marks: set<nat>, k: nat)
    requires MarksOn(data, marks) && k < 16 * |data|
    ensures MarkedCellStream(prev, data, marks)[k]
         == (BitsOf(Encode(prev, data))[k] && !Dropped(k, marks))
  {
    hide Encode, Bit, MarkedBytes, Dropped;
    PatchedBit(prev, data, marks, k / 8, k % 8);
    assert k == 8 * (k / 8) + k % 8;
  }

  lemma MarkedIsSync(prev: bv8, data: seq<bv8>, marks: set<nat>, m: nat)
    requires MarksOn(data, marks) && m in marks
    ensures MarkedCellStream(prev, data, marks)[16 * m..16 * m + 16] == SYNC_WORD
  {
    hide Bit, Encode, BitsOf;
    var b := MarkedBytes(prev, data, marks);
    forall j: nat | j < 16
      ensures BitsOf(b)[16 * m + j] == SYNC_WORD[j]
    {
      SyncBytes(j % 8);
      BitAt(b, 2 * m + j / 8, j % 8);
      assert 8 * (2 * m + j / 8) + j % 8 == 16 * m + j;
      assert (2 * m + j / 8) / 2 == m && (2 * m + j / 8) % 2 == j / 8;
    }
  }

  /** Any bytes, any byte before them and any choice of 0xa1 bytes to mark give a lawful stream. */
  lemma MarkedIsLawful(prev: bv8, data: seq<bv8>, marks: set<nat>)
    requires MarksOn(data, marks)
    ensures Lawful(MarkedCellStream(prev, data, marks), marks)
  {
    hide BitsOf, Encode, MarkedCellStream, Dropped;
    var c, e, d := MarkedCellStream(prev, data, marks), BitsOf(Encode(prev, data)), BitsOf(data);
    EncodeIsMfm(prev, data);
    forall m | m in marks
      ensures 16 * m + 16 <= |c| && c[16 * m..16 * m + 16] == SYNC_WORD
    {
      MarkedIsSync(prev, data, marks, m);
    }
    forall k | 0 < k && k + 1 < |c| && k % 2 == 0 && !Dropped(k, marks)
      ensures ClockOk(c, k)
    {
      PatchedNeighbours(prev, data, marks, k);
    }
    if |c| > 0 {
      PatchedCell(prev, data, marks, 0);
      PatchedCell(prev, data, marks, 1);
      assert e[0] ==> !e[1];
    }
  }

  lemma PatchedNeighbours(prev: bv8, data: seq<bv8>, marks: set<nat>, k: nat)
    requires MarksOn(data, marks) && 0 < k && k + 1 < 16 * |data| && k % 2 == 0 && !Dropped(k, marks)
    ensures ClockOk(MarkedCellStream(prev, data, marks), k)
  {
    hide BitsOf, Encode, MarkedCellStream;
    EncodeIsMfm(prev, data);
    PatchedCell(prev, data, marks, k - 1);
    PatchedCell(prev, data, marks, k);
    PatchedCell(prev, data, marks, k + 1);
  }

  /** Decoding marked memory returns the bytes that were encoded. */
  lemma DecodeMarked(prev: bv8, data: seq<bv8>, marks: set<nat>)
    requires MarksOn(data, marks)
    ensures Decode(MarkedBytes(prev, data, marks)) == data
  {
    hide BitsOf, Encode, Decode, MarkedBytes;
    var b := MarkedBytes(prev, data, marks);
    var c := MarkedCellStream(prev, data, marks);
    EncodeIsMfm(prev, data);
    DecodeIsDataCells(b);
    forall i | 0 <= i < 8 * |data|
      ensures DataCells(c)[i] == BitsOf(data)[i]
    {
      PatchedCell(prev, data, marks, 2 * i + 1);
    }
    assert BitsOf(Decode(b)) == BitsOf(data);
    PackBitsOf(Decode(b));
    PackBitsOf(data);
  }

  /** The marks of two copies of n bytes, one after the other. */
  function TwoMarks(marks: set<nat>, n: nat): set<nat> { marks + set m | m in marks :: m + n }

  lemma TwoMarksOn(data: seq<bv8>, marks: set<nat>)
    requires MarksOn(data, marks)
    ensures MarksOn(data + data, TwoMarks(marks, |data|))
    ensures forall k: nat :: k < 16 * |data| ==> Dropped(k, TwoMarks(marks, |data|)) == Dropped(k, marks)
    ensures forall k: nat :: k < 16 * |data| ==> Dropped(k + 16 * |data|, TwoMarks(marks, |data|)) == Dropped(k, marks)
  {
    var two := TwoMarks(marks, |data|);
    forall k: nat | k < 16 * |data|
      ensures (k + 16 * |data|) % 16 == k % 16 && (k + 16 * |data|) / 16 == k / 16 + |data|
      ensures k / 16 in two <==> k / 16 in marks
      ensures k / 16 + |data| in two <==> k / 16 in marks
    {}
  }

  /** Marked data written twice over, the second copy going on where the first ends: the cells come twice, if the byte
      before the data ends in the same bit as the data. */
  lemma TwiceMarked(prev: bv8, data: seq<bv8>, marks: set<nat>)
    requires MarksOn(data, marks) && data != [] && Bit(prev, 7) == Bit(data[|data| - 1], 7)
    ensures MarksOn(data + data, TwoMarks(marks, |data|))
    ensures var c := MarkedCellStream(prev, data, marks);
            MarkedCellStream(prev, data + data, TwoMarks(marks, |data|)) == c + c
  {
    hide BitsOf, Bit, Encode, MarkedCellStream, Dropped, TwoMarks, MarksOn;
    var n, two, c := 16 * |data|, TwoMarks(marks, |data|), MarkedCellStream(prev, data, marks);
    TwoMarksOn(data, marks);
    EncodeIsMfm(prev, data);
    EncodeIsMfm(prev, data + data);
    BitsOfConcat(data, data);
    BitAt(data, |data| - 1, 7);
    forall k: nat | k < 2 * n
      ensures MarkedCellStream(prev, data + data, two)[k] == (c + c)[k]
    {
      PatchedCell(prev, data + data, two, k);
      PatchedCell(prev, data, marks, if k < n then k else k - n);
    }
  }
}
