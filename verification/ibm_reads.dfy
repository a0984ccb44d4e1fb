/** The loops that scan a track and search it for a sector, over the memory their reads fill. */
module IbmReads {
  import opened Arithmetic
  import opened Mfm
  import opened Crc
  import opened IbmLayout

  /** What one read of ten words leaves: the memory it filled, the count of index pulses before and after it, and the
      time at which it found its sync mark. */
  datatype Finished = Finished(words: seq<bv8>, before: nat, after: nat, start: nat)

  predicate TenWords(log: seq<Finished>) {
    forall i :: 0 <= i < |log| ==> |log[i].words| == 20
  }

  predicate HasAddress(words: seq<bv8>)
    requires |words| == 20
  {
    IsIdam(Decode(words))
  }

  function AddressOf(words: seq<bv8>): Idam
    requires |words| == 20
  {
    IdamOf(Decode(words))
  }

  datatype ScanInfo = ScanInfo(idam: Idam, ticksPastIndex: nat)

  function RecordOne(r: Finished, since: nat): seq<ScanInfo>
    requires |r.words| == 20
  {
    if HasAddress(r.words) then [ScanInfo(AddressOf(r.words), (r.start - since) % U32)] else []
  }

  /** The addresses among these reads, each with the ticks from a moment to its sync mark in 32-bit time. */
  function Recorded(log: seq<Finished>, since: nat): seq<ScanInfo>
    requires TenWords(log)
    decreases |log|
  {
    if log == [] then [] else Recorded(log[..|log| - 1], since) + RecordOne(log[|log| - 1], since)
  }

  lemma {:induction false} RecordedFirst(log: seq<Finished>, since: nat)
    requires TenWords(log) && log != []
    ensures Recorded(log, since) == RecordOne(log[0], since) + Recorded(log[1..], since)
    decreases |log|
  {
    hide RecordOne;
    var n := |log| - 1;
    if n > 0 {
      RecordedFirst(log[..n], since);
      assert log[..n][1..] == log[1..][..n - 1];
    }
  }

  /** The reads that ended within one revolution. */
  function Revolution(log: seq<Finished>): (r: seq<Finished>)
    ensures r <= log
    decreases |log|
  {
    if log == [] || log[0].after != 1 then [] else [log[0]] + Revolution(log[1..])
  }

  lemma {:induction false} RevolutionIs(log: seq<Finished>, k: nat)
    requires k <= |log| && forall i :: 0 <= i < k ==> log[i].after == 1
    requires k < |log| ==> log[k].after != 1
    ensures Revolution(log) == log[..k]
    decreases k
  {
    if k > 0 {
      RevolutionIs(log[1..], k - 1);
      assert log[..k] == [log[0]] + log[1..][..k - 1];
    }
  }

  lemma RecordedNext(log: seq<Finished>, k: nat, since: nat)
    requires TenWords(log) && k < |log|
    ensures Recorded(log[..k + 1], since) == Recorded(log[..k], since) + RecordOne(log[k], since)
  {
    hide RecordOne;
    assert log[..k + 1][..k] == log[..k];
  }

  lemma MarkIs(d: seq<bv8>)
    requires |d| >= 4
    ensures d[..4] == IDAM_MARK <==> d[0] == 0xa1 && d[1] == 0xa1 && d[2] == 0xa1 && d[3] == 0xfe
  {
    assert d[..4] == [d[0], d[1], d[2], d[3]];
  }

  /** Decodes a finished read in place and looks for an address field. */
  method TakeAddress(mem: array<bv8>, p: nat, words: seq<bv8>) returns (ok: bool, id: Idam)
    requires p + 20 <= mem.Length && |words| == 20
    modifies mem
    ensures ok <==> HasAddress(words)
    ensures id == AddressOf(words)
    ensures mem[..p] == old(mem[..p]) && mem[p + 20..] == old(mem[p + 20..])
  {
    hide Decode, CrcOf;
    forall i | 0 <= i < 20 { mem[p + i] := words[i]; }
    assert mem[p..p + 20] == words;
    ghost var now := mem[..];
    MfmToBin(mem, p, 10);
    ghost var d := mem[p..p + 10];
    assert d == Decode(words);
    assert mem[p + 20..] == mem[p + 10..][10..];
    assert now[p + 20..] == now[p + 10..][10..];
    MarkIs(d);
    var crc := Crc16Ccitt(mem, p, 10, 0xffff);
    ok := mem[p] == 0xa1 && mem[p + 1] == 0xa1 && mem[p + 2] == 0xa1 && mem[p + 3] == 0xfe && crc == 0;
    id := Idam(mem[p + 4], mem[p + 5], mem[p + 6], mem[p + 7]);
  }

  function Cut<T>(s: seq<T>, n: nat): seq<T> { if |s| < n then s else s[..n] }

  /** The distance from one sector to the next in bytes, rounded in 32-bit arithmetic, less what a sector of this size
      takes but for its last gap. */
  function GapEstimate(first: ScanInfo, second: ScanInfo, perByte: nat): int
    requires perByte > 0
  {
    var delta := (second.ticksPastIndex - first.ticksPastIndex) % U32;
    ((delta + perByte / 2) % U32) / perByte - SectorLength(first.idam, 0)
  }

  /** Read k ended within the revolution, and delivered an address. */
  predicate Counts(log: seq<Finished>, k: nat)
    requires TenWords(log) && k < |log|
  {
    HasAddress(log[k].words) && forall j :: 0 <= j <= k ==> log[j].after == 1
  }

  /** at lists the reads of the revolution that delivered an address, in order. */
  ghost predicate Lists(at: seq<nat>, log: seq<Finished>)
    requires TenWords(log)
  {
    && (forall i, j :: 0 <= i < j < |at| ==> at[i] < at[j])
    && (forall i :: 0 <= i < |at| ==> at[i] < |log|)
    && (forall k: nat :: k < |log| ==> (k in at <==> Counts(log, k)))
  }

  /** Entry i names the address that read k delivered and when, counted from a moment, its mark was found. */
  predicate Tells(e: ScanInfo, r: Finished, since: nat)
    requires |r.words| == 20
  {
    e.idam == AddressOf(r.words) && e.ticksPastIndex < U32 && (since + e.ticksPastIndex) % U32 == r.start % U32
  }

  /** The gap is that of a track whose first two marks were found so many ticks apart, to within half a byte. */
  ghost predicate GapFits(gap3: int, id: Idam, apart: int, perByte: nat)
    requires perByte > 0
  {
    -(perByte / 2) <= apart - (SectorLength(id, 0) + gap3) * perByte < perByte - perByte / 2
  }

  /** As far as the first k reads go. */
  ghost predicate ListsUpTo(at: seq<nat>, all: seq<ScanInfo>, log: seq<Finished>, k: nat, since: nat)
    requires TenWords(log) && k <= |log|
  {
    && |at| == |all|
    && (forall i, j :: 0 <= i < j < |at| ==> at[i] < at[j])
    && (forall i :: 0 <= i < |at| ==> at[i] < k && Tells(all[i], log[at[i]], since))
    && (forall i: nat :: i < k ==> (i in at <==> HasAddress(log[i].words)))
  }

  lemma NoneListed(log: seq<Finished>, since: nat)
    requires TenWords(log)
    ensures ListsUpTo([], [], log, 0, since)
  {}

  lemma ListsNext(at: seq<nat>, all: seq<ScanInfo>, log: seq<Finished>, k: nat, since: nat)
    requires TenWords(log) && k < |log| && ListsUpTo(at, all, log, k, since)
    ensures var e := ScanInfo(AddressOf(log[k].words), (log[k].start - since) % U32);
            if HasAddress(log[k].words) then ListsUpTo(at + [k], all + [e], log, k + 1, since)
            else ListsUpTo(at, all, log, k + 1, since)
  {
    hide HasAddress, AddressOf;
    TicksBack(log[k].start, since);
    if HasAddress(log[k].words) {
      assert forall i :: i in at + [k] <==> i in at || i == k;
    }
  }

  lemma AllListed(at: seq<nat>, all: seq<ScanInfo>, log: seq<Finished>, k: nat, since: nat)
    requires TenWords(log) && k <= |log| && ListsUpTo(at, all, log, k, since)
    requires (forall i :: 0 <= i < k ==> log[i].after == 1) && (k < |log| ==> log[k].after != 1)
    ensures Lists(at, log) && |at| == |all| && forall i :: 0 <= i < |all| ==> Tells(all[i], log[at[i]], since)
    ensures forall i :: 0 <= i < |at| ==> at[i] < |log|
  {
    hide HasAddress, AddressOf, Tells;
  }

  /** ibm_mfm_scan: counts the addresses of one revolution, records the first max of them, and estimates the gap between
      sectors from the first two. */
  method MfmScan(mem: array<bv8>, p: nat, log: seq<Finished>, max: nat, since: nat, perByte: nat)
    returns (count: nat, info: seq<ScanInfo>, gap3: int, ghost at: seq<nat>)
    requires p + 20 <= mem.Length && TenWords(log) && perByte > 0
    modifies mem
    ensures Lists(at, log) && count == |at| && |info| == (if count < max then count else max)
    ensures forall i :: 0 <= i < |info| ==> Tells(info[i], log[at[i]], since)
    ensures if count >= 2 && max >= 2 then
              var apart := (log[at[1]].start - log[at[0]].start) % U32;
              apart + perByte / 2 < U32 ==> GapFits(gap3, AddressOf(log[at[0]].words), apart, perByte)
            else gap3 == 84
    ensures var all := Recorded(Revolution(log), since); count == |all| && info == Cut(all, max)
    ensures mem[..p] == old(mem[..p]) && mem[p + 20..] == old(mem[p + 20..])
  {
    hide HasAddress, AddressOf, Recorded, SectorLength, Revolution, GapFits, GapEstimate, ListsUpTo, Lists, Tells, Counts;
    count, info, at := 0, [], [];
    var k := 0;
    ghost var all: seq<ScanInfo> := [];
    NoneRecorded(since);
    NoneListed(log, since);
    assert log[..0] == [];
    while k < |log| && log[k].after == 1
      invariant 0 <= k <= |log| && forall i :: 0 <= i < k ==> log[i].after == 1
      invariant all == Recorded(log[..k], since) && count == |all| && info == Cut(all, max)
      invariant ListsUpTo(at, all, log, k, since)
      invariant mem[..p] == old(mem[..p]) && mem[p + 20..] == old(mem[p + 20..])
    {
      var ok, id := TakeAddress(mem, p, log[k].words);
      RecordedNext(log, k, since);
      ListsNext(at, all, log, k, since);
      if ok {
        if count < max {
          info := info + [ScanInfo(id, (log[k].start - since) % U32)];
        }
        all, at := all + [ScanInfo(id, (log[k].start - since) % U32)], at + [k];
        count := count + 1;
      }
      k := k + 1;
    }
    RevolutionIs(log, k);
    AllListed(at, all, log, k, since);
    gap3 := 84;
    if count >= 2 && max >= 2 {
      gap3 := GapEstimate(info[0], info[1], perByte);
      GapIsFitting(info[0], info[1], log[at[0]], log[at[1]], since, perByte);
    }
  }

  lemma GapIsFitting(e: ScanInfo, f: ScanInfo, r: Finished, q: Finished, since: nat, perByte: nat)
    requires |r.words| == 20 && |q.words| == 20 && Tells(e, r, since) && Tells(f, q, since) && perByte > 0
    ensures var apart := (q.start - r.start) % U32;
            apart + perByte / 2 < U32 ==> GapFits(GapEstimate(e, f, perByte), AddressOf(r.words), apart, perByte)
  {
    hide Tells, GapFits, GapEstimate, AddressOf, HasAddress;
    FoundAt(e, r, since);
    FoundAt(f, q, since);
    SameDistance(e.ticksPastIndex, f.ticksPastIndex, since, r.start, q.start);
    EstimateFits(e, f, perByte);
  }

  lemma FoundAt(e: ScanInfo, r: Finished, since: nat)
    requires |r.words| == 20 && Tells(e, r, since)
    ensures e.idam == AddressOf(r.words) && (since + e.ticksPastIndex) % U32 == r.start % U32
  {}

  lemma TicksBack(start: nat, since: nat)
    ensures (since + (start - since) % U32) % U32 == start % U32
  {}

  lemma SameDistance(t: nat, u: nat, since: nat, x: nat, y: nat)
    requires (since + t) % U32 == x % U32 && (since + u) % U32 == y % U32
    ensures (u - t) % U32 == (y - x) % U32
  {
    SameRemainder(x, since + t, U32);
    SameRemainder(y, since + u, U32);
    var a, b := (since + t) / U32 - x / U32, (since + u) / U32 - y / U32;
    Arithmetic.Spread(U32, b, a);
    ModAdd(y - x, U32, b - a);
  }

  lemma NoneRecorded(since: nat)
    ensures Recorded([], since) == []
  {}

  lemma EstimateIs(first: ScanInfo, second: ScanInfo, perByte: nat, apart: nat)
    requires perByte > 0 && apart + perByte / 2 < U32 && (second.ticksPastIndex - first.ticksPastIndex) % U32 == apart
    ensures GapEstimate(first, second, perByte) == (apart + perByte / 2) / perByte - SectorLength(first.idam, 0)
  {
    hide SectorLength;
    SmallMod(apart + perByte / 2, U32);
  }

  lemma LengthAndGap(id: Idam, gap3: nat)
    ensures SectorLength(id, gap3) == SectorLength(id, 0) + gap3
  {
    hide SecBytes;
  }

  /** The estimate fits the distance. */
  lemma EstimateFits(first: ScanInfo, second: ScanInfo, perByte: nat)
    requires perByte > 0
    ensures var apart := (second.ticksPastIndex - first.ticksPastIndex) % U32;
            apart + perByte / 2 < U32 ==> GapFits(GapEstimate(first, second, perByte), first.idam, apart, perByte)
  {
    hide SectorLength, GapEstimate;
    var apart := (second.ticksPastIndex - first.ticksPastIndex) % U32;
    if apart + perByte / 2 < U32 {
      EstimateIs(first, second, perByte, apart);
      QuotientIs(apart + perByte / 2, perByte, (apart + perByte / 2) / perByte);
    }
  }

  /** No two gaps do: the one that is estimated is the gap the track was formatted with if and only if the two sync marks
      were found as far apart as the sector is long, to within half a byte. */
  lemma GapRecovered(estimate: int, id: Idam, gap3: nat, apart: nat, perByte: nat)
    requires perByte > 0 && GapFits(estimate, id, apart, perByte)
    ensures estimate == gap3 <==> -(perByte / 2) <= apart - SectorLength(id, gap3) * perByte < perByte - perByte / 2
  {
    hide SectorLength;
    LengthAndGap(id, gap3);
    var n := SectorLength(id, 0);
    QuotientIs(apart + perByte / 2, perByte, n + estimate);
    QuotientIs(apart + perByte / 2, perByte, n + gap3);
  }

  lemma QuotientIs(x: nat, y: nat, q: int)
    requires y > 0
    ensures x / y == q <==> q * y <= x < q * y + y
  {
    var r := x / y;
    assert x == r * y + x % y && 0 <= x % y < y;
    if q < r {
      MulMono(q + 1, r, y);
    } else if r < q {
      MulMono(r + 1, q, y);
    }
  }

  /** ibm_mfm_search: reads on until one delivers the address; it warns of a read begun after a second index pulse. */
  method MfmSearch(mem: array<bv8>, p: nat, log: seq<Finished>, id: Idam) returns (k: nat, warned: bool)
    requires p + 20 <= mem.Length && TenWords(log)
    modifies mem
    ensures k <= |log| && (forall i :: 0 <= i < k ==> !Found(log[i].words, id))
    ensures k < |log| ==> Found(log[k].words, id)
    ensures warned <==> exists i :: 0 <= i <= k && i < |log| && log[i].before >= 2
    ensures mem[..p] == old(mem[..p]) && mem[p + 20..] == old(mem[p + 20..])
  {
    hide HasAddress, AddressOf;
    k, warned := 0, false;
    while k < |log|
      invariant k <= |log| && (forall i :: 0 <= i < k ==> !Found(log[i].words, id))
      invariant warned <==> exists i :: 0 <= i < k && log[i].before >= 2
      invariant mem[..p] == old(mem[..p]) && mem[p + 20..] == old(mem[p + 20..])
    {
      warned := warned || log[k].before >= 2;
      var ok, got := TakeAddress(mem, p, log[k].words);
      if ok && got == id { return; }
      k := k + 1;
    }
  }

  /** A read has delivered this address. */
  predicate Found(words: seq<bv8>, id: Idam)
    requires |words| == 20
  {
    HasAddress(words) && AddressOf(words) == id
  }
}
