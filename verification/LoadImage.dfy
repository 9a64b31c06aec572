/** ELF load segments and boot partitions as two descriptions of one memory image, and the check that compares them. */
module LoadImage {
  import opened Bytes
  import opened Extents

  datatype Segment = Segment(vaddr: int, paddr: int, filesz: nat, memsz: int, data: seq<byte>) {
    ghost predicate Valid() {
      |data| == filesz
    }

    /** Whether the file supplies the byte loaded at physical address `a`. */
    predicate Covers(a: int) {
      paddr <= a < paddr + filesz
    }
  }

  datatype Partition = Partition(image: seq<byte>, load: int, entry: int, offset: nat, length: nat, attributes: int) {
    predicate Contains(a: int) {
      load <= a < load + length
    }

    /** Whether the packaged file stores `v` for address `a` of this partition. */
    predicate Stores(raw: seq<byte>, a: int, v: byte) {
      Contains(a) && offset + a - load < |raw| && raw[offset + a - load] == v
    }
  }

  function LoadExtents(parts: seq<Partition>): (extents: seq<Extent<nat>>)
    ensures |extents| == |parts|
  {
    seq(|parts|, i requires 0 <= i < |parts| => Extent(parts[i].load, parts[i].length, i))
  }

  ghost predicate AllValid(segments: seq<Segment>) {
    forall s | s in segments :: s.Valid()
  }

  /** Some partition stores the byte that `s` loads at `a`. */
  ghost predicate Backed(raw: seq<byte>, parts: seq<Partition>, s: Segment, a: int)
    requires s.Valid() && s.Covers(a)
  {
    exists i | 0 <= i < |parts| :: parts[i].Stores(raw, a, s.data[a - s.paddr])
  }

  ghost predicate FullyBacked(raw: seq<byte>, parts: seq<Partition>, s: Segment)
    requires s.Valid()
  {
    forall a | s.Covers(a) :: Backed(raw, parts, s, a)
  }

  ghost predicate CoveredBySome(segments: seq<Segment>, a: int) {
    exists s | s in segments :: s.Covers(a)
  }

  /** A partition holds file bytes from its first address to within four bytes of its end, and zeros between them. */
  ghost predicate TightlyFilled(raw: seq<byte>, segments: seq<Segment>, p: Partition) {
    && p.offset + p.length <= |raw|
    && p.Contains(p.load) && CoveredBySome(segments, p.load)
    && (exists a :: p.Contains(a) && a >= p.load + p.length - 4 && CoveredBySome(segments, a))
    && forall k | Gap(segments, p, k) :: raw[p.offset + k] == 0
  }

  /** Byte `k` of the partition is one that no segment's file bytes reach. */
  ghost predicate Gap(segments: seq<Segment>, p: Partition, k: int) {
    0 <= k < p.length && !CoveredBySome(segments, p.load + k)
  }

  /** What the audit of one executable promises, address by address. */
  ghost predicate Faithful(raw: seq<byte>, parts: seq<Partition>, segments: seq<Segment>)
    requires AllValid(segments)
  {
    && PairwiseApart(LoadExtents(parts))
    && (forall s | s in segments :: FullyBacked(raw, parts, s))
    && forall p | p in parts :: TightlyFilled(raw, segments, p)
  }

  lemma OnlyOnePartition(parts: seq<Partition>, a: int, i: nat, j: nat)
    requires PairwiseApart(LoadExtents(parts)) && i < |parts| && j < |parts|
    requires parts[i].Contains(a) && parts[j].Contains(a)
    ensures i == j
  {
    var e := LoadExtents(parts);
    assert i == j || Apart(e[i], e[j]) || Apart(e[j], e[i]);
  }

  /** The walk over one segment: each step finds the one partition at the cursor and compares as far as both reach. */
  method CheckSegment(raw: seq<byte>, parts: seq<Partition>, s: Segment, used: set<nat>)
    returns (ok: bool, used': set<nat>)
    requires s.Valid() && PairwiseApart(LoadExtents(parts))
    ensures ok <==> FullyBacked(raw, parts, s)
    ensures ok ==> forall i: nat ::
      i in used' <==> i in used || (i < |parts| && Meets(parts[i], s.paddr, s.paddr + s.filesz))
  {
    hide Backed, FullyBacked, PairwiseApart;
    var extents := LoadExtents(parts);
    used' := used;
    var cursor, end := s.paddr, s.paddr + s.filesz;
    while cursor < end
      invariant s.paddr <= cursor <= end
      invariant forall a | s.paddr <= a < cursor :: Backed(raw, parts, s, a)
      invariant forall i: nat :: i in used' <==> i in used || (i < |parts| && Meets(parts[i], s.paddr, cursor))
    {
      var matches := Covering(extents, cursor, |extents|);
      if |matches| != 1 {
        NoPartition(raw, parts, s, cursor);
        return false, used';
      }
      var i := matches[0];
      assert i in matches;
      var p := parts[i];
      assert p.Contains(cursor);
      var size := if end < p.load + p.length then end - cursor else p.load + p.length - cursor;
      var start := p.offset + cursor - p.load;
      var segmentBytes := s.data[cursor - s.paddr..cursor - s.paddr + size];
      if !(start + size <= |raw| && raw[start..start + size] == segmentBytes) {
        MismatchBreaks(raw, parts, s, i, cursor, size);
        return false, used';
      }
      MatchBacks(raw, parts, s, i, cursor, size);
      StepUse(parts, i, s.paddr, cursor, size);
      used' := used' + {i};
      cursor := cursor + size;
    }
    AllBacked(raw, parts, s);
    ok := true;
  }

  lemma MatchBacks(raw: seq<byte>, parts: seq<Partition>, s: Segment, i: nat, cursor: int, size: nat)
    requires s.Valid() && i < |parts| && s.paddr <= cursor && cursor + size <= s.paddr + s.filesz
    requires parts[i].load <= cursor && cursor + size <= parts[i].load + parts[i].length
    requires var start := parts[i].offset + cursor - parts[i].load;
             start + size <= |raw| && raw[start..start + size] == s.data[cursor - s.paddr..cursor - s.paddr + size]
    ensures forall a | cursor <= a < cursor + size :: Backed(raw, parts, s, a)
  {
    var start := parts[i].offset + cursor - parts[i].load;
    forall a | cursor <= a < cursor + size
      ensures Backed(raw, parts, s, a)
    {
      assert raw[start..start + size][a - cursor] == s.data[cursor - s.paddr..cursor - s.paddr + size][a - cursor];
      assert parts[i].Stores(raw, a, s.data[a - s.paddr]);
    }
  }

  lemma AllBacked(raw: seq<byte>, parts: seq<Partition>, s: Segment)
    requires s.Valid()
    ensures FullyBacked(raw, parts, s) <==> forall a | s.paddr <= a < s.paddr + s.filesz :: Backed(raw, parts, s, a)
    ensures s.filesz == 0 ==> forall p | p in parts :: !Meets(p, s.paddr, s.paddr + s.filesz)
  {
  }

  lemma NoPartition(raw: seq<byte>, parts: seq<Partition>, s: Segment, a: int)
    requires s.Valid() && s.Covers(a) && PairwiseApart(LoadExtents(parts))
    requires |Covering(LoadExtents(parts), a, |parts|)| != 1
    ensures !FullyBacked(raw, parts, s)
  {
    if Backed(raw, parts, s, a) {
      var i :| 0 <= i < |parts| && parts[i].Stores(raw, a, s.data[a - s.paddr]);
      forall j | 0 <= j < |parts| && LoadExtents(parts)[j].Contains(a)
        ensures j == i
      {
        OnlyOnePartition(parts, a, i, j);
      }
      OneMatch(LoadExtents(parts), a, i);
    }
  }

  lemma StoredInPlace(raw: seq<byte>, parts: seq<Partition>, s: Segment, i: nat, a: int)
    requires s.Valid() && FullyBacked(raw, parts, s) && PairwiseApart(LoadExtents(parts))
    requires i < |parts| && s.Covers(a) && parts[i].Contains(a)
    ensures parts[i].Stores(raw, a, s.data[a - s.paddr])
  {
    assert Backed(raw, parts, s, a);
    var j :| 0 <= j < |parts| && parts[j].Stores(raw, a, s.data[a - s.paddr]);
    OnlyOnePartition(parts, a, i, j);
  }

  lemma MismatchBreaks(raw: seq<byte>, parts: seq<Partition>, s: Segment, i: nat, cursor: int, size: nat)
    requires s.Valid() && PairwiseApart(LoadExtents(parts)) && i < |parts| && size > 0
    requires s.paddr <= cursor && cursor + size <= s.paddr + s.filesz
    requires parts[i].load <= cursor && cursor + size <= parts[i].load + parts[i].length
    requires var start := parts[i].offset + cursor - parts[i].load;
             !(start + size <= |raw| && raw[start..start + size] == s.data[cursor - s.paddr..cursor - s.paddr + size])
    ensures !FullyBacked(raw, parts, s)
  {
    hide PairwiseApart;
    if FullyBacked(raw, parts, s) {
      var start := parts[i].offset + cursor - parts[i].load;
      StoredInPlace(raw, parts, s, i, cursor + size - 1);
      var q, d := raw[start..start + size], s.data[cursor - s.paddr..cursor - s.paddr + size];
      forall k | 0 <= k < size
        ensures q[k] == d[k]
      {
        StoredInPlace(raw, parts, s, i, cursor + k);
      }
    }
  }

  /** Whether a partition reaches into the addresses [lo, hi). */
  predicate Meets(p: Partition, lo: int, hi: int) {
    p.length > 0 && lo < hi && p.load < hi && lo < p.load + p.length
  }

  lemma StepUse(parts: seq<Partition>, i: nat, start: int, cursor: int, size: nat)
    requires i < |parts| && PairwiseApart(LoadExtents(parts)) && size > 0 && start <= cursor
    requires parts[i].load <= cursor && cursor + size <= parts[i].load + parts[i].length
    ensures forall j | 0 <= j < |parts| ::
      Meets(parts[j], start, cursor + size) <==> j == i || Meets(parts[j], start, cursor)
  {
    var e := LoadExtents(parts);
    assert e[i] == Extent(parts[i].load, parts[i].length, i);
    forall j | 0 <= j < |parts| && j != i
      ensures Meets(parts[j], start, cursor + size) <==> Meets(parts[j], start, cursor)
    {
      assert e[j] == Extent(parts[j].load, parts[j].length, j);
      assert Apart(e[i], e[j]) || Apart(e[j], e[i]);
    }
  }

  /** The byte the last of the first `n` segments to reach `a` leaves there. */
  function LastLoaded(segments: seq<Segment>, n: nat, a: int): Option<byte>
    requires n <= |segments| && forall s | s in segments :: |s.data| == s.filesz
  {
    if n == 0 then None
    else
      var s := segments[n - 1];
      if s.Covers(a) then Some(s.data[a - s.paddr]) else LastLoaded(segments, n - 1, a)
  }

  function OrZero(v: Option<byte>): byte {
    if v.Some? then v.value else 0
  }

  lemma {:induction false} LastLoadedComesFrom(segments: seq<Segment>, n: nat, a: int)
    requires n <= |segments| && AllValid(segments)
    ensures match LastLoaded(segments, n, a)
            case None => forall k | 0 <= k < n :: !segments[k].Covers(a)
            case Some(v) => exists k | 0 <= k < n ::
                segments[k].Covers(a) && segments[k].data[a - segments[k].paddr] == v
  {
    if n > 0 && !segments[n - 1].Covers(a) {
      LastLoadedComesFrom(segments, n - 1, a);
    }
  }

  /** Under the segment check, whatever segment loads an address of `p`, the file stores that byte in `p`. */
  lemma LoadedIsStored(raw: seq<byte>, parts: seq<Partition>, segments: seq<Segment>, i: nat, a: int)
    requires AllValid(segments) && PairwiseApart(LoadExtents(parts)) && i < |parts| && parts[i].Contains(a)
    requires forall s | s in segments :: FullyBacked(raw, parts, s)
    ensures match LastLoaded(segments, |segments|, a)
            case None => !CoveredBySome(segments, a)
            case Some(v) => CoveredBySome(segments, a) && parts[i].Stores(raw, a, v)
  {
    LastLoadedComesFrom(segments, |segments|, a);
    match LastLoaded(segments, |segments|, a)
    case None =>
    case Some(v) =>
      var k :| 0 <= k < |segments| && segments[k].Covers(a) && segments[k].data[a - segments[k].paddr] == v;
      assert segments[k] in segments && Backed(raw, parts, segments[k], a);
      var j :| 0 <= j < |parts| && parts[j].Stores(raw, a, v);
      OnlyOnePartition(parts, a, i, j);
  }

  /** `expected[lo:hi] = data[from:from + hi - lo]`. */
  method CopyRange(expected: array<byte>, lo: nat, hi: nat, data: seq<byte>, from: nat)
    requires lo <= hi <= expected.Length && from + hi - lo <= |data|
    modifies expected
    ensures forall k | 0 <= k < expected.Length ::
        expected[k] == if lo <= k < hi then data[from + k - lo] else old(expected[k])
  {
    forall k | lo <= k < hi {
      expected[k] := data[from + k - lo];
    }
  }

  /** The contents a partition should have, filled in place from the segments, and the range they cover. */
  method Rebuild(segments: seq<Segment>, p: Partition)
    returns (expected: array<byte>, low: Option<int>, high: Option<int>)
    requires AllValid(segments)
    ensures fresh(expected) && expected.Length == p.length
    ensures forall k | 0 <= k < p.length :: expected[k] == OrZero(LastLoaded(segments, |segments|, p.load + k))
    ensures CoverSummary(segments, |segments|, p, low, high)
  {
    hide CoverSummary;
    expected := new byte[p.length](_ => 0);
    low, high := None, None;
    SummaryStart(segments, p);
    for n := 0 to |segments|
      invariant forall k | 0 <= k < p.length :: expected[k] == OrZero(LastLoaded(segments, n, p.load + k))
      invariant CoverSummary(segments, n, p, low, high)
    {
      var s := segments[n];
      assert s in segments && s.Valid();
      SummaryStep(segments, n, p, low, high);
      var start := if p.load > s.paddr then p.load else s.paddr;
      var end := if p.load + p.length < s.paddr + s.filesz then p.load + p.length else s.paddr + s.filesz;
      if start < end {
        CopyRange(expected, start - p.load, end - p.load, s.data, start - s.paddr);
        low := Some(if low.None? || start < low.value then start else low.value);
        high := Some(if high.None? || end > high.value then end else high.value);
      }
    }
  }

  lemma SummaryStart(segments: seq<Segment>, p: Partition)
    ensures CoverSummary(segments, 0, p, None, None)
  {
  }

  /** The range covered by one more segment widens the range so far. */
  lemma SummaryStep(segments: seq<Segment>, n: nat, p: Partition, low: Option<int>, high: Option<int>)
    requires n < |segments| && CoverSummary(segments, n, p, low, high)
    ensures var s := segments[n];
            var start := if p.load > s.paddr then p.load else s.paddr;
            var end := if p.load + p.length < s.paddr + s.filesz then p.load + p.length else s.paddr + s.filesz;
            if start < end
            then CoverSummary(segments, n + 1, p, Some(if low.None? || start < low.value then start else low.value),
                              Some(if high.None? || end > high.value then end else high.value))
            else CoverSummary(segments, n + 1, p, low, high)
  {
  }

  /** The rebuilt contents of one partition, compared with the packaged bytes. */
  method CheckPartition(raw: seq<byte>, parts: seq<Partition>, segments: seq<Segment>, i: nat) returns (ok: bool)
    requires AllValid(segments) && PairwiseApart(LoadExtents(parts)) && i < |parts|
    requires forall s | s in segments :: FullyBacked(raw, parts, s)
    ensures ok <==> TightlyFilled(raw, segments, parts[i])
  {
    hide PairwiseApart, FullyBacked, Gap, CoveredBySome;
    var p := parts[i];
    var expected, low, high := Rebuild(segments, p);
    SummaryDecides(segments, p, low, high);
    if low != Some(p.load) {
      return false;
    }
    if p.load + p.length - high.value >= 4 {
      return false;
    }
    ok := p.offset + p.length <= |raw| && raw[p.offset..p.offset + p.length] == expected[..];
    if p.offset + p.length <= |raw| {
      GapsDecide(raw, parts, segments, i, expected[..]);
    }
  }

  /** `low` and `high` are the least start and greatest end of the covered ranges of `p` so far. */
  ghost predicate CoverSummary(segments: seq<Segment>, n: nat, p: Partition, low: Option<int>, high: Option<int>)
    requires n <= |segments|
  {
    && low.Some? == high.Some?
    && (forall k, a | 0 <= k < n && segments[k].Covers(a) && p.Contains(a) ::
          low.Some? && low.value <= a < high.value)
    && (low.Some? ==>
          && p.load <= low.value < high.value <= p.load + p.length
          && (exists k | 0 <= k < n :: segments[k].Covers(low.value))
          && (exists k | 0 <= k < n :: segments[k].Covers(high.value - 1)))
  }

  lemma SummaryDecides(segments: seq<Segment>, p: Partition, low: Option<int>, high: Option<int>)
    requires CoverSummary(segments, |segments|, p, low, high)
    ensures low == Some(p.load) <==> p.Contains(p.load) && CoveredBySome(segments, p.load)
    ensures low.Some? ==>
      (p.load + p.length - high.value < 4 <==>
       exists a :: p.Contains(a) && a >= p.load + p.length - 4 && CoveredBySome(segments, a))
  {
    if low.Some? {
      var k :| 0 <= k < |segments| && segments[k].Covers(high.value - 1);
      assert segments[k] in segments && CoveredBySome(segments, high.value - 1) && p.Contains(high.value - 1);
      var j :| 0 <= j < |segments| && segments[j].Covers(low.value);
      assert segments[j] in segments;
    }
  }

  lemma GapByteDecides(raw: seq<byte>, parts: seq<Partition>, segments: seq<Segment>, i: nat, k: nat, v: byte)
    requires AllValid(segments) && PairwiseApart(LoadExtents(parts)) && i < |parts| && k < parts[i].length
    requires forall s | s in segments :: FullyBacked(raw, parts, s)
    requires v == OrZero(LastLoaded(segments, |segments|, parts[i].load + k))
    requires parts[i].offset + parts[i].length <= |raw|
    ensures raw[parts[i].offset + k] == v <==> (Gap(segments, parts[i], k) ==> raw[parts[i].offset + k] == 0)
  {
    LoadedIsStored(raw, parts, segments, i, parts[i].load + k);
  }

  lemma GapsDecide(raw: seq<byte>, parts: seq<Partition>, segments: seq<Segment>, i: nat, expected: seq<byte>)
    requires AllValid(segments) && PairwiseApart(LoadExtents(parts)) && i < |parts| && |expected| == parts[i].length
    requires forall s | s in segments :: FullyBacked(raw, parts, s)
    requires forall k | 0 <= k < |expected| ::
        expected[k] == OrZero(LastLoaded(segments, |segments|, parts[i].load + k))
    requires parts[i].offset + parts[i].length <= |raw|
    ensures raw[parts[i].offset..parts[i].offset + parts[i].length] == expected <==>
            forall k | Gap(segments, parts[i], k) :: raw[parts[i].offset + k] == 0
  {
    hide PairwiseApart, FullyBacked, LastLoaded, OrZero, CoveredBySome, AllValid, LoadExtents;
    var p := parts[i];
    SliceEquals(raw, p.offset, expected);
    if forall k | Gap(segments, p, k) :: raw[p.offset + k] == 0 {
      forall k | 0 <= k < p.length ensures raw[p.offset + k] == expected[k] {
        GapByteDecides(raw, parts, segments, i, k, expected[k]);
      }
    } else {
      var k :| Gap(segments, p, k) && raw[p.offset + k] != 0;
      GapByteDecides(raw, parts, segments, i, k, expected[k]);
    }
  }

  lemma SliceEquals(raw: seq<byte>, at: nat, expected: seq<byte>)
    requires at + |expected| <= |raw|
    ensures raw[at..at + |expected|] == expected <==> forall k | 0 <= k < |expected| :: raw[at + k] == expected[k]
  {
    var slice := raw[at..at + |expected|];
    forall k | 0 <= k < |expected| ensures slice[k] == raw[at + k] {
    }
  }

  /** `check_elf`: the comparison accepts exactly the faithful packagings of the executable. */
  method CheckElf(raw: seq<byte>, parts: seq<Partition>, entry: int, segments: seq<Segment>) returns (ok: bool)
    requires AllValid(segments)
    ensures ok <==> parts != [] && (exists p | p in parts :: p.entry == entry) && Faithful(raw, parts, segments)
  {
    hide TightlyFilled, FullyBacked, PairwiseApart, NeighboursApart, Sorted, Meets, LoadExtents;
    var extents := LoadExtents(parts);
    if parts == [] || !(exists p | p in parts :: p.entry == entry) {
      return false;
    }
    if !NeighboursApart(Sorted(extents)) {
      OverlapBreaks(raw, parts, segments);
      return false;
    }
    SortedNeighboursSuffice(extents);
    var used: set<nat> := {};
    for n := 0 to |segments|
      invariant forall s | s in segments[..n] :: FullyBacked(raw, parts, s)
      invariant forall i: nat :: i in used <==>
        i < |parts| && exists k | 0 <= k < n ::
            Meets(parts[i], segments[k].paddr, segments[k].paddr + segments[k].filesz)
    {
      assert segments[n] in segments && segments[..n + 1] == segments[..n] + [segments[n]];
      ok, used := CheckSegment(raw, parts, segments[n], used);
      if !ok {
        return;
      }
    }
    assert segments[..|segments|] == segments;
    if exists i: nat | i < |parts| :: i !in used {
      UnusedBreaks(raw, parts, segments, used);
      return false;
    }
    for i := 0 to |parts|
      invariant forall p | p in parts[..i] :: TightlyFilled(raw, segments, p)
    {
      assert parts[i] in parts && parts[..i + 1] == parts[..i] + [parts[i]];
      ok := CheckPartition(raw, parts, segments, i);
      if !ok {
        return;
      }
    }
    assert parts[..|parts|] == parts;
    ok := true;
  }

  lemma OverlapBreaks(raw: seq<byte>, parts: seq<Partition>, segments: seq<Segment>)
    requires AllValid(segments) && !NeighboursApart(Sorted(LoadExtents(parts)))
    ensures !Faithful(raw, parts, segments)
  {
    if Faithful(raw, parts, segments) {
      var extents := LoadExtents(parts);
      forall e | e in extents
        ensures e.length > 0
      {
        var i :| 0 <= i < |parts| && extents[i] == e;
        assert parts[i] in parts;
      }
      SortedNeighboursDecide(extents);
    }
  }

  lemma UnusedBreaks(raw: seq<byte>, parts: seq<Partition>, segments: seq<Segment>, used: set<nat>)
    requires AllValid(segments) && exists i: nat | i < |parts| :: i !in used
    requires forall i: nat :: i in used <==>
      i < |parts| && exists k | 0 <= k < |segments| ::
          Meets(parts[i], segments[k].paddr, segments[k].paddr + segments[k].filesz)
    ensures !Faithful(raw, parts, segments)
  {
    var i: nat :| i < |parts| && i !in used;
    if Faithful(raw, parts, segments) {
      assert parts[i] in parts;
      var s :| s in segments && s.Covers(parts[i].load);
      var k :| 0 <= k < |segments| && segments[k] == s;
      assert Meets(parts[i], segments[k].paddr, segments[k].paddr + segments[k].filesz);
    }
  }

  /** Physical memory. */
  type Memory = int -> byte

  function Overlay(memory: Memory, start: int, data: seq<byte>): Memory {
    a => if start <= a < start + |data| then data[a - start] else memory(a)
  }

  /** The boot loader's view: the first `n` partitions' packaged bytes are copied to their load addresses. */
  function LoadPartitions(raw: seq<byte>, parts: seq<Partition>, n: nat, memory: Memory): Memory
    requires n <= |parts| && forall p | p in parts :: p.offset + p.length <= |raw|
  {
    if n == 0 then memory
    else
      var p := parts[n - 1];
      Overlay(LoadPartitions(raw, parts, n - 1, memory), p.load, raw[p.offset..p.offset + p.length])
  }

  function ZeroSpans(parts: seq<Partition>, n: nat, memory: Memory): Memory
    requires n <= |parts|
  {
    if n == 0 then memory
    else Overlay(ZeroSpans(parts, n - 1, memory), parts[n - 1].load, seq(parts[n - 1].length, _ => 0))
  }

  /** The executable's view: the first `n` segments' file bytes are copied to their physical addresses. */
  function CopySegments(segments: seq<Segment>, n: nat, memory: Memory): Memory
    requires n <= |segments|
  {
    if n == 0 then memory
    else Overlay(CopySegments(segments, n - 1, memory), segments[n - 1].paddr, segments[n - 1].data)
  }

  lemma {:induction false} InsidePartition(
      raw: seq<byte>, parts: seq<Partition>, n: nat, memory: Memory, a: int, i: nat)
    requires n <= |parts| && (forall p | p in parts :: p.offset + p.length <= |raw|)
        && PairwiseApart(LoadExtents(parts))
    requires i < n && parts[i].Contains(a)
    ensures LoadPartitions(raw, parts, n, memory)(a) == raw[parts[i].offset + a - parts[i].load]
    ensures ZeroSpans(parts, n, memory)(a) == 0
  {
    if i < n - 1 {
      if parts[n - 1].Contains(a) {
        OnlyOnePartition(parts, a, i, n - 1);
      }
      InsidePartition(raw, parts, n - 1, memory, a, i);
    }
  }

  lemma {:induction false} OutsidePartitions(raw: seq<byte>, parts: seq<Partition>, n: nat, memory: Memory, a: int)
    requires n <= |parts| && forall p | p in parts :: p.offset + p.length <= |raw|
    requires forall i | 0 <= i < n :: !parts[i].Contains(a)
    ensures LoadPartitions(raw, parts, n, memory)(a) == ZeroSpans(parts, n, memory)(a) == memory(a)
  {
    if n > 0 {
      OutsidePartitions(raw, parts, n - 1, memory, a);
    }
  }

  lemma {:induction false} CopiedAt(segments: seq<Segment>, n: nat, memory: Memory, a: int)
    requires n <= |segments| && AllValid(segments)
    ensures CopySegments(segments, n, memory)(a) ==
            match LastLoaded(segments, n, a) case None => memory(a) case Some(v) => v
  {
    if n > 0 {
      assert segments[n - 1] in segments;
      CopiedAt(segments, n - 1, memory, a);
    }
  }

  lemma LoadedInside(raw: seq<byte>, parts: seq<Partition>, segments: seq<Segment>, i: nat, a: int)
    requires AllValid(segments) && Faithful(raw, parts, segments) && i < |parts| && parts[i].Contains(a)
    ensures parts[i].offset + a - parts[i].load < |raw|
    ensures LastLoaded(segments, |segments|, a) ==
            if CoveredBySome(segments, a) then Some(raw[parts[i].offset + a - parts[i].load]) else None
    ensures !CoveredBySome(segments, a) ==> raw[parts[i].offset + a - parts[i].load] == 0
  {
    LoadedIsStored(raw, parts, segments, i, a);
    assert TightlyFilled(raw, segments, parts[i]) by { assert parts[i] in parts; }
    assert CoveredBySome(segments, a) || Gap(segments, parts[i], a - parts[i].load);
  }

  lemma CoveredIsContained(raw: seq<byte>, parts: seq<Partition>, segments: seq<Segment>, a: int)
    requires AllValid(segments) && Faithful(raw, parts, segments) && CoveredBySome(segments, a)
    ensures exists i | 0 <= i < |parts| :: parts[i].Contains(a)
  {
    var s :| s in segments && s.Covers(a);
    assert Backed(raw, parts, s, a);
  }

  lemma LoadedOutside(raw: seq<byte>, parts: seq<Partition>, segments: seq<Segment>, a: int)
    requires AllValid(segments) && Faithful(raw, parts, segments)
    requires forall i | 0 <= i < |parts| :: !parts[i].Contains(a)
    ensures LastLoaded(segments, |segments|, a) == None
  {
    LastLoadedComesFrom(segments, |segments|, a);
    if CoveredBySome(segments, a) {
      CoveredIsContained(raw, parts, segments, a);
    } else {
      assert forall k | 0 <= k < |segments| :: segments[k] in segments;
    }
  }

  /** The audit's purpose: booting the packaged partitions leaves memory exactly as loading the executable into
      zeroed spans would, at every address and whatever memory held before. */
  lemma AcceptedImageLoadsTheExecutable(
      raw: seq<byte>, parts: seq<Partition>, segments: seq<Segment>, memory: Memory, a: int)
    requires AllValid(segments) && Faithful(raw, parts, segments)
    ensures LoadPartitions(raw, parts, |parts|, memory)(a) ==
            CopySegments(segments, |segments|, ZeroSpans(parts, |parts|, memory))(a)
  {
    hide Covering, LastLoaded, FullyBacked;
    CopiedAt(segments, |segments|, ZeroSpans(parts, |parts|, memory), a);
    if i: nat :| i < |parts| && parts[i].Contains(a) {
      InsidePartition(raw, parts, |parts|, memory, a, i);
      LoadedInside(raw, parts, segments, i, a);
    } else {
      OutsidePartitions(raw, parts, |parts|, memory, a);
      LoadedOutside(raw, parts, segments, a);
    }
  }

  /** Two segments of an accepted executable that load the same address load the same byte, from one partition. */
  lemma OverlappingSegmentsAgree(
      raw: seq<byte>, parts: seq<Partition>, segments: seq<Segment>, s: Segment, t: Segment, a: int)
    requires AllValid(segments) && Faithful(raw, parts, segments) && s in segments && t in segments
    requires s.Covers(a) && t.Covers(a)
    ensures s.data[a - s.paddr] == t.data[a - t.paddr]
    ensures exists i | 0 <= i < |parts| ::
        parts[i].Contains(a) && forall j | 0 <= j < |parts| && parts[j].Contains(a) :: j == i
  {
    assert Backed(raw, parts, s, a) && Backed(raw, parts, t, a);
    var i :| 0 <= i < |parts| && parts[i].Stores(raw, a, s.data[a - s.paddr]);
    var j :| 0 <= j < |parts| && parts[j].Stores(raw, a, t.data[a - t.paddr]);
    OnlyOnePartition(parts, a, i, j);
    forall k | 0 <= k < |parts| && parts[k].Contains(a)
      ensures k == i
    {
      OnlyOnePartition(parts, a, i, k);
    }
  }
}
