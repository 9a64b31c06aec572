/** The Zynq boot image: its linked list of image headers and its partition table. */
module BootImage {
  import opened Bytes
  import opened Extents
  import opened LoadImage
  import opened RawElf

  const HEADER_SIZE := 64
  const MAX_IMAGES := 32

  /** Partition-header offset to the name of the image that owns it. */
  type Names = map<int, seq<byte>>

  datatype ImageHeader = ImageHeader(at: nat, nextWords: nat, first: nat, count: nat, name: seq<byte>) {
    /** The offset of the `i`-th partition header this image claims. */
    function Claim(i: int): int {
      first + i * HEADER_SIZE
    }
  }

  /** The bytes of each 32-bit word in reverse order. */
  function WordSwapped(data: seq<byte>): (r: seq<byte>)
    requires |data| % 4 == 0
    ensures |r| == |data|
  {
    seq(|data|, k requires 0 <= k < |data| => data[k / 4 * 4 + 3 - k % 4])
  }

  function UntilZero(data: seq<byte>): (r: seq<byte>)
    ensures r <= data && 0 !in r && (r == data || data[|r|] == 0)
  {
    if data == [] || data[0] == 0 then [] else [data[0]] + UntilZero(data[1..])
  }

  function NameOf(encoded: seq<byte>): Option<seq<byte>>
    requires |encoded| % 4 == 0
  {
    var name := UntilZero(WordSwapped(encoded));
    if name == [] || exists b | b in name :: b >= 128 then None else Some(name)
  }

  /** A name written as Bootgen writes it, zero-padded and word-swapped, is read back unchanged. */
  lemma NameRoundTrip(name: seq<byte>, padded: seq<byte>)
    requires name != [] && 0 !in name && forall b | b in name :: b < 128
    requires |padded| % 4 == 0 && |name| < |padded| && name <= padded && padded[|name|] == 0
    ensures NameOf(WordSwapped(padded)) == Some(name)
  {
    var back := WordSwapped(WordSwapped(padded));
    forall k | 0 <= k < |padded|
      ensures back[k] == padded[k]
    {
      var j := k / 4 * 4 + 3 - k % 4;
      assert j / 4 == k / 4 && j % 4 == 3 - k % 4;
    }
    assert back == padded;
    UntilZeroOf(name, padded);
  }

  lemma {:induction false} UntilZeroOf(name: seq<byte>, padded: seq<byte>)
    requires 0 !in name && |name| < |padded| && name <= padded && padded[|name|] == 0
    ensures UntilZero(padded) == name
  {
    if name != [] {
      assert padded[0] == name[0] && name[0] in name;
      assert 0 !in name[1..] by { assert name == [name[0]] + name[1..]; }
      UntilZeroOf(name[1..], padded[1..]);
    }
  }

  function HeaderAt(raw: seq<byte>, at: nat, tableCount: nat): Option<ImageHeader> {
    if at + 16 > |raw| then None
    else
      var encoded := CheckedBytes(raw, at + 16, 112);
      if !(0 < U32(raw, at + 12) <= tableCount) || encoded.None? || NameOf(encoded.value).None? then None
      else Some(ImageHeader(at, U32(raw, at), U32(raw, at + 4) * 4, U32(raw, at + 12), NameOf(encoded.value).value))
  }

  /** The header table: where it starts and how many headers it has. */
  datatype Table = Table(start: nat, count: nat) {
    predicate Contains(offset: int) {
      start <= offset < start + count * HEADER_SIZE
    }

    function Header(i: int): int {
      start + i * HEADER_SIZE
    }

    predicate IsHeader(offset: int) {
      exists i | 0 <= i < count :: Header(i) == offset
    }

    predicate Aligned(offset: int) {
      (offset - start) % HEADER_SIZE == 0
    }
  }

  /** Record the first `n` claims of an image, refusing one that is taken or outside the table. */
  function Assign(names: Names, h: ImageHeader, n: nat, table: Table): Option<Names> {
    if n == 0 then Some(names)
    else
      var before := Assign(names, h, n - 1, table);
      if before.None? || h.Claim(n - 1) in before.value || !table.Contains(h.Claim(n - 1)) then None
      else Some(before.value[h.Claim(n - 1) := h.name])
  }

  /** The walk along the image headers. `32 - |seen|` shrinks at every step, so it ends on every input. */
  function Walk(raw: seq<byte>, words: nat, seen: set<nat>, names: Names, table: Table): Option<Names>
    decreases MAX_IMAGES - |seen|
  {
    if words == 0 then Some(names)
    else if words * 4 in seen || |seen| >= MAX_IMAGES then None
    else
      var h := HeaderAt(raw, words * 4, table.count);
      if h.None? then None
      else
        var names' := Assign(names, h.value, h.value.count, table);
        if names'.None? then None
        else Walk(raw, h.value.nextWords, seen + {words * 4}, names'.value, table)
  }

  /** Following the links from `words` gives exactly these headers, and ends. */
  ghost predicate IsChain(raw: seq<byte>, words: nat, chain: seq<ImageHeader>, tableCount: nat)
    decreases chain
  {
    if words == 0 then chain == []
    else chain != [] && HeaderAt(raw, words * 4, tableCount) == Some(chain[0])
         && IsChain(raw, chain[0].nextWords, chain[1..], tableCount)
  }

  function TotalClaims(chain: seq<ImageHeader>): nat {
    if chain == [] then 0 else chain[0].count + TotalClaims(chain[1..])
  }

  ghost predicate Claims(chain: seq<ImageHeader>, k: int, i: int, offset: int) {
    0 <= k < |chain| && 0 <= i < chain[k].count && chain[k].Claim(i) == offset
  }

  /** `after` is `before` with every offset the chain claims, each claimed once, inside the table, under its image's
      name. */
  ghost predicate Records(before: Names, chain: seq<ImageHeader>, table: Table, after: Names) {
    && |after| == |before| + TotalClaims(chain)
    && (forall o :: o in after <==> o in before || exists k, i :: Claims(chain, k, i, o))
    && (forall o | o in before :: after[o] == before[o])
    && (forall k, i, o | Claims(chain, k, i, o) ::
        o !in before && table.Contains(o) && o in after && after[o] == chain[k].name)
    && OneOwner(chain)
  }

  ghost predicate OneOwner(chain: seq<ImageHeader>) {
    forall k, i, l, j, o | Claims(chain, k, i, o) && Claims(chain, l, j, o) :: k == l && i == j
  }

  lemma {:induction false} AssignRecords(names: Names, h: ImageHeader, n: nat, table: Table)
    requires Assign(names, h, n, table).Some?
    ensures var r := Assign(names, h, n, table).value;
            && |r| == |names| + n
            && (forall o :: o in r <==> o in names || exists i | 0 <= i < n :: h.Claim(i) == o)
            && (forall o | o in names :: r[o] == names[o])
            && forall i | 0 <= i < n :: h.Claim(i) !in names && table.Contains(h.Claim(i)) && r[h.Claim(i)] == h.name
  {
    if n > 0 {
      AssignRecords(names, h, n - 1, table);
      var before := Assign(names, h, n - 1, table).value;
      assert forall i | 0 <= i < n - 1 :: h.Claim(i) in before;
    }
  }

  lemma ClaimsOfCons(h: ImageHeader, rest: seq<ImageHeader>, k: int, i: int, o: int)
    ensures Claims([h] + rest, k, i, o)
        <==> (k == 0 && 0 <= i < h.count && h.Claim(i) == o) || Claims(rest, k - 1, i, o)
  {
  }

  lemma RecordsCons(names: Names, h: ImageHeader, names': Names, rest: seq<ImageHeader>, table: Table, after: Names)
    requires Assign(names, h, h.count, table) == Some(names') && Records(names', rest, table, after)
    ensures Records(names, [h] + rest, table, after)
  {
    var chain := [h] + rest;
    AssignRecords(names, h, h.count, table);
    assert chain[1..] == rest;
    forall k, i, o | Claims(chain, k, i, o)
      ensures o !in names && table.Contains(o) && o in after && after[o] == chain[k].name
      ensures o in names' <==> k == 0
    {
      ClaimsOfCons(h, rest, k, i, o);
    }
    forall o
      ensures o in after <==> o in names || exists k, i :: Claims(chain, k, i, o)
    {
      if o in names' && o !in names {
        var i :| 0 <= i < h.count && h.Claim(i) == o;
        assert Claims(chain, 0, i, o);
      } else if o in after && o !in names {
        var k, i :| Claims(rest, k, i, o);
        assert Claims(chain, k + 1, i, o);
      }
    }
    forall k, i, l, j, o | Claims(chain, k, i, o) && Claims(chain, l, j, o)
      ensures k == l && i == j
    {
      ClaimsOfCons(h, rest, k, i, o);
      ClaimsOfCons(h, rest, l, j, o);
    }
  }

  /** An accepted walk visits distinct headers, ends, and gives every offset it records exactly one owner. */
  lemma {:induction false} WalkRecords(raw: seq<byte>, words: nat, seen: set<nat>, names: Names, table: Table)
    returns (chain: seq<ImageHeader>)
    requires Walk(raw, words, seen, names, table).Some?
    ensures IsChain(raw, words, chain, table.count)
    ensures forall k | 0 <= k < |chain| :: chain[k].at !in seen
    ensures forall k, l | 0 <= k < l < |chain| :: chain[k].at != chain[l].at
    ensures |chain| + |seen| <= MAX_IMAGES || chain == []
    ensures Records(names, chain, table, Walk(raw, words, seen, names, table).value)
    decreases MAX_IMAGES - |seen|
  {
    hide Assign, NameOf, CheckedBytes;
    if words == 0 {
      chain := [];
    } else {
      var h := HeaderAt(raw, words * 4, table.count).value;
      var names' := Assign(names, h, h.count, table).value;
      var rest := WalkRecords(raw, h.nextWords, seen + {words * 4}, names', table);
      RecordsCons(names, h, names', rest, table, Walk(raw, words, seen, names, table).value);
      chain := [h] + rest;
    }
  }

  /** Every claim of the chain lies in the table, is not recorded yet, and belongs to one image and place only. */
  ghost predicate Claimable(names: Names, chain: seq<ImageHeader>, table: Table) {
    && (forall k, i, o | Claims(chain, k, i, o) :: table.Contains(o) && o !in names)
    && OneOwner(chain)
  }

  ghost predicate DistinctHeaders(chain: seq<ImageHeader>) {
    forall k, l | 0 <= k < l < |chain| :: chain[k].at != chain[l].at
  }

  lemma {:induction false} FreshClaimsAreAssigned(names: Names, h: ImageHeader, n: nat, table: Table)
    requires forall i | 0 <= i < n :: table.Contains(h.Claim(i)) && h.Claim(i) !in names
    ensures Assign(names, h, n, table).Some?
    ensures var r := Assign(names, h, n, table).value;
            forall o | o in r :: o in names || exists i | 0 <= i < n :: h.Claim(i) == o
  {
    if n > 0 {
      FreshClaimsAreAssigned(names, h, n - 1, table);
    }
  }

  /** A chain of distinct, claimable headers that is short enough is walked to its end. */
  lemma {:induction false} ChainIsWalked(
      raw: seq<byte>, words: nat, seen: set<nat>, names: Names, table: Table, chain: seq<ImageHeader>)
    requires IsChain(raw, words, chain, table.count) && DistinctHeaders(chain) && Claimable(names, chain, table)
    requires |chain| + |seen| <= MAX_IMAGES && forall k | 0 <= k < |chain| :: chain[k].at !in seen
    ensures Walk(raw, words, seen, names, table).Some?
    decreases chain
  {
    hide Assign, NameOf, CheckedBytes;
    if words != 0 {
      var h, rest := chain[0], chain[1..];
      assert chain == [h] + rest;
      forall i | 0 <= i < h.count ensures table.Contains(h.Claim(i)) && h.Claim(i) !in names {
        assert Claims(chain, 0, i, h.Claim(i));
      }
      FreshClaimsAreAssigned(names, h, h.count, table);
      var names' := Assign(names, h, h.count, table).value;
      ClaimableRest(names, h, rest, names', table);
      ChainIsWalked(raw, h.nextWords, seen + {words * 4}, names', table, rest);
    }
  }

  lemma ClaimableRest(names: Names, h: ImageHeader, rest: seq<ImageHeader>, names': Names, table: Table)
    requires Claimable(names, [h] + rest, table)
    requires forall o | o in names' :: o in names || exists i | 0 <= i < h.count :: h.Claim(i) == o
    ensures Claimable(names', rest, table)
  {
    var chain := [h] + rest;
    forall k, i, o | Claims(rest, k, i, o)
      ensures Claims(chain, k + 1, i, o) && table.Contains(o) && o !in names'
    {
      ClaimsOfCons(h, rest, k + 1, i, o);
      assert Claims(chain, k + 1, i, o);
      if o in names' {
        var j :| 0 <= j < h.count && h.Claim(j) == o;
        assert Claims(chain, 0, j, o);
      }
    }
  }

  /** The image headers are accepted exactly when their links lead through at most 32 distinct headers to an end, and
      every claim lies in the table and has one owner. */
  lemma WalkAcceptsIff(raw: seq<byte>, words: nat, table: Table)
    ensures Walk(raw, words, {}, map[], table).Some? <==>
      exists chain :: IsChain(raw, words, chain, table.count) && |chain| <= 32 && DistinctHeaders(chain)
                      && Claimable(map[], chain, table)
  {
    hide HeaderAt, Assign, Walk;
    if Walk(raw, words, {}, map[], table).Some? {
      var chain := WalkRecords(raw, words, {}, map[], table);
      assert Claimable(map[], chain, table);
    }
    if chain :| IsChain(raw, words, chain, table.count) && |chain| <= 32 && DistinctHeaders(chain)
                && Claimable(map[], chain, table) {
      ChainIsWalked(raw, words, {}, map[], table, chain);
    }
  }

  /** The sum of `n` consecutive little-endian words. */
  function WordSum(raw: seq<byte>, at: nat, n: nat): nat
    requires at + 4 * n <= |raw|
  {
    if n == 0 then 0 else WordSum(raw, at, n - 1) + U32(raw, at + 4 * (n - 1))
  }

  /** Bootgen header checksums make the words sum to all ones, modulo 2^32. */
  predicate ChecksumHolds(raw: seq<byte>, at: nat, n: nat)
    requires at + 4 * n <= |raw|
  {
    WordSum(raw, at, n) % 0x1_0000_0000 == 0xFFFF_FFFF
  }

  function PartitionAt(raw: seq<byte>, table: Table, names: Names, i: nat): (r: Option<Partition>)
    requires i < table.count && table.start + table.count * HEADER_SIZE <= |raw|
  {
    var at := table.Header(i);
    var start, length := U32(raw, at + 20) * 4, U32(raw, at + 4) * 4;
    if !ChecksumHolds(raw, at, 16) then None
    else if !(U32(raw, at) == U32(raw, at + 4) == U32(raw, at + 8)) || U32(raw, at + 32) != 0
        || U32(raw, at + 40) != 0 then None
    else if length == 0 || at !in names then None
    else if CheckedBytes(raw, start, length).None? || start < table.start + table.count * HEADER_SIZE then None
    else Some(Partition(names[at], U32(raw, at + 12), U32(raw, at + 16), start, length, U32(raw, at + 24)))
  }

  function FileExtents(parts: seq<Partition>): (extents: seq<Extent<nat>>)
    ensures |extents| == |parts|
  {
    seq(|parts|, i requires 0 <= i < |parts| => Extent(parts[i].offset, parts[i].length, i))
  }

  /** The fixed boot header: its magic words and checksum, no encryption, and the table it points to. */
  function TableOf(raw: seq<byte>): (r: Option<(Table, nat)>)
    ensures r.Some? ==> |raw| >= 0xA0 && 1 <= r.value.0.count <= 32
                        && r.value.0.start + r.value.0.count * HEADER_SIZE <= |raw|
  {
    if |raw| < 0xA0 || U32(raw, 0x20) != 0xAA99_5566 || U32(raw, 0x24) != 0x584C_4E58
       || !ChecksumHolds(raw, 0x20, 11) || U32(raw, 0x28) != 0 then None
    else
      var iht, pht := U32(raw, 0x98), U32(raw, 0x9C);
      if iht + 16 > |raw| then None
      else
        var count := U32(raw, iht + 4);
        if U32(raw, iht) != 0x0102_0000 || U32(raw, iht + 8) * 4 != pht || !(1 <= count <= 32) then None
        else if CheckedBytes(raw, pht, count * HEADER_SIZE).None? then None
        else Some((Table(pht, count), U32(raw, iht + 12)))
  }

  /** The boot header's first-stage-loader fields repeat the first partition's. */
  predicate LoaderFieldsMatch(raw: seq<byte>, p: Partition)
    requires |raw| >= 0xA0
  {
    && U32(raw, 0x30) == p.offset && U32(raw, 0x34) == p.length && U32(raw, 0x38) == p.load
    && U32(raw, 0x3C) == p.entry && U32(raw, 0x40) == p.length
  }

  /** Everything `bootgen_partitions` accepts, with disjointness stated for every pair of payloads. */
  ghost predicate IsPartitionTable(raw: seq<byte>, parts: seq<Partition>) {
    var header := TableOf(raw);
    && header.Some?
    && var (table, words) := header.value;
       var names := Walk(raw, words, {}, map[], table);
       && names.Some?
       && |parts| == table.count
       && (forall i | 0 <= i < |parts| :: PartitionAt(raw, table, names.value, i) == Some(parts[i]))
       && PairwiseApart(FileExtents(parts))
       && LoaderFieldsMatch(raw, parts[0])
  }

  method AssignNames(names: Names, h: ImageHeader, table: Table) returns (r: Option<Names>)
    ensures r == Assign(names, h, h.count, table)
  {
    var current := names;
    for i := 0 to h.count
      invariant Assign(names, h, i, table) == Some(current)
    {
      var offset := h.Claim(i);
      if offset in current || !table.Contains(offset) {
        AssignStaysRefused(names, h, i + 1, h.count, table);
        return None;
      }
      current := current[offset := h.name];
    }
    r := Some(current);
  }

  lemma {:induction false} AssignStaysRefused(names: Names, h: ImageHeader, m: nat, n: nat, table: Table)
    requires m <= n && Assign(names, h, m, table).None?
    ensures Assign(names, h, n, table).None?
    decreases n - m
  {
    if m < n {
      AssignStaysRefused(names, h, m, n - 1, table);
    }
  }

  method WalkHeaders(raw: seq<byte>, words: nat, table: Table) returns (r: Option<Names>)
    ensures r == Walk(raw, words, {}, map[], table)
  {
    var next: nat, seen: set<nat>, names: Names := words, {}, map[];
    while next != 0
      invariant Walk(raw, words, {}, map[], table) == Walk(raw, next, seen, names, table)
      decreases MAX_IMAGES - |seen|
    {
      var at := next * 4;
      if at in seen || |seen| >= MAX_IMAGES {
        return None;
      }
      var h := HeaderAt(raw, at, table.count);
      if h.None? {
        return None;
      }
      var recorded := AssignNames(names, h.value, table);
      if recorded.None? {
        return None;
      }
      seen, names, next := seen + {at}, recorded.value, h.value.nextWords;
    }
    r := Some(names);
  }

  /** `bootgen_partitions`: the parser accepts exactly the well-formed partition tables. */
  method BootgenPartitions(raw: seq<byte>) returns (r: Option<seq<Partition>>)
    ensures r.Some? ==> IsPartitionTable(raw, r.value)
    ensures forall parts :: IsPartitionTable(raw, parts) ==> r == Some(parts)
  {
    hide Walk, PartitionAt, PairwiseApart, NeighboursApart, Sorted;
    var header := TableOf(raw);
    if header.None? {
      return None;
    }
    var (table, words) := header.value;
    var names := WalkHeaders(raw, words, table);
    if names.None? {
      return None;
    }
    var parts: seq<Partition> := [];
    for i := 0 to table.count
      invariant |parts| == i
      invariant forall j | 0 <= j < i :: PartitionAt(raw, table, names.value, j) == Some(parts[j])
    {
      var p := PartitionAt(raw, table, names.value, i);
      if p.None? {
        return None;
      }
      parts := parts + [p.value];
    }
    PartitionsArePositive(raw, table, names.value, parts);
    SortedNeighboursDecide(FileExtents(parts));
    assert forall other: seq<Partition> | IsPartitionTable(raw, other) :: other == parts;
    if !NeighboursApart(Sorted(FileExtents(parts))) || !LoaderFieldsMatch(raw, parts[0]) {
      return None;
    }
    r := Some(parts);
  }

  lemma PartitionsArePositive(raw: seq<byte>, table: Table, names: Names, parts: seq<Partition>)
    requires |parts| == table.count && table.start + table.count * HEADER_SIZE <= |raw|
    requires forall i | 0 <= i < |parts| :: PartitionAt(raw, table, names, i) == Some(parts[i])
    ensures AllPositive(FileExtents(parts))
  {
    var extents := FileExtents(parts);
    forall e | e in extents
      ensures e.length > 0
    {
      var i :| 0 <= i < |extents| && extents[i] == e;
      assert PartitionAt(raw, table, names, i) == Some(parts[i]);
    }
  }

  /** Every accepted payload lies in the file behind the partition table, and no two of them share a byte. */
  lemma PayloadsAreDisjoint(raw: seq<byte>, parts: seq<Partition>, i: nat, j: nat)
    requires IsPartitionTable(raw, parts) && i < |parts| && j < |parts|
    ensures var table := TableOf(raw).value.0;
            && table.start + table.count * HEADER_SIZE <= parts[i].offset < parts[i].offset + parts[i].length <= |raw|
            && parts[i].length % 4 == 0
    ensures i != j ==>
      parts[i].offset + parts[i].length <= parts[j].offset || parts[j].offset + parts[j].length <= parts[i].offset
  {
    hide Walk, TableOf;
    var (table, words) := TableOf(raw).value;
    PartitionInPlace(raw, table, Walk(raw, words, {}, map[], table).value, i, parts[i]);
    var extents := FileExtents(parts);
    assert i < j ==> Apart(extents[i], extents[j]);
    assert j < i ==> Apart(extents[j], extents[i]);
  }

  lemma PartitionInPlace(raw: seq<byte>, table: Table, names: Names, i: nat, p: Partition)
    requires i < table.count && table.start + table.count * HEADER_SIZE <= |raw|
    requires PartitionAt(raw, table, names, i) == Some(p)
    ensures table.start + table.count * HEADER_SIZE <= p.offset < p.offset + p.length <= |raw|
    ensures p.length % 4 == 0
    ensures table.Header(i) in names && p.image == names[table.Header(i)]
  {
    hide ChecksumHolds;
  }

  /** The image list of an accepted file is finite and free of repeats, and every partition header belongs to exactly
      one slot of exactly one image, whose name it carries. The slots are no more than the headers exactly when every
      image's first slot is aligned with the table, which is not checked. */
  lemma EveryHeaderHasOneImage(raw: seq<byte>, parts: seq<Partition>) returns (chain: seq<ImageHeader>)
    requires IsPartitionTable(raw, parts)
    ensures IsChain(raw, TableOf(raw).value.1, chain, |parts|)
    ensures |chain| <= MAX_IMAGES && forall k, l | 0 <= k < l < |chain| :: chain[k].at != chain[l].at
    ensures OneOwner(chain)
    ensures forall i | 0 <= i < |parts| :: Owned(chain, TableOf(raw).value.0.Header(i), parts[i].image)
    ensures TotalClaims(chain) >= |parts|
    ensures TotalClaims(chain) == |parts|
        <==> forall k | 0 <= k < |chain| :: TableOf(raw).value.0.Aligned(chain[k].first)
  {
    hide PartitionAt, TableOf, Walk, HeaderAt;
    var (table, words) := TableOf(raw).value;
    chain := WalkRecords(raw, words, {}, map[], table);
    var names := Walk(raw, words, {}, map[], table).value;
    forall i | 0 <= i < |parts|
      ensures table.Header(i) in names && Owned(chain, table.Header(i), parts[i].image)
    {
      PartitionInPlace(raw, table, names, i, parts[i]);
      var k, j :| Claims(chain, k, j, table.Header(i));
    }
    ChainCountsArePositive(raw, words, chain, table.count);
    CountClaims(chain, table, names);
  }

  /** Some slot of an image of this name claims the offset. */
  ghost predicate Owned(chain: seq<ImageHeader>, offset: int, name: seq<byte>) {
    exists k, i :: Claims(chain, k, i, offset) && chain[k].name == name
  }

  lemma {:induction false} ChainCountsArePositive(raw: seq<byte>, words: nat, chain: seq<ImageHeader>, tableCount: nat)
    requires IsChain(raw, words, chain, tableCount)
    ensures forall k | 0 <= k < |chain| :: chain[k].count > 0
    decreases chain
  {
    if words != 0 {
      ChainCountsArePositive(raw, chain[0].nextWords, chain[1..], tableCount);
    }
  }

  /** The claims fill the table exactly when every image's first claim is aligned with it. */
  lemma CountClaims(chain: seq<ImageHeader>, table: Table, names: Names)
    requires Records(map[], chain, table, names)
    requires forall i | 0 <= i < table.count :: table.Header(i) in names
    requires forall k | 0 <= k < |chain| :: chain[k].count > 0
    ensures TotalClaims(chain) >= table.count
    ensures TotalClaims(chain) == table.count <==> forall k | 0 <= k < |chain| :: table.Aligned(chain[k].first)
  {
    var headers := set i | 0 <= i < table.count :: table.Header(i);
    HeaderCount(table, table.count);
    Cardinality(headers, names.Keys);
    if TotalClaims(chain) == table.count {
      forall k | 0 <= k < |chain|
        ensures table.Aligned(chain[k].first)
      {
        assert Claims(chain, k, 0, chain[k].first);
        assert chain[k].first in headers;
        HeaderIsAligned(table, chain[k].first);
      }
    }
    if forall k | 0 <= k < |chain| :: table.Aligned(chain[k].first) {
      forall o | o in names
        ensures o in headers
      {
        var k, i :| Claims(chain, k, i, o);
        AlignedClaim(table, chain[k].first, i, o);
        HeaderIsAligned(table, o);
      }
      assert names.Keys == headers;
    }
  }

  lemma {:induction false} HeaderCount(table: Table, n: nat)
    ensures |set i | 0 <= i < n :: table.Header(i)| == n
  {
    var now := set i | 0 <= i < n :: table.Header(i);
    if n > 0 {
      var before := set i | 0 <= i < n - 1 :: table.Header(i);
      HeaderCount(table, n - 1);
      assert now == before + {table.Header(n - 1)};
    }
  }

  lemma HeaderIsAligned(table: Table, offset: int)
    requires table.Contains(offset)
    ensures table.IsHeader(offset) <==> table.Aligned(offset)
  {
    if table.Aligned(offset) {
      assert table.Header((offset - table.start) / HEADER_SIZE) == offset;
    }
  }

  lemma AlignedClaim(table: Table, first: int, i: int, o: int)
    requires table.Aligned(first) && o == first + i * HEADER_SIZE
    ensures table.Aligned(o)
  {
  }

  lemma Cardinality<T>(a: set<T>, b: set<T>)
    requires a <= b
    ensures |a| <= |b| && (|a| == |b| ==> a == b)
  {
    var rest := b - a;
    assert b == a + rest;
    assert |b| == |a| + |rest|;
  }
}
