/** The boot image as its writer lays it out, word by word, and the parser as the exact inverse of that writer. */
module BootLayout {
  import opened Bytes
  import opened Extents
  import opened LoadImage
  import opened RawElf
  import opened BootImage
  import opened Words

  function Total(words: seq<int>): int {
    if words == [] then 0 else Total(words[..|words| - 1]) + words[|words| - 1]
  }

  /** The last word that completes a checksummed header. */
  function Completed(words: seq<int>): seq<int> {
    words + [(0xFFFF_FFFF - Total(words)) % 0x1_0000_0000]
  }

  lemma {:induction false} TotalIsWordSum(raw: seq<byte>, at: nat, n: nat)
    requires at + 4 * n <= |raw|
    ensures Total(WordsAt(raw, at, n)) == WordSum(raw, at, n)
  {
    hide U32;
    if n > 0 {
      TotalIsWordSum(raw, at, n - 1);
      assert WordsAt(raw, at, n)[..n - 1] == WordsAt(raw, at, n - 1);
    }
  }

  /** A checksum holds exactly for a header whose last word completes it. */
  lemma ChecksumIff(raw: seq<byte>, at: nat, n: nat)
    requires n > 0 && at + 4 * n <= |raw|
    ensures ChecksumHolds(raw, at, n) <==> WordsAt(raw, at, n) == Completed(WordsAt(raw, at, n)[..n - 1])
  {
    var words := WordsAt(raw, at, n);
    TotalIsWordSum(raw, at, n);
    CompletionIsUnique(Total(words[..n - 1]), words[n - 1]);
    assert words == words[..n - 1] + [words[n - 1]];
    hide U32;
  }

  lemma CompletionIsUnique(sum: int, last: int)
    requires 0 <= last <= MAX_U32
    ensures (sum + last) % 0x1_0000_0000 == 0xFFFF_FFFF <==> last == (0xFFFF_FFFF - sum) % 0x1_0000_0000
  {
  }

  // ----- partition headers -----

  /** A partition header as it is written: the length three times, load address, entry address, position, attributes,
      and a last word that completes the sum. Six words between are free, two are zero. */
  function PartitionWords(p: Partition, free: seq<int>): seq<int>
    requires |free| == 6
  {
    Completed([p.length / 4, p.length / 4, p.length / 4, p.load, p.entry, p.offset / 4, p.attributes, free[0],
               0, free[1], 0, free[2], free[3], free[4], free[5]])
  }

  ghost predicate PartitionStands(raw: seq<byte>, at: int, p: Partition) {
    && p.length % 4 == 0 && p.offset % 4 == 0
    && exists free: seq<int> | |free| == 6 :: AllStand(raw, at, PartitionWords(p, free))
  }

  /** The fields of partition `p` as the parser compares them. */
  predicate FieldsMatch(w: seq<int>, p: Partition)
    requires |w| == 16
  {
    && w[0] == w[1] == w[2] && w[8] == 0 && w[10] == 0
    && p.length == w[1] * 4 && p.offset == w[5] * 4 && p.load == w[3] && p.entry == w[4] && p.attributes == w[6]
  }

  lemma FieldsMatchIff(w: seq<int>, p: Partition)
    requires |w| == 16
    ensures FieldsMatch(w, p) && w == Completed(w[..15]) <==>
      p.length % 4 == 0 && p.offset % 4 == 0 && w == PartitionWords(p, [w[7], w[9], w[11], w[12], w[13], w[14]])
  {
    hide Total;
    var free := [w[7], w[9], w[11], w[12], w[13], w[14]];
    if FieldsMatch(w, p) && w == Completed(w[..15]) {
      assert w[..15] == PartitionWords(p, free)[..15];
    }
    if p.length % 4 == 0 && p.offset % 4 == 0 && w == PartitionWords(p, free) {
      assert w[..15] == PartitionWords(p, free)[..15];
    }
  }

  lemma FreeWords(p: Partition, free: seq<int>)
    requires |free| == 6
    ensures var w := PartitionWords(p, free); |w| == 16 && free == [w[7], w[9], w[11], w[12], w[13], w[14]]
  {
  }

  lemma PartitionStandsIff(raw: seq<byte>, at: nat, p: Partition)
    requires at + 64 <= |raw|
    ensures PartitionStands(raw, at, p) <==> ChecksumHolds(raw, at, 16) && FieldsMatch(WordsAt(raw, at, 16), p)
  {
    hide AllStand, ChecksumHolds, FieldsMatch, PartitionWords, Completed, U32, WordsAt;
    var w := WordsAt(raw, at, 16);
    ChecksumIff(raw, at, 16);
    FieldsMatchIff(w, p);
    if free: seq<int> :| |free| == 6 && AllStand(raw, at, PartitionWords(p, free)) {
      FreeWords(p, free);
      AllStandIff(raw, at, PartitionWords(p, free));
    }
    var mine := [w[7], w[9], w[11], w[12], w[13], w[14]];
    FreeWords(p, mine);
    AllStandIff(raw, at, PartitionWords(p, mine));
  }

  /** The parser accepts a partition header, as partition `p`, exactly when it is one written for `p`, its payload lies
      in the file behind the table, and its image is known. */
  lemma PartitionIsWritten(raw: seq<byte>, table: Table, names: Names, i: nat, p: Partition)
    requires i < table.count && table.start + table.count * HEADER_SIZE <= |raw|
    ensures PartitionAt(raw, table, names, i) == Some(p) <==>
      && PartitionStands(raw, table.Header(i), p)
      && p.length > 0 && table.start + table.count * HEADER_SIZE <= p.offset && p.offset + p.length <= |raw|
      && table.Header(i) in names && p.image == names[table.Header(i)]
  {
    hide ChecksumHolds, PartitionStands, U32;
    PartitionStandsIff(raw, table.Header(i), p);
  }

  // ----- image headers -----

  /** An image header as it is written: the next header, the first partition header, a free word, the number of
      partitions, all positions in words; then 112 bytes of name. */
  ghost predicate ImageStands(raw: seq<byte>, h: ImageHeader) {
    && h.first % 4 == 0 && h.at + 128 <= |raw|
    && (exists free :: AllStand(raw, h.at, [h.nextWords, h.first / 4, free, h.count]))
    && NameOf(raw[h.at + 16..h.at + 128]) == Some(h.name)
  }

  /** The parser reads an image header exactly as written. */
  lemma ImageIsWritten(raw: seq<byte>, at: nat, tableCount: nat, h: ImageHeader)
    ensures HeaderAt(raw, at, tableCount) == Some(h) <==> h.at == at && 0 < h.count <= tableCount && ImageStands(raw, h)
  {
    hide AllStand, U32, NameOf;
    if at + 128 <= |raw| {
      NameSlice(raw, at);
      FourWords(raw, at, h.nextWords, h.first / 4, U32(raw, at + 8), h.count);
      if h.at == at && ImageStands(raw, h) {
        var free :| AllStand(raw, at, [h.nextWords, h.first / 4, free, h.count]);
        FourWords(raw, at, h.nextWords, h.first / 4, free, h.count);
      }
    }
  }

  lemma NameSlice(raw: seq<byte>, at: nat)
    requires at + 128 <= |raw|
    ensures CheckedBytes(raw, at + 16, 112) == Some(raw[at + 16..at + 128])
  {
  }

  /** Each word of a name has its bytes reversed. */
  lemma WordIsReversed(a: byte, b: byte, c: byte, d: byte, rest: seq<byte>)
    requires |rest| % 4 == 0
    ensures WordSwapped([a, b, c, d] + rest) == [d, c, b, a] + WordSwapped(rest)
  {
    var data := [a, b, c, d] + rest;
    forall k | 4 <= k < |data|
      ensures WordSwapped(data)[k] == WordSwapped(rest)[k - 4]
    {
      assert (k - 4) / 4 == k / 4 - 1 && (k - 4) % 4 == k % 4;
    }
  }

  /** A name is what stands before the first zero byte, in reading order; it is ASCII and not empty. */
  lemma NameIsRead(encoded: seq<byte>, name: seq<byte>)
    requires |encoded| % 4 == 0
    ensures NameOf(encoded) == Some(name) <==>
      && name != [] && 0 !in name && (forall b | b in name :: b < 128)
      && name <= WordSwapped(encoded) && (name == WordSwapped(encoded) || WordSwapped(encoded)[|name|] == 0)
  {
    hide WordSwapped;
    var text := WordSwapped(encoded);
    if 0 !in name && name <= text && name != text && text[|name|] == 0 {
      UntilZeroOf(name, text);
    } else if name == text && 0 !in name {
      WholeUntilZero(name);
    }
  }

  lemma {:induction false} WholeUntilZero(name: seq<byte>)
    requires 0 !in name
    ensures UntilZero(name) == name
  {
    if name != [] {
      assert name[0] in name && name == [name[0]] + name[1..];
      WholeUntilZero(name[1..]);
    }
  }

  // ----- the fixed headers -----

  /** The boot header's words from 0x20 on: two magic words, encryption off, a free word, the first-stage loader's
      position, size, load and entry address and size again, another free word, and the word that completes the sum. */
  function BootWords(loader: seq<int>, free: seq<int>): seq<int>
    requires |loader| == 5 && |free| == 2
  {
    Completed([0xAA99_5566, 0x584C_4E58, 0, free[0]] + loader + [free[1]])
  }

  lemma BootWordsIff(w: seq<int>, loader: seq<int>)
    requires |w| == 11 && |loader| == 5
    ensures w[0] == 0xAA99_5566 && w[1] == 0x584C_4E58 && w[2] == 0 && w[4..9] == loader && w == Completed(w[..10])
            <==> w == BootWords(loader, [w[3], w[9]])
  {
    hide Total;
    var inner := [0xAA99_5566, 0x584C_4E58, 0, w[3]] + loader + [w[9]];
    assert inner[4..9] == loader;
    if w[0] == 0xAA99_5566 && w[1] == 0x584C_4E58 && w[2] == 0 && w[4..9] == loader {
      assert forall k | 4 <= k < 9 :: w[k] == w[4..9][k - 4];
      assert w[..10] == inner;
    }
    if w == BootWords(loader, [w[3], w[9]]) {
      assert w[..10] == inner;
      assert w[4..9] == w[..10][4..9];
    }
  }

  lemma FreeBootWords(loader: seq<int>, free: seq<int>)
    requires |loader| == 5 && |free| == 2
    ensures var w := BootWords(loader, free); |w| == 11 && free == [w[3], w[9]]
  {
  }

  lemma BootHeaderIff(raw: seq<byte>, loader: seq<int>)
    requires |raw| >= 0xA0 && |loader| == 5
    ensures (exists free: seq<int> | |free| == 2 :: AllStand(raw, 0x20, BootWords(loader, free))) <==>
      var w := WordsAt(raw, 0x20, 11);
      && ChecksumHolds(raw, 0x20, 11) && w[0] == 0xAA99_5566 && w[1] == 0x584C_4E58 && w[2] == 0 && w[4..9] == loader
  {
    hide AllStand, ChecksumHolds, BootWords, Completed, U32, WordsAt;
    var w := WordsAt(raw, 0x20, 11);
    ChecksumIff(raw, 0x20, 11);
    BootWordsIff(w, loader);
    if free: seq<int> :| |free| == 2 && AllStand(raw, 0x20, BootWords(loader, free)) {
      FreeBootWords(loader, free);
      AllStandIff(raw, 0x20, BootWords(loader, free));
    }
    FreeBootWords(loader, [w[3], w[9]]);
    AllStandIff(raw, 0x20, BootWords(loader, [w[3], w[9]]));
  }

  /** The five words the boot header keeps for the first-stage loader. */
  function LoaderWords(raw: seq<byte>): seq<int>
    requires |raw| >= 0xA0
  {
    WordsAt(raw, 0x30, 5)
  }

  lemma LoaderWordsInHeader(raw: seq<byte>)
    requires |raw| >= 0xA0
    ensures WordsAt(raw, 0x20, 11)[4..9] == LoaderWords(raw)
  {
    hide U32;
  }

  /** The parser finds a table exactly where a boot header and an image header table written for it say. */
  lemma TableIsWritten(raw: seq<byte>, table: Table, words: nat)
    ensures TableOf(raw) == Some((table, words)) <==>
      && table.start % 4 == 0 && 1 <= table.count <= 32 && table.start + table.count * HEADER_SIZE <= |raw|
      && exists loader: seq<int>, iht | |loader| == 5 :: FixedHeadersStand(raw, loader, iht, table, words)
  {
    if |raw| >= 0xA0 {
      var iht := U32(raw, 0x98);
      LoaderWordsInHeader(raw);
      StandsIff(raw, 0x98, iht);
      StandsIff(raw, 0x9C, table.start);
      hide AllStand, ChecksumHolds, BootWords, U32, Stands;
      BootHeaderIff(raw, LoaderWords(raw));
      HeaderWordsAre(raw);
      if iht + 16 <= |raw| {
        FourWords(raw, iht, 0x0102_0000, table.count, table.start / 4, words);
      }
      if loader: seq<int>, i :| |loader| == 5 && FixedHeadersStand(raw, loader, i, table, words) {
        BootHeaderIff(raw, loader);
        StandsIff(raw, 0x98, i);
        TableEntriesFit(raw, i, table, words);
      }
      if TableOf(raw) == Some((table, words)) {
        assert FixedHeadersStand(raw, LoaderWords(raw), iht, table, words);
      }
    }
  }

  ghost predicate FixedHeadersStand(raw: seq<byte>, loader: seq<int>, iht: int, table: Table, words: nat)
    requires |loader| == 5
  {
    && (exists free: seq<int> | |free| == 2 :: AllStand(raw, 0x20, BootWords(loader, free)))
    && Stands(raw, 0x98, iht) && Stands(raw, 0x9C, table.start)
    && AllStand(raw, iht, [0x0102_0000, table.count, table.start / 4, words])
  }

  lemma HeaderWordsAre(raw: seq<byte>)
    requires |raw| >= 0xA0
    ensures var w := WordsAt(raw, 0x20, 11); w[0] == U32(raw, 0x20) && w[1] == U32(raw, 0x24) && w[2] == U32(raw, 0x28)
  {
  }

  lemma TableEntriesFit(raw: seq<byte>, iht: int, table: Table, words: nat)
    requires AllStand(raw, iht, [0x0102_0000, table.count, table.start / 4, words])
    ensures 0 <= iht && iht + 16 <= |raw|
  {
    var w := [0x0102_0000, table.count, table.start / 4, words];
    assert Stands(raw, iht + 4 * 0, w[0]) && Stands(raw, iht + 4 * 3, w[3]);
  }

  /** And the loader's fields repeat the first partition exactly when the boot header holds its words. */
  lemma LoaderIsWritten(raw: seq<byte>, p: Partition)
    requires |raw| >= 0xA0
    ensures LoaderFieldsMatch(raw, p) <==> LoaderWords(raw) == [p.offset, p.length, p.load, p.entry, p.length]
  {
    hide U32;
    var w, q: seq<int> := LoaderWords(raw), [p.offset, p.length, p.load, p.entry, p.length];
    assert w == [U32(raw, 0x30), U32(raw, 0x34), U32(raw, 0x38), U32(raw, 0x3C), U32(raw, 0x40)];
    if LoaderFieldsMatch(raw, p) {
      assert w == q;
    }
    if w == q {
      assert w[0] == q[0] && w[1] == q[1] && w[2] == q[2] && w[3] == q[3] && w[4] == q[4];
    }
  }

  /** So every partition of an accepted image stands in its table as written for it, and the first one also in the boot
      header. */
  lemma AcceptedIsWritten(raw: seq<byte>, parts: seq<Partition>)
    requires IsPartitionTable(raw, parts)
    ensures var (table, words) := TableOf(raw).value;
            && |raw| >= 0xA0 && |parts| == table.count
            && (forall i | 0 <= i < |parts| :: PartitionStands(raw, table.start + i * HEADER_SIZE, parts[i]))
            && AllStand(raw, 0x30, [parts[0].offset, parts[0].length, parts[0].load, parts[0].entry, parts[0].length])
  {
    hide PartitionStands, AllStand, TableOf, Walk, PartitionAt, LoaderFieldsMatch;
    var (table, words) := TableOf(raw).value;
    var names := Walk(raw, words, {}, map[], table).value;
    forall i | 0 <= i < |parts| ensures PartitionStands(raw, table.start + i * HEADER_SIZE, parts[i]) {
      PartitionIsWritten(raw, table, names, i, parts[i]);
    }
    var p := parts[0];
    LoaderIsWritten(raw, p);
    AllStandIff(raw, 0x30, [p.offset, p.length, p.load, p.entry, p.length]);
  }
}
