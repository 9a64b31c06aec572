/** The executable as a linker lays it out, and the parser as the exact inverse of that layout. */
module ElfLayout {
  import opened Bytes
  import opened Extents
  import opened LoadImage
  import opened RawElf
  import opened Words

  // ----- the file header -----

  /** Where a file header puts the entry address and the two tables. */
  datatype Header = Header(entry: int, phoff: nat, shoff: nat, phsize: nat, phnum: nat, shsize: nat, shnum: nat)

  /** The bytes of an ASCII text. */
  function Spelled(text: string): (s: seq<byte>)
    requires forall k | 0 <= k < |text| :: text[k] < 128 as char
    ensures |s| == |text|
  {
    seq(|text|, k requires 0 <= k < |text| => text[k] as byte)
  }

  /** The header of a 32-bit little-endian executable for ARM. */
  predicate HeaderStands(data: seq<byte>, h: Header) {
    && |data| >= 52 && data[0] == 127 && data[1..4] == Spelled("ELF") && data[4] == data[5] == data[6] == 1
    && HalfStands(data, 16, 2) && HalfStands(data, 18, 40)
    && Stands(data, 24, h.entry) && Stands(data, 28, h.phoff) && Stands(data, 32, h.shoff)
    && HalfStands(data, 42, h.phsize) && HalfStands(data, 44, h.phnum)
    && HalfStands(data, 46, h.shsize) && HalfStands(data, 48, h.shnum)
  }

  /** The tables lie in the file, neither is empty, and their entries are large enough. */
  predicate TablesLieInside(data: seq<byte>, h: Header) {
    && h.phsize >= 32 && 0 < h.phnum < 1024 && h.phoff + h.phsize * h.phnum <= |data|
    && h.shsize >= 40 && 0 < h.shnum && h.shoff + h.shsize * h.shnum <= |data|
  }

  /** The file as a linker writes it for `elf`: such a header, the tables inside the file, `elf`'s segments in the
      program table, some of them with file bytes, and its sections in the section table, with readable symbols. */
  ghost predicate ElfStands(data: seq<byte>, elf: Elf, h: Header) {
    && HeaderStands(data, h) && h.entry == elf.entry && TablesLieInside(data, h)
    && SegmentsStand(data, h.phoff, h.phsize, h.phnum, elf.segments)
    && (exists s | s in elf.segments :: s.filesz > 0)
    && SectionsStand(data, h.shoff, h.shsize, h.shnum, elf.sections)
    && forall s | s in elf.sections :: SymbolsStand(data, elf.sections, s)
  }

  /** The parser accepts a file, as `elf`, exactly when it is one written for `elf`. */
  lemma ElfIsWritten(data: seq<byte>, elf: Elf)
    ensures IsElf(data, elf) <==> exists h :: ElfStands(data, elf, h)
  {
    hide AllSymbolsReadable, LoadHeaders, SectionTable, SegmentsStand, SectionsStand, SymbolsStand;
    if |data| >= 52 {
      var h := HeaderOf(data);
      HeaderIsRead(data, h);
      forall g | HeaderStands(data, g) ensures g == h {
        HeaderIsRead(data, g);
      }
      hide U32, U16, HeaderStands, IsArmExecutable;
      assert IsElf(data, elf) ==> TablesLieInside(data, h);
      if TablesLieInside(data, h) {
        SegmentsAreWritten(data, h.phoff, h.phsize, h.phnum, elf.segments);
        SectionsAreWritten(data, h.shoff, h.shsize, h.shnum, elf.sections);
        SymbolsAreWritten(data, elf.sections);
      }
      assert IsElf(data, elf) <==> ElfStands(data, elf, h);
    }
  }

  function HeaderOf(data: seq<byte>): Header
    requires |data| >= 52
  {
    Header(U32(data, 24), U32(data, 28), U32(data, 32), U16(data, 42), U16(data, 44), U16(data, 46), U16(data, 48))
  }

  lemma HeaderIsRead(data: seq<byte>, h: Header)
    requires |data| >= 52
    ensures HeaderStands(data, h) <==> (IsArmExecutable(data) && h == HeaderOf(data))
  {
    StandsIff(data, 24, h.entry);
    StandsIff(data, 28, h.phoff);
    StandsIff(data, 32, h.shoff);
    HalfStandsIff(data, 16, 2);
    HalfStandsIff(data, 18, 40);
    HalfStandsIff(data, 42, h.phsize);
    HalfStandsIff(data, 44, h.phnum);
    HalfStandsIff(data, 46, h.shsize);
    HalfStandsIff(data, 48, h.shnum);
    hide Stands, HalfStands, U32, U16;
    assert Spelled("ELF") == [69, 76, 70];
    assert data[..7] == [data[0]] + data[1..4] + [data[4], data[5], data[6]];
    if data[..7] == [0x7F, 0x45, 0x4C, 0x46, 1, 1, 1] {
      assert data[1..4] == data[..7][1..4];
      assert data[0] == data[..7][0] && data[4] == data[..7][4] && data[5] == data[..7][5] && data[6] == data[..7][6];
    }
  }

  // ----- table entries -----

  /** A program header of a segment to be loaded: its type is 1, then the position of its bytes, both addresses, its
      size in the file and its size in memory. */
  ghost predicate SegmentStands(data: seq<byte>, at: int, s: Segment) {
    exists offset: nat ::
      && AllStand(data, at, [1, offset, s.vaddr, s.paddr, s.filesz, s.memsz])
      && offset + s.filesz <= |data| && s.data == data[offset..offset + s.filesz]
  }

  /** A program header is read as the segment `s` exactly when it is one written for `s`, the segment's file bytes do
      not exceed its memory, and it ends within 4 GiB. */
  lemma SegmentIsWritten(data: seq<byte>, at: nat, s: Segment)
    requires at + 32 <= |data|
    ensures IsLoadHeader(data, at) && LoadHeader(data, at) == Some(s)
            <==> SegmentStands(data, at, s) && EndsBelow4G(s)
  {
    var found := U32(data, at + 4);
    SixWords(data, at, [1, found, s.vaddr, s.paddr, s.filesz, s.memsz]);
    forall offset: nat | AllStand(data, at, [1, offset, s.vaddr, s.paddr, s.filesz, s.memsz]) ensures offset == found {
      SixWords(data, at, [1, offset, s.vaddr, s.paddr, s.filesz, s.memsz]);
    }
    hide AllStand, U32;
  }

  /** The entries at `places`, in rising order, are exactly the load headers of the table, and the segments stand there.
      */
  ghost predicate SegmentsStandAt(
      data: seq<byte>, table: nat, entrySize: nat, n: nat, segments: seq<Segment>, places: seq<int>)
  {
    && |places| == |segments|
    && (forall k | 0 <= k < |places| :: 0 <= places[k] < n)
    && (forall j, k | 0 <= j < k < |places| :: places[j] < places[k])
    && (forall i: nat | i < n :: i in places <==> Stands(data, table + entrySize * i, 1))
    && forall k | 0 <= k < |segments| ::
         && SegmentStands(data, table + entrySize * places[k], segments[k])
         && EndsBelow4G(segments[k])
  }

  ghost predicate SegmentsStand(data: seq<byte>, table: nat, entrySize: nat, n: nat, segments: seq<Segment>) {
    exists places :: SegmentsStandAt(data, table, entrySize, n, segments, places)
  }

  lemma {:induction false} SegmentsAreWritten(
      data: seq<byte>, table: nat, entrySize: nat, n: nat, segments: seq<Segment>)
    requires entrySize >= 32 && table + entrySize * n <= |data|
    ensures LoadHeaders(data, table, entrySize, n) == Some(segments)
            <==> SegmentsStand(data, table, entrySize, n, segments)
  {
    hide LoadHeader, IsLoadHeader, SegmentStands, SegmentsStandAt, Stands;
    if n == 0 {
      NoHeaders(data, table, entrySize, segments);
    } else {
      TableEntryFits(data, table, entrySize, n - 1, n);
      var at := table + entrySize * (n - 1);
      LoadType(data, at);
      if !IsLoadHeader(data, at) {
        SegmentsAreWritten(data, table, entrySize, n - 1, segments);
        assert LoadHeaders(data, table, entrySize, n) == LoadHeaders(data, table, entrySize, n - 1);
        OtherHeader(data, table, entrySize, n, segments);
      } else {
        SomeHeader(data, table, entrySize, n, segments);
        if segments != [] {
          var last := |segments| - 1;
          SegmentsAreWritten(data, table, entrySize, n - 1, segments[..last]);
          SegmentIsWritten(data, at, segments[last]);
          LastHeader(data, table, entrySize, n, segments[..last], segments[last]);
          assert segments == segments[..last] + [segments[last]];
        }
      }
    }
  }

  lemma NoHeaders(data: seq<byte>, table: nat, entrySize: nat, segments: seq<Segment>)
    ensures SegmentsStand(data, table, entrySize, 0, segments) <==> segments == []
  {
    hide SegmentStands, Stands;
    assert SegmentsStandAt(data, table, entrySize, 0, [], []);
    HeadersForSegments(data, table, entrySize, 0, segments);
  }

  lemma HeadersForSegments(data: seq<byte>, table: nat, entrySize: nat, n: nat, segments: seq<Segment>)
    ensures SegmentsStand(data, table, entrySize, n, segments) && segments != [] ==> n > 0
  {
    hide SegmentStands, Stands;
    if segments != [] && SegmentsStand(data, table, entrySize, n, segments) {
      var places :| SegmentsStandAt(data, table, entrySize, n, segments, places);
      assert 0 <= places[0] < n;
    }
  }

  lemma SomeHeader(data: seq<byte>, table: nat, entrySize: nat, n: nat, segments: seq<Segment>)
    requires n > 0 && Stands(data, table + entrySize * (n - 1), 1)
    ensures SegmentsStand(data, table, entrySize, n, segments) ==> segments != []
  {
    hide SegmentStands, Stands;
    if places :| SegmentsStandAt(data, table, entrySize, n, segments, places) {
      assert n - 1 in places;
    }
  }

  lemma LoadType(data: seq<byte>, at: nat)
    requires at + 32 <= |data|
    ensures IsLoadHeader(data, at) <==> Stands(data, at, 1)
  {
    StandsIff(data, at, 1);
  }

  lemma OtherHeader(data: seq<byte>, table: nat, entrySize: nat, n: nat, segments: seq<Segment>)
    requires n > 0 && !Stands(data, table + entrySize * (n - 1), 1)
    ensures SegmentsStand(data, table, entrySize, n, segments)
            <==> SegmentsStand(data, table, entrySize, n - 1, segments)
  {
    hide SegmentStands, Stands;
    if places :| SegmentsStandAt(data, table, entrySize, n, segments, places) {
      assert n - 1 !in places;
      assert forall k | 0 <= k < |places| :: places[k] in places;
      assert SegmentsStandAt(data, table, entrySize, n - 1, segments, places);
    }
    if SegmentsStand(data, table, entrySize, n - 1, segments) {
      var places :| SegmentsStandAt(data, table, entrySize, n - 1, segments, places);
      assert n - 1 !in places;
      assert SegmentsStandAt(data, table, entrySize, n, segments, places);
    }
  }

  lemma LastHeader(data: seq<byte>, table: nat, entrySize: nat, n: nat, segments: seq<Segment>, s: Segment)
    requires n > 0 && Stands(data, table + entrySize * (n - 1), 1)
    ensures SegmentsStand(data, table, entrySize, n, segments + [s]) <==>
      && SegmentsStand(data, table, entrySize, n - 1, segments)
      && SegmentStands(data, table + entrySize * (n - 1), s) && EndsBelow4G(s)
  {
    hide SegmentStands, Stands, SegmentsStandAt, EndsBelow4G;
    if places :| SegmentsStandAt(data, table, entrySize, n, segments + [s], places) {
      OneHeaderLess(data, table, entrySize, n, segments, s, places);
    }
    if SegmentsStand(data, table, entrySize, n - 1, segments)
       && SegmentStands(data, table + entrySize * (n - 1), s) && EndsBelow4G(s) {
      var was :| SegmentsStandAt(data, table, entrySize, n - 1, segments, was);
      OneHeaderMore(data, table, entrySize, n, segments, s, was);
    }
  }

  predicate EndsBelow4G(s: Segment) {
    s.filesz <= s.memsz && s.paddr + s.memsz <= 0x1_0000_0000
  }

  lemma OneHeaderMore(
      data: seq<byte>, table: nat, entrySize: nat, n: nat, segments: seq<Segment>, s: Segment, places: seq<int>)
    requires n > 0 && Stands(data, table + entrySize * (n - 1), 1)
    requires SegmentStands(data, table + entrySize * (n - 1), s) && EndsBelow4G(s)
    requires SegmentsStandAt(data, table, entrySize, n - 1, segments, places)
    ensures SegmentsStandAt(data, table, entrySize, n, segments + [s], places + [n - 1])
  {
    hide SegmentStands, Stands, EndsBelow4G;
    var longer := places + [n - 1];
    forall i: nat | i < n ensures i in longer <==> Stands(data, table + entrySize * i, 1) {
      assert i in longer <==> i in places || i == n - 1;
    }
  }

  lemma OneHeaderLess(
      data: seq<byte>, table: nat, entrySize: nat, n: nat, segments: seq<Segment>, s: Segment, places: seq<int>)
    requires n > 0 && Stands(data, table + entrySize * (n - 1), 1)
    requires SegmentsStandAt(data, table, entrySize, n, segments + [s], places)
    ensures |places| == |segments| + 1
    ensures SegmentStands(data, table + entrySize * (n - 1), s) && EndsBelow4G(s)
    ensures SegmentsStandAt(data, table, entrySize, n - 1, segments, places[..|segments|])
  {
    hide SegmentStands, Stands, EndsBelow4G;
    var all, last := segments + [s], |segments|;
    assert n - 1 in places;
    assert places[last] == n - 1 && all[last] == s;
    var was := places[..last];
    forall i: nat | i < n - 1 ensures i in was <==> Stands(data, table + entrySize * i, 1) {
      assert places == was + [n - 1];
      assert i in places <==> i in was;
    }
    forall k | 0 <= k < last
      ensures SegmentStands(data, table + entrySize * was[k], segments[k]) && EndsBelow4G(segments[k])
    {
      assert all[k] == segments[k] && was[k] == places[k];
    }
  }

  lemma SixWords(data: seq<byte>, at: nat, w: seq<int>)
    requires |w| == 6 && at + 24 <= |data|
    ensures AllStand(data, at, w) <==>
      && U32(data, at) == w[0] && U32(data, at + 4) == w[1] && U32(data, at + 8) == w[2]
      && U32(data, at + 12) == w[3] && U32(data, at + 16) == w[4] && U32(data, at + 20) == w[5]
  {
    hide U32;
    AllStandIff(data, at, w);
    var found := WordsAt(data, at, 6);
    assert found == [U32(data, at), U32(data, at + 4), U32(data, at + 8),
                     U32(data, at + 12), U32(data, at + 16), U32(data, at + 20)];
  }

  /** A section header: a free word, then type, flags, address, position, size and linked section; two more free words,
      and the size of an entry. */
  ghost predicate SectionStands(data: seq<byte>, at: nat, s: Section) {
    && AllStand(data, at + 4, [s.kind, s.flags, s.addr, s.offset, s.size, s.link])
    && Stands(data, at + 36, s.entrySize)
  }

  ghost predicate SectionsStand(data: seq<byte>, table: nat, entrySize: nat, n: nat, sections: seq<Section>) {
    |sections| == n && forall i | 0 <= i < n :: SectionStands(data, table + entrySize * i, sections[i])
  }

  /** The section table holds `sections` exactly when each stands written at its place. */
  lemma SectionsAreWritten(data: seq<byte>, table: nat, entrySize: nat, n: nat, sections: seq<Section>)
    requires entrySize >= 40 && table + entrySize * n <= |data|
    ensures SectionTable(data, table, entrySize, n) == sections <==> SectionsStand(data, table, entrySize, n, sections)
  {
    hide SectionAt, SectionStands;
    var all := SectionTable(data, table, entrySize, n);
    if |sections| == n {
      forall i | 0 <= i < n ensures all[i] == sections[i] <==> SectionStands(data, table + entrySize * i, sections[i]) {
        TableEntryFits(data, table, entrySize, i, n);
        SectionIsWritten(data, table + entrySize * i, sections[i]);
      }
    }
  }

  lemma SectionIsWritten(data: seq<byte>, at: nat, s: Section)
    requires at + 40 <= |data|
    ensures SectionAt(data, at) == s <==> SectionStands(data, at, s)
  {
    SixWords(data, at + 4, [s.kind, s.flags, s.addr, s.offset, s.size, s.link]);
    StandsIff(data, at + 36, s.entrySize);
    hide U32, AllStand, Stands;
  }

  // ----- symbol tables -----

  /** A symbol stands at `at`: its first word says where its name begins in the string table, and a zero byte ends the
      name before the string table does. */
  ghost predicate SymbolStands(data: seq<byte>, at: nat, strings: seq<byte>) {
    exists name: nat :: NameStands(data, at, strings, name)
  }

  predicate NameStands(data: seq<byte>, at: nat, strings: seq<byte>, name: nat) {
    Stands(data, at, name) && name < |strings| && 0 in strings[name..]
  }

  /** A section is either no symbol table, which has type 2, or one of 16-byte entries that lies in the file, whose
      linked string table lies in the file and ends every name. */
  ghost predicate SymbolsStand(data: seq<byte>, sections: seq<Section>, s: Section) {
    s.kind == 2 ==>
      && s.link < |sections| && s.entrySize == 16 && s.size % 16 == 0 && s.offset + s.size <= |data|
      && var names := sections[s.link];
         && names.offset + names.size <= |data|
         && forall i | 0 <= i < s.size / 16 ::
              SymbolStands(data, s.offset + 16 * i, data[names.offset..names.offset + names.size])
  }

  lemma SymbolsAreWritten(data: seq<byte>, sections: seq<Section>)
    ensures AllSymbolsReadable(data, sections, |sections|) <==>
      forall s | s in sections :: SymbolsStand(data, sections, s)
  {
    hide SymbolsReadable, SymbolsStand;
    forall s | s in sections
      ensures SymbolsStand(data, sections, s) <==> (s.kind == 2 ==> SymbolsReadable(data, sections, s))
    {
      SymbolTableIsWritten(data, sections, s);
    }
  }

  lemma SymbolTableIsWritten(data: seq<byte>, sections: seq<Section>, s: Section)
    ensures SymbolsStand(data, sections, s) <==> (s.kind == 2 ==> SymbolsReadable(data, sections, s))
  {
    hide U32, NameEnds, SymbolStands;
    if s.link < |sections| && s.size % 16 == 0 && s.offset + s.size <= |data|
       && sections[s.link].offset + sections[s.link].size <= |data| {
      var names := sections[s.link];
      var strings := data[names.offset..names.offset + names.size];
      assert CheckedBytes(data, names.offset, names.size) == Some(strings);
      forall i | 0 <= i < s.size / 16
        ensures SymbolStands(data, s.offset + 16 * i, strings) <==> NameEnds(strings, U32(data, s.offset + 16 * i))
      {
        SymbolIsWritten(data, s.offset + 16 * i, strings);
      }
    }
  }

  lemma SymbolIsWritten(data: seq<byte>, at: nat, strings: seq<byte>)
    requires at + 4 <= |data|
    ensures SymbolStands(data, at, strings) <==> NameEnds(strings, U32(data, at))
  {
    hide U32, Stands;
    var name := U32(data, at);
    StandsIff(data, at, name);
    forall v: nat | NameStands(data, at, strings, v) ensures v == name {
      StandsIff(data, at, v);
    }
    if name < |strings| {
      var tail := strings[name..];
      assert forall k | name <= k < |strings| :: strings[k] == tail[k - name];
      assert 0 in tail <==> exists k | name <= k < |strings| :: strings[k] == 0;
      assert NameStands(data, at, strings, name) <==> 0 in tail;
    }
  }

  // ----- which segment holds a section -----

  /** A segment holds a section that is not empty exactly when it maps every address of it. */
  lemma HoldsIff(s: Segment, section: Section)
    requires section.size > 0
    ensures Holds(s, section) <==>
      forall a | section.addr <= a < section.addr + section.size :: Extent(s.vaddr, s.filesz, ()).Contains(a)
  {
    var e := Extent(s.vaddr, s.filesz, ());
    if forall a | section.addr <= a < section.addr + section.size :: e.Contains(a) {
      assert e.Contains(section.addr) && e.Contains(section.addr + section.size - 1);
    }
  }
}
