/** ELF32 parsing and the reconstruction of the raw binary that objcopy would write. */
module RawElf {
  import opened Bytes
  import opened Extents
  import opened LoadImage

  datatype Section = Section(kind: nat, flags: nat, addr: nat, offset: nat, size: nat, link: nat, entrySize: nat) {
    /** Allocated, not NOBITS, and not empty: the sections that occupy file bytes in the loaded image. */
    predicate IsLoaded() {
      flags / 2 % 2 == 1 && kind != 8 && size != 0
    }
  }

  datatype Elf = Elf(entry: int, segments: seq<Segment>, sections: seq<Section>)

  /** `checked_bytes`: a slice that must lie inside the data. */
  function CheckedBytes(data: seq<byte>, start: int, size: int): (r: Option<seq<byte>>)
    ensures r.Some? <==> 0 <= start && 0 <= size && start + size <= |data|
    ensures r.Some? ==> |r.value| == size && forall k | 0 <= k < size :: r.value[k] == data[start + k]
  {
    if 0 <= start <= |data| && 0 <= size <= |data| - start then Some(data[start..start + size]) else None
  }

  predicate IsLoadHeader(data: seq<byte>, at: nat)
    requires at + 32 <= |data|
  {
    U32(data, at) == 1
  }

  /** The segment of a load header: its file range must be in the file, within its memory range, below 4 GiB. */
  function LoadHeader(data: seq<byte>, at: nat): (r: Option<Segment>)
    requires at + 32 <= |data|
    ensures r.Some? ==> r.value.Valid()
  {
    var filesz, memsz, paddr := U32(data, at + 16), U32(data, at + 20), U32(data, at + 12);
    var content := CheckedBytes(data, U32(data, at + 4), filesz);
    if filesz <= memsz && paddr + memsz <= 0x1_0000_0000 && content.Some?
    then Some(Segment(U32(data, at + 8), paddr, filesz, memsz, content.value))
    else None
  }

  /** The load segments of the first `n` program headers, in table order. */
  function LoadHeaders(data: seq<byte>, table: nat, entrySize: nat, n: nat): (r: Option<seq<Segment>>)
    requires entrySize >= 32 && table + entrySize * n <= |data|
    ensures r.Some? ==> AllValid(r.value)
  {
    if n == 0 then Some([])
    else
      TableEntryFits(data, table, entrySize, n - 1, n);
      var before := LoadHeaders(data, table, entrySize, n - 1);
      var at := table + entrySize * (n - 1);
      if before.None? || !IsLoadHeader(data, at) then before
      else
        var s := LoadHeader(data, at);
        if s.None? then None else Some(before.value + [s.value])
  }

  lemma TableEntryFits(data: seq<byte>, table: nat, entrySize: nat, i: nat, n: nat)
    requires i < n && table + entrySize * n <= |data|
    ensures 0 <= table + entrySize * i <= table + entrySize * i + entrySize <= |data|
  {
    assert entrySize * n == entrySize * i + entrySize + entrySize * (n - i - 1);
  }

  function SectionAt(data: seq<byte>, at: nat): Section
    requires at + 40 <= |data|
  {
    Section(
      U32(data, at + 4), U32(data, at + 8), U32(data, at + 12), U32(data, at + 16), U32(data, at + 20),
      U32(data, at + 24), U32(data, at + 36))
  }

  /** The section table of `n` entries. */
  function SectionTable(data: seq<byte>, table: nat, entrySize: nat, n: nat): (r: seq<Section>)
    requires entrySize >= 40 && table + entrySize * n <= |data|
  {
    seq(n, i requires 0 <= i < n =>
      TableEntryFits(data, table, entrySize, i, n);
      SectionAt(data, table + entrySize * i))
  }

  /** Whether a table of `n` entries, each of at least `least` bytes, lies in the file. */
  predicate TableFits(data: seq<byte>, table: nat, entrySize: nat, n: nat, least: nat) {
    entrySize >= least && n > 0 && table + entrySize * n <= |data|
  }

  const SYMBOL_TABLE := 2
  const SYMBOL_SIZE := 16

  /** A symbol's name begins in the string table and ends at a zero byte. */
  predicate NameEnds(names: seq<byte>, name: nat) {
    name < |names| && exists k | name <= k < |names| :: names[k] == 0
  }

  /** The entries of a symbol table lie in the file, and every name is found in the linked string table. */
  predicate SymbolsReadable(data: seq<byte>, sections: seq<Section>, s: Section) {
    && s.link < |sections| && s.entrySize == SYMBOL_SIZE && s.size % SYMBOL_SIZE == 0
    && var names := CheckedBytes(data, sections[s.link].offset, sections[s.link].size);
       && names.Some? && s.offset + s.size <= |data|
       && forall i | 0 <= i < s.size / SYMBOL_SIZE :: NameEnds(names.value, U32(data, s.offset + SYMBOL_SIZE * i))
  }

  predicate AllSymbolsReadable(data: seq<byte>, sections: seq<Section>, n: nat)
    requires n <= |sections|
  {
    forall j | 0 <= j < n && sections[j].kind == SYMBOL_TABLE :: SymbolsReadable(data, sections, sections[j])
  }

  predicate IsArmExecutable(data: seq<byte>) {
    |data| >= 52 && data[..7] == [0x7F, 0x45, 0x4C, 0x46, 1, 1, 1] && U16(data, 16) == 2 && U16(data, 18) == 40
  }

  /** `elf` is what the file's header, program table and section table say. */
  ghost predicate IsElf(data: seq<byte>, elf: Elf) {
    && IsArmExecutable(data) && elf.entry == U32(data, 24)
    && TableFits(data, U32(data, 28), U16(data, 42), U16(data, 44), 32) && U16(data, 44) < 1024
    && LoadHeaders(data, U32(data, 28), U16(data, 42), U16(data, 44)) == Some(elf.segments)
    && (exists s | s in elf.segments :: s.filesz > 0)
    && TableFits(data, U32(data, 32), U16(data, 46), U16(data, 48), 40)
    && elf.sections == SectionTable(data, U32(data, 32), U16(data, 46), U16(data, 48))
    && AllSymbolsReadable(data, elf.sections, |elf.sections|)
  }

  /** `elf32`: accepts exactly the files with a well-formed header, program table, section table and symbol tables, and
      yields their load segments, each with its file bytes, and their sections. */
  method Elf32(data: seq<byte>) returns (r: Option<Elf>)
    ensures r.Some? ==> IsElf(data, r.value) && AllValid(r.value.segments)
    ensures forall elf :: IsElf(data, elf) ==> r == Some(elf)
  {
    if !IsArmExecutable(data) {
      return None;
    }
    var phoff: nat, shoff: nat := U32(data, 28), U32(data, 32);
    var phsize: nat, phnum: nat := U16(data, 42), U16(data, 44);
    var shsize: nat, shnum: nat := U16(data, 46), U16(data, 48);
    hide U32, U16, LoadHeader, SectionAt, IsArmExecutable, LoadHeaders, SectionTable, AllSymbolsReadable, TableFits;
    var inside := CheckTable(data, phoff, phsize, phnum, 32);
    if !inside || phnum >= 1024 {
      return None;
    }
    var segments := ReadSegments(data, phoff, phsize, phnum);
    if segments.None? || !(exists s | s in segments.value :: s.filesz > 0) {
      return None;
    }
    inside := CheckTable(data, shoff, shsize, shnum, 40);
    if !inside {
      return None;
    }
    var sections := ReadSections(data, shoff, shsize, shnum);
    var readable := CheckSymbols(data, sections);
    if !readable {
      return None;
    }
    r := Some(Elf(U32(data, 24), segments.value, sections));
  }

  method CheckTable(data: seq<byte>, table: nat, entrySize: nat, n: nat, least: nat) returns (ok: bool)
    ensures ok <==> TableFits(data, table, entrySize, n, least)
  {
    ok := entrySize >= least && n > 0 && CheckedBytes(data, table, entrySize * n).Some?;
  }

  method ReadSegments(data: seq<byte>, table: nat, entrySize: nat, n: nat) returns (segments: Option<seq<Segment>>)
    requires TableFits(data, table, entrySize, n, 32)
    ensures segments == LoadHeaders(data, table, entrySize, n)
  {
    hide LoadHeader, U32, IsLoadHeader;
    var found: seq<Segment> := [];
    for i := 0 to n
      invariant LoadHeadersSoFar(data, table, entrySize, i, n, found)
    {
      TableEntryFits(data, table, entrySize, i, n);
      LoadHeadersStop(data, table, entrySize, i + 1, n);
      var at := table + entrySize * i;
      if IsLoadHeader(data, at) {
        var s := LoadHeader(data, at);
        if s.None? {
          return None;
        }
        found := found + [s.value];
      }
    }
    return Some(found);
  }

  /** The loop over the symbol tables, which refuses a file at the first bad table or name. */
  method CheckSymbols(data: seq<byte>, sections: seq<Section>) returns (ok: bool)
    ensures ok <==> AllSymbolsReadable(data, sections, |sections|)
  {
    for j := 0 to |sections|
      invariant AllSymbolsReadable(data, sections, j)
    {
      var s := sections[j];
      if s.kind == SYMBOL_TABLE {
        var readable := CheckSymbolTable(data, sections, s);
        if !readable {
          return false;
        }
      }
    }
    ok := true;
  }

  method CheckSymbolTable(data: seq<byte>, sections: seq<Section>, s: Section) returns (ok: bool)
    ensures ok <==> SymbolsReadable(data, sections, s)
  {
    hide U32;
    if !(s.link < |sections| && s.entrySize == SYMBOL_SIZE && s.size % SYMBOL_SIZE == 0) {
      return false;
    }
    var names := CheckedBytes(data, sections[s.link].offset, sections[s.link].size);
    if names.None? || CheckedBytes(data, s.offset, s.size).None? {
      return false;
    }
    for i := 0 to s.size / SYMBOL_SIZE
      invariant forall k | 0 <= k < i :: NameEnds(names.value, U32(data, s.offset + SYMBOL_SIZE * k))
    {
      if !NameEnds(names.value, U32(data, s.offset + SYMBOL_SIZE * i)) {
        return false;
      }
    }
    ok := true;
  }

  /** Once a load header is refused, the table is. */
  lemma {:induction false} LoadHeadersStop(data: seq<byte>, table: nat, entrySize: nat, k: nat, n: nat)
    requires entrySize >= 32 && k <= n && table + entrySize * n <= |data|
    ensures table + entrySize * k <= |data|
    ensures LoadHeaders(data, table, entrySize, k).None? ==> LoadHeaders(data, table, entrySize, n).None?
    decreases n
  {
    if k < n {
      hide LoadHeader, U32, IsLoadHeader;
      TableEntryFits(data, table, entrySize, n - 1, n);
      LoadHeadersStop(data, table, entrySize, k, n - 1);
    }
  }

  method ReadSections(data: seq<byte>, table: nat, entrySize: nat, n: nat) returns (sections: seq<Section>)
    requires TableFits(data, table, entrySize, n, 40)
    ensures sections == SectionTable(data, table, entrySize, n)
  {
    hide SectionAt;
    ghost var all := SectionTable(data, table, entrySize, n);
    sections := [];
    for i := 0 to n
      invariant sections == all[..i]
    {
      TableEntryFits(data, table, entrySize, i, n);
      sections := sections + [SectionAt(data, table + entrySize * i)];
    }
  }

  ghost predicate LoadHeadersSoFar(data: seq<byte>, table: nat, entrySize: nat, i: nat, n: nat, segments: seq<Segment>)
    requires entrySize >= 32 && i <= n && table + entrySize * n <= |data|
  {
    assert entrySize * n == entrySize * i + entrySize * (n - i);
    LoadHeaders(data, table, entrySize, i) == Some(segments)
  }

  /** File-backed address ranges, by virtual address. */
  function VirtualExtents(segments: seq<Segment>): (extents: seq<Extent<nat>>)
    ensures |extents| == |segments|
  {
    seq(|segments|, i requires 0 <= i < |segments| => Extent(segments[i].vaddr, segments[i].filesz, i))
  }

  /** The bytes mapped at [cursor, end): at each cursor exactly one segment must map the address. */
  function Mapped(segments: seq<Segment>, cursor: int, end: int): Option<seq<byte>>
    requires forall s | s in segments :: |s.data| == s.filesz
    decreases end - cursor
  {
    if cursor >= end then Some([])
    else
      var matches := Covering(VirtualExtents(segments), cursor, |segments|);
      if |matches| != 1 then None
      else
        assert matches[0] in matches;
        var s := segments[matches[0]];
        var stop := if end < s.vaddr + s.filesz then end else s.vaddr + s.filesz;
        Before(s.data[cursor - s.vaddr..stop - s.vaddr], Mapped(segments, stop, end))
  }

  /** These bytes in front of the rest, if there is a rest. */
  function Before(bytes: seq<byte>, rest: Option<seq<byte>>): Option<seq<byte>> {
    if rest.None? then None else Some(bytes + rest.value)
  }

  lemma BeforeTwice(a: seq<byte>, b: seq<byte>, rest: Option<seq<byte>>)
    ensures Before(a + b, rest) == Before(a, Before(b, rest))
    ensures Before([], rest) == rest && Before(a, Some([])) == Some(a)
  {
    assert a + [] == a;
    if rest.Some? {
      assert a + b + rest.value == a + (b + rest.value) && [] + rest.value == rest.value;
    }
  }

  method MappedBytes(segments: seq<Segment>, address: int, size: int) returns (r: Option<seq<byte>>)
    requires AllValid(segments)
    ensures r == Mapped(segments, address, address + size)
  {
    hide Covering, Before;
    var bytes: seq<byte> := [];
    var cursor, end := address, address + size;
    BeforeTwice([], [], Mapped(segments, address, end));
    while cursor < end
      invariant Mapped(segments, address, end) == Before(bytes, Mapped(segments, cursor, end))
      decreases end - cursor
    {
      var matches := Covering(VirtualExtents(segments), cursor, |segments|);
      NothingBefore(bytes);
      if |matches| != 1 {
        return None;
      }
      assert matches[0] in matches;
      var s := segments[matches[0]];
      var stop := if end < s.vaddr + s.filesz then end else s.vaddr + s.filesz;
      BeforeTwice(bytes, s.data[cursor - s.vaddr..stop - s.vaddr], Mapped(segments, stop, end));
      bytes := bytes + s.data[cursor - s.vaddr..stop - s.vaddr];
      cursor := stop;
    }
    BeforeTwice(bytes, [], None);
    r := Some(bytes);
  }

  lemma NothingBefore(bytes: seq<byte>)
    ensures Before(bytes, None) == None
  {
  }

  predicate Maps(s: Segment, a: int, v: byte) {
    s.vaddr <= a < s.vaddr + s.filesz && a - s.vaddr < |s.data| && s.data[a - s.vaddr] == v
  }

  /** A successful lookup has the requested length, and each byte is one that some segment maps at its address. */
  lemma {:induction false} MappedIsMapped(segments: seq<Segment>, cursor: int, end: int)
    requires AllValid(segments) && Mapped(segments, cursor, end).Some?
    ensures var bytes := Mapped(segments, cursor, end).value;
            && |bytes| == (if cursor < end then end - cursor else 0)
            && forall k | 0 <= k < |bytes| :: exists i | 0 <= i < |segments| :: Maps(segments[i], cursor + k, bytes[k])
    decreases end - cursor
  {
    if cursor < end {
      var matches := Covering(VirtualExtents(segments), cursor, |segments|);
      assert matches[0] in matches;
      var s := segments[matches[0]];
      var stop := if end < s.vaddr + s.filesz then end else s.vaddr + s.filesz;
      MappedIsMapped(segments, stop, end);
      var bytes, rest := Mapped(segments, cursor, end).value, Mapped(segments, stop, end).value;
      forall k | 0 <= k < |bytes|
        ensures exists i | 0 <= i < |segments| :: Maps(segments[i], cursor + k, bytes[k])
      {
        if cursor + k < stop {
          assert Maps(segments[matches[0]], cursor + k, bytes[k]);
        } else {
          assert bytes[k] == rest[k - (stop - cursor)];
        }
      }
    }
  }

  ghost predicate OnlyMapper(segments: seq<Segment>, a: int, i: nat) {
    && i < |segments| && VirtualExtents(segments)[i].Contains(a)
    && forall j | 0 <= j < |segments| && VirtualExtents(segments)[j].Contains(a) :: j == i
  }

  ghost predicate UniquelyMapped(segments: seq<Segment>, a: int) {
    exists i: nat :: OnlyMapper(segments, a, i)
  }

  /** A range whose every address is mapped exactly once is always found. */
  lemma {:induction false} UniqueRangeIsMapped(segments: seq<Segment>, cursor: int, end: int)
    requires AllValid(segments) && forall a | cursor <= a < end :: UniquelyMapped(segments, a)
    ensures Mapped(segments, cursor, end).Some?
    decreases end - cursor
  {
    if cursor < end {
      assert UniquelyMapped(segments, cursor);
      var i: nat :| OnlyMapper(segments, cursor, i);
      OneMatch(VirtualExtents(segments), cursor, i);
      hide Covering, UniquelyMapped;
      var s := segments[i];
      UniqueRangeIsMapped(segments, if end < s.vaddr + s.filesz then end else s.vaddr + s.filesz, end);
    }
  }

  /** A successful lookup has found the one segment that maps its first address. */
  lemma FirstIsUnique(segments: seq<Segment>, cursor: int, end: int) returns (i: nat)
    requires AllValid(segments) && cursor < end && Mapped(segments, cursor, end).Some?
    ensures OnlyMapper(segments, cursor, i)
  {
    var matches := Covering(VirtualExtents(segments), cursor, |segments|);
    i := matches[0];
    assert i in matches;
    OneMatch(VirtualExtents(segments), cursor, i);
  }

  /** Segment `i` begins inside the range, at an address that another segment maps too. */
  ghost predicate BeginsInAnother(segments: seq<Segment>, i: nat, cursor: int, end: int)
    requires i < |segments|
  {
    && segments[i].filesz > 0 && cursor < segments[i].vaddr < end
    && exists j | 0 <= j < |segments| && j != i :: VirtualExtents(segments)[j].Contains(segments[i].vaddr)
  }

  lemma {:induction false} MappedCovers(segments: seq<Segment>, cursor: int, end: int, a: int)
    requires AllValid(segments) && Mapped(segments, cursor, end).Some? && cursor <= a < end
    ensures exists i | 0 <= i < |segments| :: VirtualExtents(segments)[i].Contains(a)
  {
    MappedIsMapped(segments, cursor, end);
    var i :| 0 <= i < |segments|
        && Maps(segments[i], cursor + (a - cursor), Mapped(segments, cursor, end).value[a - cursor]);
    assert VirtualExtents(segments)[i].Contains(a);
  }

  /** Where a lookup succeeds, its first address is mapped once, so two segments that share a later one cannot both
      begin at or before the first: one of them begins inside the range and inside the other. */
  lemma SharedAddressHasAStart(segments: seq<Segment>, cursor: int, end: int, a: int, i: nat, j: nat)
    requires AllValid(segments) && Mapped(segments, cursor, end).Some? && cursor <= a < end
    requires i < |segments| && j < |segments| && i != j
    requires VirtualExtents(segments)[i].Contains(a) && VirtualExtents(segments)[j].Contains(a)
    ensures BeginsInAnother(segments, i, cursor, end) || BeginsInAnother(segments, j, cursor, end)
  {
    hide Mapped;
    var e := VirtualExtents(segments);
    var first := FirstIsUnique(segments, cursor, end);
    assert e[i].Contains(cursor) ==> i == first;
    assert e[j].Contains(cursor) ==> j == first;
    assert segments[i].vaddr <= segments[j].vaddr ==> e[i].Contains(segments[j].vaddr);
    assert segments[j].vaddr <= segments[i].vaddr ==> e[j].Contains(segments[i].vaddr);
  }

  /** A successful lookup is unambiguous, each of its addresses being mapped exactly once, exactly when no segment
      begins inside the range where another segment already maps. The segment table alone tells. */
  lemma LookupIsUnambiguousIff(segments: seq<Segment>, cursor: int, end: int)
    requires AllValid(segments) && Mapped(segments, cursor, end).Some?
    ensures (forall a | cursor <= a < end :: UniquelyMapped(segments, a))
            <==> (forall i | 0 <= i < |segments| :: !BeginsInAnother(segments, i, cursor, end))
  {
    hide Mapped;
    if forall i | 0 <= i < |segments| :: !BeginsInAnother(segments, i, cursor, end) {
      forall a | cursor <= a < end ensures UniquelyMapped(segments, a) {
        UnsharedIsUnique(segments, cursor, end, a);
      }
    }
    if i :| 0 <= i < |segments| && BeginsInAnother(segments, i, cursor, end) {
      assert VirtualExtents(segments)[i].Contains(segments[i].vaddr);
      assert !UniquelyMapped(segments, segments[i].vaddr);
    }
  }

  lemma UnsharedIsUnique(segments: seq<Segment>, cursor: int, end: int, a: int)
    requires AllValid(segments) && Mapped(segments, cursor, end).Some? && cursor <= a < end
    requires forall i | 0 <= i < |segments| :: !BeginsInAnother(segments, i, cursor, end)
    ensures UniquelyMapped(segments, a)
  {
    hide Mapped, BeginsInAnother;
    var e := VirtualExtents(segments);
    MappedCovers(segments, cursor, end, a);
    var i :| 0 <= i < |segments| && e[i].Contains(a);
    forall j | 0 <= j < |segments| && e[j].Contains(a) && j != i ensures false {
      SharedAddressHasAStart(segments, cursor, end, a, i, j);
    }
    assert OnlyMapper(segments, a, i);
  }

  /** The converse fails: uniqueness is tested only where the lookup starts and where it passes from one segment to
      the next, so a second segment that begins inside the first goes unnoticed. */
  lemma AmbiguousByteAccepted()
    ensures var a := Segment(0, 0, 2, 2, [1, 1]);
            var b := Segment(1, 1, 2, 2, [9, 9]);
            Mapped([a, b], 0, 2) == Some([1, 1]) && !UniquelyMapped([a, b], 1)
  {
    var a := Segment(0, 0, 2, 2, [1, 1]);
    var b := Segment(1, 1, 2, 2, [9, 9]);
    var e := VirtualExtents([a, b]);
    OneMatch(e, 0, 0);
    assert Mapped([a, b], 2, 2) == Some([]);
    assert a.data[0..2] + [] == [1, 1];
    assert e[0].Contains(1) && e[1].Contains(1);
  }

  /** One loaded section: where objcopy places it, and its bytes. */
  type Span = Extent<seq<byte>>

  predicate Holds(s: Segment, section: Section) {
    s.vaddr <= section.addr && section.addr + section.size <= s.vaddr + s.filesz
  }

  /** The indices below `n` of the segments whose file bytes contain the whole section. */
  function Holders(segments: seq<Segment>, section: Section, n: nat): (indices: seq<nat>)
    requires n <= |segments|
    ensures forall i: nat :: i in indices <==> i < n && Holds(segments[i], section)
  {
    if n == 0 then []
    else Holders(segments, section, n - 1) + if Holds(segments[n - 1], section) then [n - 1] else []
  }

  /** The span of a loaded section, if one segment holds it and the file and memory views of its bytes agree. */
  function SpanOf(data: seq<byte>, segments: seq<Segment>, section: Section): (r: Option<Span>)
    requires forall s | s in segments :: |s.data| == s.filesz
    ensures r.Some? ==> r.value.length == |r.value.item| == section.size
  {
    var matches := Holders(segments, section, |segments|);
    if |matches| != 1 then None
    else
      assert matches[0] in matches;
      var p := segments[matches[0]];
      var content := CheckedBytes(data, section.offset, section.size);
      if content.None? || content != Mapped(segments, section.addr, section.addr + section.size) then None
      else Some(Extent(p.paddr + section.addr - p.vaddr, section.size, content.value))
  }

  /** Segment `i` is the only one that holds the section, and the span is that stretch of it at its physical address. */
  ghost predicate IsSpanOfHolder(segments: seq<Segment>, section: Section, span: Span, i: nat) {
    && i < |segments| && Holds(segments[i], section) && segments[i].Valid() && section.size >= 0
    && (forall j | 0 <= j < |segments| && Holds(segments[j], section) :: j == i)
    && span.start == segments[i].paddr + section.addr - segments[i].vaddr
    && span.item == segments[i].data[section.addr - segments[i].vaddr..section.addr - segments[i].vaddr + section.size]
  }

  /** The span's bytes are those of the one segment that holds the section, at the physical address it loads them to. */
  lemma SpanComesFromItsHolder(data: seq<byte>, segments: seq<Segment>, section: Section) returns (i: nat)
    requires AllValid(segments) && section.size > 0 && SpanOf(data, segments, section).Some?
    ensures IsSpanOfHolder(segments, section, SpanOf(data, segments, section).value, i)
  {
    var matches := Holders(segments, section, |segments|);
    i := matches[0];
    assert i in matches && Holds(segments[i], section) && segments[i] in segments;
    var p := segments[i];
    var found := Covering(VirtualExtents(segments), section.addr, |segments|);
    assert VirtualExtents(segments)[i].Contains(section.addr);
    assert i in found && found == [i];
    assert Mapped(segments, section.addr + section.size, section.addr + section.size) == Some([]);
    var bytes := p.data[section.addr - p.vaddr..section.addr + section.size - p.vaddr];
    assert bytes + [] == bytes;
    forall j: nat | j < |segments| && Holds(segments[j], section)
      ensures j == i
    {
      assert j in matches;
    }
  }

  /** A segment with file bytes begins strictly inside the section. */
  predicate BeginsInside(s: Segment, section: Section) {
    s.filesz > 0 && section.addr < s.vaddr < section.addr + section.size
  }

  /** An accepted section is unambiguous exactly when no segment begins strictly inside it. */
  lemma SectionIsUnambiguousIff(data: seq<byte>, segments: seq<Segment>, section: Section)
    requires AllValid(segments) && section.size > 0 && SpanOf(data, segments, section).Some?
    ensures (forall a | section.addr <= a < section.addr + section.size :: UniquelyMapped(segments, a))
            <==> forall s | s in segments :: !BeginsInside(s, section)
  {
    var end := section.addr + section.size;
    var i := SpanComesFromItsHolder(data, segments, section);
    hide Mapped, UniquelyMapped, Holders;
    LookupIsUnambiguousIff(segments, section.addr, end);
    forall k | 0 <= k < |segments|
      ensures BeginsInside(segments[k], section) <==> BeginsInAnother(segments, k, section.addr, end)
    {
      assert BeginsInside(segments[k], section) ==> k != i && VirtualExtents(segments)[i].Contains(segments[k].vaddr);
    }
  }

  /** Its span then holds, at each address, the byte of every segment that maps the address. */
  lemma UnambiguousSpan(data: seq<byte>, segments: seq<Segment>, section: Section, j: nat, k: nat)
    requires AllValid(segments) && section.size > 0 && SpanOf(data, segments, section).Some?
    requires forall s | s in segments :: !BeginsInside(s, section)
    requires j < |segments| && k < section.size && VirtualExtents(segments)[j].Contains(section.addr + k)
    ensures Maps(segments[j], section.addr + k, SpanOf(data, segments, section).value.item[k])
  {
    SectionIsUnambiguousIff(data, segments, section);
    var i := SpanComesFromItsHolder(data, segments, section);
    hide SpanOf;
    assert UniquelyMapped(segments, section.addr + k);
    assert VirtualExtents(segments)[i].Contains(section.addr + k);
    assert i == j;
  }

  /** The spans of the loaded sections among the first `n`, in table order. */
  function Spans(data: seq<byte>, segments: seq<Segment>, sections: seq<Section>, n: nat): (r: Option<seq<Span>>)
    requires n <= |sections| && forall s | s in segments :: |s.data| == s.filesz
    ensures r.Some? ==> forall e | e in r.value :: e.length == |e.item| > 0
  {
    if n == 0 then Some([])
    else
      var before := Spans(data, segments, sections, n - 1);
      if before.None? || !sections[n - 1].IsLoaded() then before
      else
        var span := SpanOf(data, segments, sections[n - 1]);
        if span.None? then None else Some(before.value + [span.value])
  }

  const ALLOCATED := 2
  const NO_BITS := 8

  /** A section with bit 1 of its flags set, that is not of the kind without file bytes, and is not empty. */
  predicate HasLoadedBytes(s: Section) {
    s.flags % (2 * ALLOCATED) >= ALLOCATED && s.kind != NO_BITS && s.size > 0
  }

  /** The sections placed in the raw image are exactly these, each with its bytes from the file. */
  lemma {:induction false} PlacedSections(data: seq<byte>, segments: seq<Segment>, sections: seq<Section>, n: nat)
    requires n <= |sections| && AllValid(segments) && Spans(data, segments, sections, n).Some?
    ensures var spans := Spans(data, segments, sections, n).value;
            && (forall j | 0 <= j < n && HasLoadedBytes(sections[j]) ::
                  && SpanOf(data, segments, sections[j]).Some? && SpanOf(data, segments, sections[j]).value in spans
                  && SpanOf(data, segments, sections[j]).value.item
                     == data[sections[j].offset..sections[j].offset + sections[j].size])
            && (forall e | e in spans :: exists j | 0 <= j < n ::
                  HasLoadedBytes(sections[j]) && SpanOf(data, segments, sections[j]) == Some(e))
  {
    hide Mapped, Holders;
    if n > 0 {
      PlacedSections(data, segments, sections, n - 1);
      if HasLoadedBytes(sections[n - 1]) {
        SpanIsFileBytes(data, segments, sections[n - 1]);
      }
    }
  }

  lemma SpanIsFileBytes(data: seq<byte>, segments: seq<Segment>, s: Section)
    requires AllValid(segments) && SpanOf(data, segments, s).Some?
    ensures s.offset + s.size <= |data|
    ensures SpanOf(data, segments, s).value.item == data[s.offset..s.offset + s.size]
  {
    hide Mapped, Holders;
  }

  const MAX_SPAN := 64 * 1024 * 1024

  /** The span's bytes stand at its address in an image that begins at `start`. */
  ghost predicate Placed(image: seq<byte>, start: int, e: Span) {
    && start <= e.start && e.length == |e.item| && e.End() - start <= |image|
    && image[e.start - start..e.End() - start] == e.item
  }

  ghost predicate Uncovered(spans: seq<Span>, a: int) {
    forall e | e in spans :: !e.Contains(a)
  }

  /** `image`, placed at `start`, reaches exactly from the lowest to the highest span address, holds every span's
      bytes, and is zero between them. */
  ghost predicate IsImageOf(image: seq<byte>, start: int, spans: seq<Span>) {
    && (exists e | e in spans :: e.start == start)
    && (exists e | e in spans :: e.End() == start + |image|)
    && (forall e | e in spans :: Placed(image, start, e))
    && forall x | 0 <= x < |image| && Uncovered(spans, start + x) :: image[x] == 0
  }

  function HighestEnd(spans: seq<Span>): (end: int)
    requires spans != []
    ensures forall e | e in spans :: e.End() <= end
    ensures exists e | e in spans :: e.End() == end
  {
    if |spans| == 1 then spans[0].End()
    else
      var rest := HighestEnd(spans[1..]);
      assert spans == [spans[0]] + spans[1..];
      if rest > spans[0].End() then rest else spans[0].End()
  }

  /** The first `n` sorted spans are painted, they end by `limit`, and the rest of the image is still zero. */
  ghost predicate Painted(image: seq<byte>, ordered: seq<Span>, n: nat, start: int, limit: int)
    requires n <= |ordered|
  {
    && start <= limit
    && (forall k | 0 <= k < n :: ordered[k].End() <= limit && Placed(image, start, ordered[k]))
    && forall x | 0 <= x < |image| && Uncovered(ordered[..n], start + x) :: image[x] == 0
  }

  lemma PaintStep(before: seq<byte>, after: seq<byte>, ordered: seq<Span>, n: nat, start: int, limit: int)
    requires n < |ordered| && Painted(before, ordered, n, start, limit)
    requires var e := ordered[n];
             && limit <= e.start && e.length == |e.item| > 0 && e.End() - start <= |before|
             && after == before[..e.start - start] + e.item + before[e.End() - start..]
    ensures Painted(after, ordered, n + 1, start, ordered[n].End())
  {
    var e := ordered[n];
    forall k | 0 <= k < n + 1
      ensures ordered[k].End() <= e.End() && Placed(after, start, ordered[k])
    {
      if k < n {
        var f := ordered[k];
        assert Placed(before, start, f);
        assert after[f.start - start..f.End() - start] == before[f.start - start..f.End() - start];
      }
    }
    assert ordered[..n + 1] == ordered[..n] + [e];
    forall x | 0 <= x < |after| && Uncovered(ordered[..n + 1], start + x)
      ensures after[x] == 0
    {
      assert e in ordered[..n + 1];
      assert Uncovered(ordered[..n], start + x);
      assert after[x] == before[x];
    }
  }

  /** Paint the sorted spans into a zeroed buffer, refusing the first one that starts before the last one ended. */
  method Paint(ordered: seq<Span>, start: int, end: int) returns (r: Option<seq<byte>>)
    requires forall e | e in ordered :: e.length == |e.item| > 0 && start <= e.start && e.End() <= end
    requires start <= end
    ensures r.Some? <==> NeighboursApart(ordered)
    ensures r.Some? ==> |r.value| == end - start && (forall e | e in ordered :: Placed(r.value, start, e))
    ensures r.Some? ==> forall x | 0 <= x < |r.value| && Uncovered(ordered, start + x) :: r.value[x] == 0
  {
    hide Placed;
    var image := new byte[end - start](_ => 0);
    var previousEnd := start;
    for n := 0 to |ordered|
      invariant Painted(image[..], ordered, n, start, previousEnd)
      invariant if n == 0 then previousEnd == start else previousEnd == ordered[n - 1].End()
      invariant NeighboursApart(ordered[..n])
    {
      var e := ordered[n];
      assert e in ordered;
      if e.start < previousEnd {
        assert ordered[n - 1].End() > ordered[n - 1 + 1].start;
        return None;
      }
      ghost var before := image[..];
      forall k | e.start - start <= k < e.End() - start {
        image[k] := e.item[start + k - e.start];
      }
      PaintStep(before, image[..], ordered, n, start, previousEnd);
      previousEnd := e.End();
    }
    assert ordered[..|ordered|] == ordered;
    r := Some(image[..]);
  }

  method CollectSpans(data: seq<byte>, segments: seq<Segment>, sections: seq<Section>) returns (r: Option<seq<Span>>)
    requires AllValid(segments)
    ensures r == Spans(data, segments, sections, |sections|)
  {
    hide SpanOf;
    var spans: seq<Span> := [];
    for n := 0 to |sections|
      invariant Spans(data, segments, sections, n) == Some(spans)
    {
      if sections[n].IsLoaded() {
        var span := SpanOf(data, segments, sections[n]);
        if span.None? {
          SpansFailEarly(data, segments, sections, n + 1, |sections|);
          return None;
        }
        spans := spans + [span.value];
      }
    }
    r := Some(spans);
  }

  /** `elf_raw_binary`: succeeds exactly when every loaded section has its span, there is one, the whole fits in
      64 MiB and no two spans overlap; the result is then the image of those spans and its address. */
  method RawBinary(data: seq<byte>, segments: seq<Segment>, sections: seq<Section>)
    returns (r: Option<(seq<byte>, int)>)
    requires AllValid(segments)
    ensures r.Some? <==>
      var spans := Spans(data, segments, sections, |sections|);
      && spans.Some? && spans.value != [] && PairwiseApart(spans.value)
      && (forall e, f | e in spans.value && f in spans.value :: f.End() - e.start <= 0x400_0000)
    ensures r.Some? ==> IsImageOf(r.value.0, r.value.1, Spans(data, segments, sections, |sections|).value)
  {
    hide PairwiseApart, NeighboursApart, Placed, Sorted, Spans;
    var collected := CollectSpans(data, segments, sections);
    if collected.None? || collected.value == [] {
      return None;
    }
    var spans := collected.value;
    SortedFacts(spans);
    SortedNeighboursDecide(spans);
    var ordered := Sorted(spans);
    assert spans[0] in ordered;
    var start, end := ordered[0].start, HighestEnd(spans);
    LowestStart(spans, start, end);
    if end - start > MAX_SPAN {
      return None;
    }
    var image := Paint(ordered, start, end);
    if image.None? {
      return None;
    }
    assert forall a | Uncovered(spans, a) :: Uncovered(ordered, a);
    r := Some((image.value, start));
  }

  lemma {:induction false} SpansFailEarly(
      data: seq<byte>, segments: seq<Segment>, sections: seq<Section>, m: nat, n: nat)
    requires m <= n <= |sections| && AllValid(segments) && Spans(data, segments, sections, m).None?
    ensures Spans(data, segments, sections, n).None?
    decreases n - m
  {
    hide SpanOf;
    if m < n {
      SpansFailEarly(data, segments, sections, m, n - 1);
    }
  }

  lemma LowestStart(spans: seq<Span>, start: int, end: int)
    requires spans != [] && Sorted(spans) != [] && start == Sorted(spans)[0].start && end == HighestEnd(spans)
    ensures forall e | e in spans :: start <= e.start
    ensures exists e | e in spans :: e.start == start
    ensures end - start <= MAX_SPAN <==> forall e, f | e in spans && f in spans :: f.End() - e.start <= MAX_SPAN
  {
    SortedFacts(spans);
    var ordered := Sorted(spans);
    assert ordered[0] in spans;
    forall e | e in spans
      ensures start <= e.start
    {
      var i :| 0 <= i < |ordered| && ordered[i] == e;
    }
  }
}
