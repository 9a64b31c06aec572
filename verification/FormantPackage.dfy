/** The generated formant package: the printer of the phone table and the reader that takes it back. */
module FormantPackage {
  import opened Bytes
  import opened Chip
  import opened PhoneWords
  import ChipFacts

  // ----- hexadecimal -----

  function HexDigit(v: nat): char
    requires v < 16
  {
    "0123456789ABCDEF"[v]
  }

  predicate IsHex(c: char) {
    '0' <= c <= '9' || 'A' <= c <= 'F' || 'a' <= c <= 'f'
  }

  function DigitValue(c: char): nat
    requires IsHex(c)
  {
    if c <= '9' then c as int - '0' as int
    else if c <= 'F' then c as int - 'A' as int + 10
    else c as int - 'a' as int + 10
  }

  function Power16(n: nat): (p: nat)
    ensures p > 0
  {
    if n == 0 then 1 else 16 * Power16(n - 1)
  }

  /** `{v:0nX}` for a value of at most `n` digits. */
  function Print(v: nat, n: nat): (s: string)
    requires v < Power16(n)
    ensures |s| == n && AllHex(s)
  {
    if n == 0 then "" else Print(v / 16, n - 1) + [HexDigit(v % 16)]
  }

  predicate AllHex(s: string) {
    forall i | 0 <= i < |s| :: IsHex(s[i])
  }

  /** `int(s, 16)`. */
  function Read(s: string): nat
    requires AllHex(s)
  {
    if s == "" then 0 else 16 * Read(s[..|s| - 1]) + DigitValue(s[|s| - 1])
  }

  lemma DigitRoundTrip(v: nat)
    requires v < 16
    ensures IsHex(HexDigit(v)) && DigitValue(HexDigit(v)) == v
  {
  }

  lemma ReadOneMore(s: string, c: char)
    requires AllHex(s) && IsHex(c)
    ensures AllHex(s + [c]) && Read(s + [c]) == 16 * Read(s) + DigitValue(c)
  {
    assert (s + [c])[..|s|] == s;
  }

  lemma PrintStep(v: nat, n: nat)
    requires n > 0 && v < Power16(n)
    ensures v / 16 < Power16(n - 1)
    ensures Read(Print(v, n)) == 16 * Read(Print(v / 16, n - 1)) + v % 16
  {
    DigitRoundTrip(v % 16);
    hide HexDigit, DigitValue, IsHex, AllHex, Read;
    ReadOneMore(Print(v / 16, n - 1), HexDigit(v % 16));
  }

  lemma ReadOfNothing(v: nat)
    requires v < Power16(0)
    ensures Read(Print(v, 0)) == v
  {
  }

  lemma {:induction false} ReadOfPrint(v: nat, n: nat)
    requires v < Power16(n)
    ensures Read(Print(v, n)) == v
  {
    hide Print, Read, Power16;
    if n == 0 {
      ReadOfNothing(v);
    } else {
      PrintStep(v, n);
      ReadOfPrint(v / 16, n - 1);
    }
  }

  // ----- the reader's patterns -----

  /** One kind of table row: the width digit before the key, the text between the numbers, the digits of the value. */
  datatype Kind = Kind(lead: char, middle: string, digits: nat)

  const WORD := Kind('6', ": sc01a_word_by_phone = 64'h", 16)
  const PHONE := Kind('6', ": ssi263_to_sc01_phone = 6'h", 2)
  const AUDIO := Kind('6', ": ssi263_to_sc01_audio_phone = 6'h", 2)
  const DURATION := Kind('8', ": ssi263_to_sc01_audio_phone = 6'h", 2)

  function Length(k: Kind): nat {
    5 + |k.middle| + k.digits + 1
  }

  /** The pattern of kind `k` matches `line` at position `i`: every character class is one character wide. */
  predicate MatchesAt(line: string, k: Kind, i: nat) {
    && i + Length(k) <= |line|
    && line[i] == k.lead && line[i + 1] == '\'' && line[i + 2] == 'h'
    && AllHex(line[i + 3..i + 5])
    && line[i + 5..i + 5 + |k.middle|] == k.middle
    && AllHex(line[i + 5 + |k.middle|..i + 5 + |k.middle| + k.digits])
    && line[i + Length(k) - 1] == ';'
  }

  /** `re.search`: the leftmost match at or after `i`. */
  function Search(line: string, k: Kind, i: nat): (r: Option<nat>)
    ensures r.Some? ==> i <= r.value && MatchesAt(line, k, r.value)
    ensures forall j | i <= j && MatchesAt(line, k, j) :: r.Some? && r.value <= j
    decreases |line| - i
  {
    if i >= |line| then None
    else if MatchesAt(line, k, i) then Some(i)
    else Search(line, k, i + 1)
  }

  function KeyAt(line: string, k: Kind, i: nat): nat
    requires MatchesAt(line, k, i)
  {
    Read(line[i + 3..i + 5])
  }

  function ValueAt(line: string, k: Kind, i: nat): nat
    requires MatchesAt(line, k, i)
  {
    Read(line[i + 5 + |k.middle|..i + 5 + |k.middle| + k.digits])
  }

  type Table = map<nat, nat>

  function Absorb(t: Table, line: string, k: Kind): Table {
    var at := Search(line, k, 0);
    if at.None? then t else t[KeyAt(line, k, at.value) := ValueAt(line, k, at.value)]
  }

  /** The reader's loop over these lines for one kind of row, from table `t` on. */
  function Folded(t: Table, lines: seq<string>, k: Kind): Table {
    if lines == [] then t
    else Absorb(Folded(t, lines[..|lines| - 1], k), lines[|lines| - 1], k)
  }

  function Collected(lines: seq<string>, k: Kind): Table {
    Folded(map[], lines, k)
  }

  /** Each phone with its word and its decoded fields, and the three maps between phones. */
  datatype Generated = Generated(
    words: Table, phones: map<nat, PhoneParams>, ssiToSc01: Table, audioOverrides: Table, durationOverrides: Table)

  predicate CoversAllPhones(words: Table) {
    forall phone | 0 <= phone < 64 :: phone in words
  }

  /** `parse_generated_data`. */
  function Parsed(lines: seq<string>): Option<Generated> {
    var words := Collected(lines, WORD);
    if !CoversAllPhones(words) then None
    else Some(Generated(words, map phone | phone in words :: Decode(phone, words[phone]),
                        Collected(lines, PHONE), Collected(lines, AUDIO), Collected(lines, DURATION)))
  }

  method ParseGeneratedData(lines: seq<string>) returns (r: Option<Generated>)
    ensures r == Parsed(lines)
  {
    var words: Table, phones: Table, audio: Table, duration: Table := map[], map[], map[], map[];
    for n := 0 to |lines|
      invariant words == Collected(lines[..n], WORD) && phones == Collected(lines[..n], PHONE)
      invariant audio == Collected(lines[..n], AUDIO) && duration == Collected(lines[..n], DURATION)
    {
      hide Absorb;
      assert lines[..n + 1][..n] == lines[..n];
      words := Absorb(words, lines[n], WORD);
      phones := Absorb(phones, lines[n], PHONE);
      audio := Absorb(audio, lines[n], AUDIO);
      duration := Absorb(duration, lines[n], DURATION);
    }
    assert lines[..|lines|] == lines;
    if !CoversAllPhones(words) { return None; }
    return Some(Generated(words, map phone | phone in words :: Decode(phone, words[phone]), phones, audio, duration));
  }

  // ----- the printer -----

  const INDENT := "            "

  function Joined(lead: char, key: string, middle: string, value: string): string {
    INDENT + [lead] + "'h" + key + middle + value + ";"
  }

  /** One printed table row. */
  function Row(k: Kind, key: nat, value: nat): string
    requires key < 0x100 && value < Power16(k.digits)
  {
    assert Power16(2) == 0x100;
    Joined(k.lead, Print(key, 2), k.middle, Print(value, k.digits))
  }

  function Rows(k: Kind, values: seq<nat>): seq<string>
    requires |values| <= 0x100 && forall i | 0 <= i < |values| :: values[i] < Power16(k.digits)
  {
    if values == [] then []
    else Rows(k, values[..|values| - 1]) + [Row(k, |values| - 1, values[|values| - 1])]
  }

  // ----- a row is read back -----

  /** The shape of the four kinds: one colon, at the head of the middle text. */
  predicate WellFormed(k: Kind) {
    && k.lead != ':' && k.lead != ' ' && |k.middle| > 0 && k.middle[0] == ':'
    && forall i | 0 < i < |k.middle| :: k.middle[i] != ':'
  }

  lemma WordIsWellFormed()
    ensures WellFormed(WORD)
  {
  }

  lemma PhoneIsWellFormed()
    ensures WellFormed(PHONE)
  {
  }

  lemma OverridesAreWellFormed()
    ensures WellFormed(AUDIO) && WellFormed(DURATION)
  {
  }

  /** Where the parts of a row are. */
  lemma Parts(lead: char, key: string, middle: string, value: string)
    requires |key| == 2
    ensures var line := Joined(lead, key, middle, value);
            var m := |middle|;
            && |line| == 18 + m + |value|
            && line[..12] == INDENT && line[12] == lead && line[13] == '\'' && line[14] == 'h'
            && line[15..17] == key && line[17..17 + m] == middle && line[17 + m..17 + m + |value|] == value
            && line[17 + m + |value|] == ';'
  {
  }

  /** A row's only colon stands behind its key. */
  lemma OnlyColon(k: Kind, key: nat, value: nat, j: nat)
    requires WellFormed(k) && key < 0x100 && value < Power16(k.digits) && j < |Row(k, key, value)|
    ensures Row(k, key, value)[j] == ':' <==> j == 17
  {
    assert Power16(2) == 0x100;
    var line, m := Row(k, key, value), |k.middle|;
    var digits, number := Print(key, 2), Print(value, k.digits);
    Parts(k.lead, digits, k.middle, number);
    hide Print, Power16, Joined, Row;
    if j < 12 {
      assert line[j] == line[..12][j] == INDENT[j];
    } else if 15 <= j < 17 {
      assert line[j] == line[15..17][j - 15];
    } else if 17 <= j < 17 + m {
      assert line[j] == line[17..17 + m][j - 17];
    } else if 17 + m <= j < 17 + m + k.digits {
      assert line[j] == line[17 + m..17 + m + k.digits][j - 17 - m];
    }
  }

  lemma RowMatches(k: Kind, key: nat, value: nat)
    requires key < 0x100 && value < Power16(k.digits)
    ensures var line := Row(k, key, value);
            MatchesAt(line, k, 12) && KeyAt(line, k, 12) == key && ValueAt(line, k, 12) == value
  {
    assert Power16(2) == 0x100;
    Parts(k.lead, Print(key, 2), k.middle, Print(value, k.digits));
    ReadOfPrint(key, 2);
    ReadOfPrint(value, k.digits);
    hide Print, Read, Joined, Power16;
  }

  /** Two kinds that no line can match at the same place. */
  predicate Distinct(k: Kind, other: Kind) {
    k.lead != other.lead || exists i :: 0 <= i < |k.middle| && i < |other.middle| && k.middle[i] != other.middle[i]
  }

  lemma KindsAreDistinct()
    ensures Distinct(WORD, PHONE) && Distinct(WORD, AUDIO) && Distinct(WORD, DURATION)
    ensures Distinct(PHONE, AUDIO) && Distinct(PHONE, DURATION) && Distinct(AUDIO, DURATION)
  {
    assert WORD.middle[3] != PHONE.middle[3] && WORD.middle[3] != AUDIO.middle[3];
    assert PHONE.middle[18] != AUDIO.middle[18];
  }

  /** No row of one kind is taken for another kind. */
  lemma KindsExclude(line: string, k: Kind, other: Kind, i: nat)
    requires (Distinct(k, other) || Distinct(other, k)) && MatchesAt(line, k, i)
    ensures !MatchesAt(line, other, i)
  {
  }

  /** The reader takes a row for what it is: its own kind with its key and value, and no other kind. */
  lemma RowIsReadBack(t: Table, k: Kind, key: nat, value: nat, reader: Kind)
    requires WellFormed(k) && WellFormed(reader) && key < 0x100 && value < Power16(k.digits)
    requires k == reader || Distinct(k, reader) || Distinct(reader, k)
    ensures Absorb(t, Row(k, key, value), reader) == if k == reader then t[key := value] else t
  {
    hide Row, MatchesAt, KeyAt, ValueAt, Power16, WellFormed, Distinct;
    var line := Row(k, key, value);
    RowMatches(k, key, value);
    if k != reader {
      KindsExclude(line, k, reader, 12);
    }
    forall j: nat | MatchesAt(line, reader, j) ensures j == 12 {
      ColonOfMatch(line, reader, j);
      OnlyColon(k, key, value, j + 5);
    }
  }

  lemma ColonOfMatch(line: string, k: Kind, j: nat)
    requires WellFormed(k) && MatchesAt(line, k, j)
    ensures j + 5 < |line| && line[j + 5] == ':'
  {
    assert line[j + 5] == line[j + 5..j + 5 + |k.middle|][0];
  }

  // ----- the whole package -----

  /** Text that is no table row: nowhere the start of a six- or eight-bit key and its colon. */
  predicate Keyless(line: string) {
    forall i | 0 <= i < |line| - 5 :: (line[i] == '6' || line[i] == '8') && line[i + 1] == '\'' ==> line[i + 5] != ':'
  }

  predicate AllKeyless(lines: seq<string>) {
    forall i | 0 <= i < |lines| :: Keyless(lines[i])
  }

  /** `VOTRAX_TO_SSI263`, sixteen phones a row. */
  const VOTRAX_00: seq<nat> := [
    0x02, 0x0A, 0x0B, 0x00, 0x28, 0x08, 0x08, 0x2F, 0x0E, 0x07, 0x07, 0x07, 0x37, 0x38, 0x24, 0x33]
  const VOTRAX_10: seq<nat> := [
    0x32, 0x32, 0x2F, 0x10, 0x39, 0x0F, 0x13, 0x13, 0x20, 0x29, 0x25, 0x2C, 0x26, 0x34, 0x25, 0x30]
  const VOTRAX_20: seq<nat> := [
    0x08, 0x09, 0x03, 0x1B, 0x0E, 0x27, 0x11, 0x07, 0x16, 0x05, 0x28, 0x1D, 0x01, 0x23, 0x0C, 0x0D]
  const VOTRAX_30: seq<nat> := [
    0x10, 0x1A, 0x19, 0x18, 0x11, 0x11, 0x14, 0x14, 0x35, 0x36, 0x1C, 0x0A, 0x01, 0x10, 0x00, 0x00]
  const VOTRAX_TO_SSI263: seq<nat> := VOTRAX_00 + VOTRAX_10 + VOTRAX_20 + VOTRAX_30

  /** A table from the 64 phones of one chip to those of the other. */
  predicate PhoneTable(table: seq<nat>) {
    |table| == 64 && forall i | 0 <= i < 64 :: table[i] < 64
  }

  /** `s` is inverted to the first phone mapped to it, or to $3F when there is none. */
  predicate InvertedAt(table: seq<nat>, s: nat, v: nat)
    requires |table| <= 64
  {
    if s in table then v < |table| && table[v] == s && s !in table[..v] else v == 0x3F
  }

  /** `invert_votrax_map`: the fill value doubles as the mark of a free entry, which is harmless. */
  method InvertVotraxMap(table: seq<nat>) returns (inverse: seq<nat>)
    requires PhoneTable(table)
    ensures |inverse| == 64
    ensures forall s | 0 <= s < 64 :: InvertedAt(table, s, inverse[s])
  {
    var cells := new nat[64](_ => 0x3F);
    for sc01 := 0 to 64
      invariant forall s | 0 <= s < 64 :: InvertedAt(table[..sc01], s, cells[s])
    {
      var ssi263 := table[sc01];
      ghost var before := cells[..];
      if cells[ssi263] == 0x3F {
        cells[ssi263] := sc01;
      }
      forall s | 0 <= s < 64 ensures InvertedAt(table[..sc01 + 1], s, cells[s]) {
        OneMoreInverted(table, sc01, s, before[s]);
      }
    }
    assert table[..64] == table;
    return cells[..];
  }

  lemma OneMoreInverted(table: seq<nat>, n: nat, s: nat, v: nat)
    requires PhoneTable(table) && n < 64 && s < 64 && InvertedAt(table[..n], s, v)
    ensures InvertedAt(table[..n + 1], s, if table[n] == s && v == 0x3F then n else v)
  {
    assert table[..n + 1] == table[..n] + [table[n]];
    if s in table[..n] {
      assert table[..n + 1][..v] == table[..n][..v];
    } else {
      assert table[..n + 1][..n] == table[..n];
    }
  }

  // ----- the ROM's rows -----

  /** `int.from_bytes(b, "little")`. */
  function LittleEndian(b: seq<byte>): (v: nat)
    ensures v < Power16(2 * |b|)
  {
    if b == [] then 0
    else
      assert Power16(2 * |b|) == 256 * Power16(2 * |b| - 2);
      b[0] as int + 256 * LittleEndian(b[1..])
  }

  /** The eight bytes of a row, or what the file has of them. */
  function RomRow(data: seq<byte>, row: nat): seq<byte> {
    var start := if 8 * row < |data| then 8 * row else |data|;
    var end := if 8 * row + 8 < |data| then 8 * row + 8 else |data|;
    data[start..end]
  }

  lemma {:induction false} Power16Grows(m: nat, n: nat)
    requires m <= n
    ensures Power16(m) <= Power16(n)
    decreases n
  {
    if m < n {
      Power16Grows(m, n - 1);
    }
  }

  function RowWord(data: seq<byte>, row: nat): (v: nat)
    ensures v < Power16(16)
  {
    Power16Grows(2 * |RomRow(data, row)|, 16);
    LittleEndian(RomRow(data, row))
  }

  /** `(word >> 56) & 0x3F`. */
  function RowPhone(word: nat): nat {
    word / 0x100_0000_0000_0000 % 64
  }

  /** The rows filed by phone, a later row replacing an earlier one. */
  function WordsByPhone(data: seq<byte>, rows: nat): (t: Table)
    ensures forall phone | phone in t :: phone < 64 && t[phone] < Power16(16)
  {
    if rows == 0 then map[]
    else
      var word := RowWord(data, rows - 1);
      WordsByPhone(data, rows - 1)[RowPhone(word) := word]
  }

  lemma {:induction false} LittleEndianBytes(b: seq<byte>, k: nat)
    requires k < |b|
    ensures LittleEndian(b) / Power256(k) % 256 == b[k] as int
  {
    LittleEndianTail(b);
    if k == 0 {
      assert Power256(0) == 1;
    } else {
      LittleEndianBytes(b[1..], k - 1);
      DivideTwice(LittleEndian(b), Power256(k - 1));
    }
  }

  lemma LittleEndianTail(b: seq<byte>)
    requires b != []
    ensures LittleEndian(b) / 256 == LittleEndian(b[1..]) && LittleEndian(b) % 256 == b[0] as int
  {
    hide Power16;
  }

  function Power256(k: nat): (p: nat)
    ensures p > 0
  {
    if k == 0 then 1 else 256 * Power256(k - 1)
  }

  lemma DivideTwice(v: nat, p: nat)
    requires p > 0
    ensures v / (256 * p) == v / 256 / p
  {
    var q, r := v / 256 / p, v / 256 % p;
    assert v == 256 * (q * p + r) + v % 256;
    assert 256 * (q * p) == q * (256 * p);
    QuotientOf(v, q, 256 * r + v % 256, 256 * p);
  }

  lemma QuotientOf(v: nat, q: nat, r: nat, d: nat)
    requires r < d && v == q * d + r
    ensures v / d == q
  {
    ChipFacts.QuotientIsUnique(v / d, v % d, q, r, d);
  }

  /** A row is filed under its eighth byte, of which the two top bits are ignored. */
  lemma RowIsFiledByItsLastByte(data: seq<byte>, row: nat)
    requires 8 * row + 8 <= |data|
    ensures RowPhone(RowWord(data, row)) == data[8 * row + 7] % 64
  {
    LittleEndianBytes(RomRow(data, row), 7);
    assert Power256(1) == 0x100 && Power256(2) == 0x1_0000 && Power256(3) == 0x100_0000;
    assert Power256(4) == 0x1_0000_0000 && Power256(5) == 0x100_0000_0000 && Power256(6) == 0x1_0000_0000_0000;
    assert Power256(7) == 0x100_0000_0000_0000;
    assert RomRow(data, row)[7] == data[8 * row + 7];
    SixBits(RowWord(data, row) / 0x100_0000_0000_0000);
  }

  lemma SixBits(v: nat)
    ensures v % 64 == v % 256 % 64
  {
  }

  lemma SizeWithKey(t: Table, key: nat, value: nat)
    ensures |t[key := value]| == if key in t then |t| else |t| + 1
  {
    assert t[key := value].Keys == t.Keys + {key};
  }

  predicate FiledAsIs(data: seq<byte>, rows: nat, r: nat) {
    var word := RowWord(data, r);
    RowPhone(word) in WordsByPhone(data, rows) && WordsByPhone(data, rows)[RowPhone(word)] == word
  }

  /** Rows file at most one phone each, and fewer in all once one of them has been replaced. */
  lemma {:induction false} PhonesFiled(data: seq<byte>, rows: nat, r: nat)
    requires r < rows
    ensures |WordsByPhone(data, rows)| <= rows && RowPhone(RowWord(data, r)) in WordsByPhone(data, rows)
    ensures FiledAsIs(data, rows, r) || |WordsByPhone(data, rows)| < rows
    decreases rows
  {
    hide RowPhone, RowWord;
    var last := RowWord(data, rows - 1);
    SizeWithKey(WordsByPhone(data, rows - 1), RowPhone(last), last);
    if r < rows - 1 {
      PhonesFiled(data, rows - 1, r);
    } else if rows > 1 {
      PhonesFiled(data, rows - 1, 0);
    }
  }

  lemma {:induction false} AtLeastThatMany(s: set<nat>, n: nat)
    requires forall x | 0 <= x < n :: x in s
    ensures |s| >= n
  {
    if n > 0 {
      AtLeastThatMany(s - {n - 1}, n - 1);
    }
  }

  /** A ROM whose 64 rows cover all phones has one row for each: replacing never loses a row. */
  lemma NoRowIsLost(data: seq<byte>, r: nat)
    requires r < 64 && CoversAllPhones(WordsByPhone(data, 64))
    ensures WordsByPhone(data, 64)[RowPhone(RowWord(data, r))] == RowWord(data, r)
  {
    PhonesFiled(data, 64, r);
    AtLeastThatMany(WordsByPhone(data, 64).Keys, 64);
  }

  // ----- the package and its round trip -----

  /** The lines before, between and behind the two tables. */
  datatype Text = Text(header: seq<string>, between: seq<string>, tail: seq<string>)

  function ByPhone(words: Table): seq<nat>
    requires CoversAllPhones(words)
  {
    seq(64, i requires 0 <= i < 64 => words[i])
  }

  /** `emit_package`, as its list of lines. */
  function Package(text: Text, inverse: seq<nat>, words: Table): seq<string>
    requires PhoneTable(inverse) && CoversAllPhones(words)
    requires forall phone | phone in words :: phone < 64 && words[phone] < Power16(16)
  {
    assert Power16(2) == 0x100;
    text.header + Rows(PHONE, inverse) + text.between + Rows(WORD, ByPhone(words)) + text.tail
  }

  method FileRows(data: seq<byte>) returns (words: Table)
    ensures words == WordsByPhone(data, 64)
  {
    words := map[];
    for row := 0 to 64
      invariant words == WordsByPhone(data, row)
    {
      var word := RowWord(data, row);
      words := words[RowPhone(word) := word];
    }
  }

  method EmitRows(before: seq<string>, k: Kind, values: seq<nat>) returns (lines: seq<string>)
    requires |values| <= 0x100 && forall i | 0 <= i < |values| :: values[i] < Power16(k.digits)
    ensures lines == before + Rows(k, values)
  {
    hide Row;
    lines := before;
    assert before + Rows(k, values[..0]) == before;
    for key := 0 to |values|
      invariant lines == before + Rows(k, values[..key])
    {
      assert values[..key + 1][..key] == values[..key];
      lines := lines + [Row(k, key, values[key])];
    }
    assert values[..|values|] == values;
  }

  method EmitPackage(data: seq<byte>, table: seq<nat>, text: Text)
    returns (r: Option<seq<string>>, ghost inverse: seq<nat>)
    requires PhoneTable(table)
    ensures PhoneTable(inverse) && forall s | 0 <= s < 64 :: InvertedAt(table, s, inverse[s])
    ensures r.Some? <==> CoversAllPhones(WordsByPhone(data, 64))
    ensures r.Some? ==> r.value == Package(text, inverse, WordsByPhone(data, 64))
  {
    hide WordsByPhone, Rows;
    var inverted := InvertVotraxMap(table);
    inverse := inverted;
    var words := FileRows(data);
    if !CoversAllPhones(words) { return None, inverse; }
    assert Power16(2) == 0x100;
    var lines := EmitRows(text.header, PHONE, inverted);
    lines := EmitRows(lines + text.between, WORD, ByPhone(words));
    return Some(lines + text.tail), inverse;
  }

  lemma {:induction false} FoldAppends(t: Table, a: seq<string>, b: seq<string>, k: Kind)
    ensures Folded(t, a + b, k) == Folded(Folded(t, a, k), b, k)
  {
    if b == [] {
      assert a + b == a;
    } else {
      hide Absorb;
      var n := |b| - 1;
      assert (a + b)[..|a + b| - 1] == a + b[..n];
      FoldAppends(t, a, b[..n], k);
    }
  }

  lemma KeyOfMatch(line: string, k: Kind, j: nat)
    requires WellFormed(k) && (k.lead == '6' || k.lead == '8') && MatchesAt(line, k, j)
    ensures !Keyless(line)
  {
    ColonOfMatch(line, k, j);
  }

  lemma {:induction false} KeylessFold(t: Table, lines: seq<string>, k: Kind)
    requires AllKeyless(lines) && WellFormed(k) && (k.lead == '6' || k.lead == '8')
    ensures Folded(t, lines, k) == t
  {
    if lines != [] {
      var n := |lines| - 1;
      KeylessFold(t, lines[..n], k);
      var line := lines[n];
      if Search(line, k, 0).Some? {
        KeyOfMatch(line, k, Search(line, k, 0).value);
      }
    }
  }

  function AsTable(values: seq<nat>): Table {
    map i | 0 <= i < |values| :: values[i]
  }

  lemma {:induction false} RowsFold(t: Table, k: Kind, values: seq<nat>, reader: Kind)
    requires |values| <= 0x100 && forall i | 0 <= i < |values| :: values[i] < Power16(k.digits)
    requires WellFormed(k) && WellFormed(reader) && (k == reader || Distinct(k, reader) || Distinct(reader, k))
    ensures Folded(t, Rows(k, values), reader) == if k == reader then t + AsTable(values) else t
  {
    hide Absorb, Row, WellFormed, Distinct, Power16, AsTable;
    TableGrows(t, values);
    if values != [] {
      var n := |values| - 1;
      RowsFold(t, k, values[..n], reader);
      RowIsReadBack(Folded(t, Rows(k, values[..n]), reader), k, n, values[n], reader);
      var rows := Rows(k, values[..n]);
      assert (rows + [Row(k, n, values[n])])[..|rows|] == rows;
    }
  }

  lemma TableGrows(t: Table, values: seq<nat>)
    ensures if values == [] then t + AsTable(values) == t
            else var n := |values| - 1; (t + AsTable(values[..n]))[n := values[n]] == t + AsTable(values)
  {
  }

  predicate KeylessText(text: Text) {
    AllKeyless(text.header) && AllKeyless(text.between) && AllKeyless(text.tail)
  }

  lemma FoldOfParts(a: seq<string>, b: seq<string>, c: seq<string>, d: seq<string>, e: seq<string>, k: Kind)
    ensures Collected(a + b + c + d + e, k)
        == Folded(Folded(Folded(Folded(Folded(map[], a, k), b, k), c, k), d, k), e, k)
  {
    hide Folded;
    FoldAppends(map[], a, b, k);
    FoldAppends(map[], a + b, c, k);
    FoldAppends(map[], a + b + c, d, k);
    FoldAppends(map[], a + b + c + d, e, k);
  }

  predicate Separable(k: Kind, reader: Kind) {
    WellFormed(k) && WellFormed(reader) && (k == reader || Distinct(k, reader) || Distinct(reader, k))
  }

  /** What a reader of one kind collects from two tables of different kinds and the text around them. */
  lemma TwoTables(text: Text, phone: Kind, inverse: seq<nat>, word: Kind, words: seq<nat>, k: Kind)
    requires KeylessText(text) && (k.lead == '6' || k.lead == '8')
    requires Separable(phone, k) && Separable(word, k) && phone != word
    requires |inverse| <= 0x100 && forall i | 0 <= i < |inverse| :: inverse[i] < Power16(phone.digits)
    requires |words| <= 0x100 && forall i | 0 <= i < |words| :: words[i] < Power16(word.digits)
    ensures Collected(text.header + Rows(phone, inverse) + text.between + Rows(word, words) + text.tail, k)
            == if k == word then AsTable(words) else if k == phone then AsTable(inverse) else map[]
  {
    hide Folded, Rows, WellFormed, Distinct, Keyless, Collected, Power16;
    FoldOfParts(text.header, Rows(phone, inverse), text.between, Rows(word, words), text.tail, k);
    KeylessFold(map[], text.header, k);
    RowsFold(map[], phone, inverse, k);
    var t := if k == phone then map[] + AsTable(inverse) else map[];
    KeylessFold(t, text.between, k);
    RowsFold(t, word, words, k);
    KeylessFold(if k == word then t + AsTable(words) else t, text.tail, k);
  }

  lemma KindsAreSeparable(k: Kind)
    requires k in {WORD, PHONE, AUDIO, DURATION}
    ensures Separable(PHONE, k) && Separable(WORD, k) && PHONE != WORD && (k.lead == '6' || k.lead == '8')
  {
    hide WellFormed, Distinct;
    WordIsWellFormed();
    PhoneIsWellFormed();
    OverridesAreWellFormed();
    KindsAreDistinct();
  }

  /** What the reader collects for one kind of row from a printed package. */
  lemma PackageFolds(text: Text, inverse: seq<nat>, words: Table, k: Kind)
    requires KeylessText(text) && PhoneTable(inverse) && CoversAllPhones(words)
    requires forall phone | phone in words :: phone < 64 && words[phone] < Power16(16)
    requires k in {WORD, PHONE, AUDIO, DURATION}
    ensures Collected(Package(text, inverse, words), k)
            == if k == WORD then words else if k == PHONE then AsTable(inverse) else map[]
  {
    KindsAreSeparable(k);
    assert Power16(2) == 0x100;
    hide Collected, Rows, Separable, KeylessText, Power16;
    TwoTables(text, PHONE, inverse, WORD, ByPhone(words), k);
    assert AsTable(ByPhone(words)) == words;
  }

  /** Reading a printed package gives back every word, all 64 bits of it and decoded, the phone map, and no override. */
  lemma PackageRoundTrip(text: Text, inverse: seq<nat>, words: Table)
    requires KeylessText(text) && PhoneTable(inverse) && CoversAllPhones(words)
    requires forall phone | phone in words :: phone < 64 && words[phone] < Power16(16)
    ensures Parsed(Package(text, inverse, words))
            == Some(Generated(
                 words, map phone | phone in words :: Decode(phone, words[phone]), AsTable(inverse), map[], map[]))
  {
    hide Package, Collected;
    PackageFolds(text, inverse, words, WORD);
    PackageFolds(text, inverse, words, PHONE);
    PackageFolds(text, inverse, words, AUDIO);
    PackageFolds(text, inverse, words, DURATION);
  }

  lemma ShippedTableIsProper()
    ensures PhoneTable(VOTRAX_TO_SSI263)
  {
    assert |VOTRAX_00| == 16 && |VOTRAX_10| == 16 && |VOTRAX_20| == 16 && |VOTRAX_30| == 16;
    assert forall i | 0 <= i < 16 :: VOTRAX_00[i] < 64;
    assert forall i | 0 <= i < 16 :: VOTRAX_10[i] < 64;
    assert forall i | 0 <= i < 16 :: VOTRAX_20[i] < 64;
    assert forall i | 0 <= i < 16 :: VOTRAX_30[i] < 64;
  }

  /** The generator with its own table, followed by the reader: a ROM that covers all phones comes back whole. */
  method GenerateAndRead(data: seq<byte>, text: Text) returns (r: Option<Generated>)
    requires KeylessText(text)
    ensures r.Some? <==> CoversAllPhones(WordsByPhone(data, 64))
    ensures r.Some? ==>
      && r.value.words == WordsByPhone(data, 64)
      && (forall phone | 0 <= phone < 64 ::
            && phone in r.value.phones && r.value.phones[phone] == Decode(phone, WordsByPhone(data, 64)[phone])
            && phone in r.value.ssiToSc01 && InvertedAt(VOTRAX_TO_SSI263, phone, r.value.ssiToSc01[phone]))
      && r.value.audioOverrides == map[] && r.value.durationOverrides == map[]
  {
    ShippedTableIsProper();
    hide WordsByPhone, Package, Parsed, KeylessText, InvertedAt, VOTRAX_TO_SSI263, Decode;
    var lines, inverse := EmitPackage(data, VOTRAX_TO_SSI263, text);
    if lines.None? {
      return None;
    }
    PackageRoundTrip(text, inverse, WordsByPhone(data, 64));
    r := ParseGeneratedData(lines.value);
  }
}
