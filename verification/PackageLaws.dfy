/** What the reader of the generated package takes from any text, and which ROMs fill a package. */
module PackageLaws {
  import opened Bytes
  import opened FormantPackage

  /** The sixteen digits, in either case, have the values of their places. */
  lemma HexDigitsIff(c: char, v: nat)
    requires v < 16
    ensures IsHex(c) && DigitValue(c) == v <==> c == "0123456789ABCDEF"[v] || c == "0123456789abcdef"[v]
  {
  }

  /** The text of a row of kind `k` stands at `i`: two digits of key and as many of value as the kind has. */
  predicate RowStands(line: string, k: Kind, i: nat, key: string, value: string) {
    && |key| == 2 && AllHex(key) && |value| == k.digits && AllHex(value)
    && i + |Text(k, key, value)| <= |line| && line[i..i + |Text(k, key, value)|] == Text(k, key, value)
  }

  function Text(k: Kind, key: string, value: string): string {
    [k.lead] + "'h" + key + k.middle + value + ";"
  }

  lemma PartsOfText(k: Kind, key: string, value: string)
    requires |key| == 2
    ensures var t, m := Text(k, key, value), |k.middle|;
            && |t| == 6 + m + |value| && t[0] == k.lead && t[1] == '\'' && t[2] == 'h' && t[3..5] == key
            && t[5..5 + m] == k.middle && t[5 + m..5 + m + |value|] == value && t[5 + m + |value|] == ';'
  {
  }

  /** The pattern matches exactly where such a text stands, and its groups are the two numbers. */
  lemma MatchIff(line: string, k: Kind, i: nat)
    ensures MatchesAt(line, k, i) <==> exists key, value :: RowStands(line, k, i, key, value)
    ensures forall key, value | RowStands(line, k, i, key, value) ::
      KeyAt(line, k, i) == Read(key) && ValueAt(line, k, i) == Read(value)
  {
    var m := |k.middle|;
    hide AllHex, Read, Text;
    forall key, value | RowStands(line, k, i, key, value)
      ensures MatchesAt(line, k, i) && KeyAt(line, k, i) == Read(key) && ValueAt(line, k, i) == Read(value)
    {
      TextIsMatched(line, k, i, key, value);
    }
    if MatchesAt(line, k, i) {
      var key, value := line[i + 3..i + 5], line[i + 5 + m..i + 5 + m + k.digits];
      MatchIsText(line, k, i);
      assert RowStands(line, k, i, key, value);
    }
  }

  lemma SliceOfSlice(line: string, i: nat, n: nat, a: nat, b: nat)
    requires i + n <= |line| && a <= b <= n
    ensures line[i..i + n][a..b] == line[i + a..i + b]
  {
    var part := line[i..i + n];
    assert forall j | 0 <= j < b - a :: part[a..b][j] == part[a + j] == line[i + (a + j)] == line[i + a..i + b][j];
  }

  /** The seven stretches of a row text in a line. */
  lemma Stretches(line: string, i: nat, m: nat, d: nat)
    requires i + 6 + m + d <= |line|
    ensures var t := line[i..i + 6 + m + d];
            && t[0] == line[i] && t[1] == line[i + 1] && t[2] == line[i + 2] && t[3..5] == line[i + 3..i + 5]
            && t[5..5 + m] == line[i + 5..i + 5 + m] && t[5 + m..5 + m + d] == line[i + 5 + m..i + 5 + m + d]
            && t[5 + m + d] == line[i + 5 + m + d]
  {
    var n := 6 + m + d;
    SliceOfSlice(line, i, n, 3, 5);
    SliceOfSlice(line, i, n, 5, 5 + m);
    SliceOfSlice(line, i, n, 5 + m, 5 + m + d);
  }

  lemma TextIsMatched(line: string, k: Kind, i: nat, key: string, value: string)
    requires RowStands(line, k, i, key, value)
    ensures MatchesAt(line, k, i) && KeyAt(line, k, i) == Read(key) && ValueAt(line, k, i) == Read(value)
  {
    hide AllHex, Read, Text;
    PartsOfText(k, key, value);
    Stretches(line, i, |k.middle|, k.digits);
  }

  lemma MatchIsText(line: string, k: Kind, i: nat)
    requires MatchesAt(line, k, i)
    ensures var key, value := line[i + 3..i + 5], line[i + 5 + |k.middle|..i + 5 + |k.middle| + k.digits];
            line[i..i + Length(k)] == Text(k, key, value)
  {
    hide AllHex, Text;
    var m := |k.middle|;
    var key, value := line[i + 3..i + 5], line[i + 5 + m..i + 5 + m + k.digits];
    TextIs(k, key, value);
    Stretches(line, i, m, k.digits);
    Joins(line[i..i + 6 + m + k.digits], m, k.digits);
  }

  lemma TextIs(k: Kind, key: string, value: string)
    ensures Text(k, key, value) == [k.lead, '\'', 'h'] + key + k.middle + value + [';']
  {
    assert [k.lead] + "'h" == [k.lead, '\'', 'h'];
  }

  lemma Joins(t: string, m: nat, d: nat)
    requires |t| == 6 + m + d
    ensures t == [t[0], t[1], t[2]] + t[3..5] + t[5..5 + m] + t[5 + m..5 + m + d] + [t[5 + m + d]]
  {
    assert t[..5 + m] == [t[0], t[1], t[2]] + t[3..5] + t[5..5 + m];
  }

  /** The first row text in the line, wherever it begins, gives this key. */
  ghost predicate GivesKey(line: string, k: Kind, key: nat) {
    exists i: nat :: FirstMatch(line, k, i) && KeyAt(line, k, i) == key
  }

  ghost predicate Gives(line: string, k: Kind, key: nat, value: nat) {
    exists i: nat :: FirstMatch(line, k, i) && KeyAt(line, k, i) == key && ValueAt(line, k, i) == value
  }

  ghost predicate FirstMatch(line: string, k: Kind, i: nat) {
    MatchesAt(line, k, i) && forall j: nat | j < i :: !MatchesAt(line, k, j)
  }

  lemma AbsorbLaw(t: Table, line: string, k: Kind, key: nat, value: nat)
    ensures key in Absorb(t, line, k) && Absorb(t, line, k)[key] == value <==>
      Gives(line, k, key, value) || (!GivesKey(line, k, key) && key in t && t[key] == value)
  {
    hide MatchesAt, KeyAt, ValueAt;
    var at := Search(line, k, 0);
    assert forall i: nat :: FirstMatch(line, k, i) <==> at == Some(i);
  }

  /** A key is read with a value exactly when some line gives it that value and no later line gives the key. */
  lemma {:induction false} LastRowWins(lines: seq<string>, k: Kind, key: nat, value: nat)
    ensures key in Collected(lines, k) && Collected(lines, k)[key] == value <==>
      exists n | 0 <= n < |lines| ::
        Gives(lines[n], k, key, value) && forall m | n < m < |lines| :: !GivesKey(lines[m], k, key)
  {
    hide Absorb, Gives, GivesKey;
    if lines != [] {
      var last := |lines| - 1;
      var before := lines[..last];
      LastRowWins(before, k, key, value);
      AbsorbLaw(Collected(before, k), lines[last], k, key, value);
      GivesItsKey(lines[last], k, key, value);
      assert Collected(lines, k) == Absorb(Collected(before, k), lines[last], k);
    }
  }

  lemma GivesItsKey(line: string, k: Kind, key: nat, value: nat)
    ensures Gives(line, k, key, value) ==> GivesKey(line, k, key)
  {
  }

  /** The text of a row of the phone map. */
  lemma PhoneRowText(key: nat, value: nat)
    requires key < 0x100 && value < 0x100
    ensures PHONE.digits == 2 && Power16(2) == 0x100
    ensures Row(PHONE, key, value)
            == "            6'h" + Print(key, 2) + ": ssi263_to_sc01_phone = 6'h" + Print(value, 2) + ";"
    ensures Print(key, 2) == [HexDigit(key / 16), HexDigit(key % 16)]
  {
    TwoDigits(key);
    hide Print;
    assert INDENT + [PHONE.lead] + "'h" == "            6'h";
  }

  lemma TwoDigits(v: nat)
    requires v < 0x100
    ensures Power16(2) == 0x100 && Print(v, 2) == [HexDigit(v / 16), HexDigit(v % 16)]
  {
    assert Power16(2) == 0x100 && Power16(1) == 16 && Power16(0) == 1;
    assert Print(v / 16, 1) == Print(0, 0) + [HexDigit(v / 16)];
  }

  // ----- which ROMs fill a package -----

  /** The phone of a row: the low six bits of its eighth byte, or 0 when the file ends before it. */
  function PhoneOfRow(data: seq<byte>, row: nat): int {
    if 8 * row + 7 < |data| then data[8 * row + 7] % 64 else 0
  }

  lemma {:induction false} ShortRowIsSmall(b: seq<byte>)
    ensures LittleEndian(b) < Power256(|b|)
  {
    if b != [] {
      ShortRowIsSmall(b[1..]);
    }
  }

  lemma {:induction false} Power256Grows(m: nat, n: nat)
    requires m <= n
    ensures Power256(m) <= Power256(n)
    decreases n
  {
    if m < n {
      Power256Grows(m, n - 1);
    }
  }

  lemma RowPhoneIs(data: seq<byte>, row: nat)
    ensures RowPhone(RowWord(data, row)) == PhoneOfRow(data, row)
  {
    if 8 * row + 8 <= |data| {
      RowIsFiledByItsLastByte(data, row);
    } else {
      ShortRowIsSmall(RomRow(data, row));
      Power256Grows(|RomRow(data, row)|, 7);
      assert Power256(3) == 0x100_0000 && Power256(5) == 0x100_0000_0000 && Power256(7) == 0x100_0000_0000_0000;
    }
  }

  lemma {:induction false} FiledPhones(data: seq<byte>, rows: nat, phone: nat)
    ensures phone in WordsByPhone(data, rows) <==> exists r | 0 <= r < rows :: PhoneOfRow(data, r) == phone
  {
    hide RowPhone, RowWord, PhoneOfRow;
    if rows > 0 {
      FiledPhones(data, rows - 1, phone);
      RowPhoneIs(data, rows - 1);
    }
  }

  ghost predicate SomeRowNames(data: seq<byte>, phone: nat) {
    exists r | 0 <= r < 64 :: PhoneOfRow(data, r) == phone
  }

  /** A ROM fills a package exactly when each of the 64 phones is named by the eighth byte of one of its 64 rows. */
  lemma CoversIff(data: seq<byte>)
    ensures CoversAllPhones(WordsByPhone(data, 64)) <==> forall phone: nat | phone < 64 :: SomeRowNames(data, phone)
  {
    hide PhoneOfRow, WordsByPhone;
    forall phone: nat ensures phone in WordsByPhone(data, 64) <==> SomeRowNames(data, phone) {
      FiledPhones(data, 64, phone);
    }
  }
}
