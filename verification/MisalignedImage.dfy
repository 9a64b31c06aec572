/** An accepted boot image whose second image claims no partition header, but an offset four bytes into one. */
module MisalignedImage {
  import opened Bytes
  import opened LoadImage
  import opened RawElf
  import opened BootImage

  const WORDS := 125
  const FIRST_IMAGE := 44
  const SECOND_IMAGE := 76

  /** Boot header, image header table, two image headers named A and B, one partition header and one payload word. */
  function Word(i: nat): (v: int)
    ensures 0 <= v <= MAX_U32
  {
    match i
    case 8 => 0xAA99_5566
    case 9 => 0x584C_4E58
    case 12 => 496
    case 13 => 4
    case 16 => 4
    case 18 => 0xFD1A_5A49
    case 38 => 0xA0
    case 39 => 432
    case 40 => 0x0102_0000
    case 41 => 1
    case 42 => 108
    case 43 => 44
    case 44 => 76
    case 45 => 108
    case 47 => 1
    case 48 => 0x4100_0000
    case 77 => 109
    case 79 => 1
    case 80 => 0x4200_0000
    case 108 => 1
    case 109 => 1
    case 110 => 1
    case 113 => 124
    case 123 => 0xFFFF_FF80
    case _ => 0
  }

  function Raw(): (raw: seq<byte>)
    ensures |raw| == 4 * WORDS
  {
    seq(4 * WORDS, k requires 0 <= k < 4 * WORDS => PackU32(Word(k / 4))[k % 4])
  }

  lemma RawByte(i: nat, j: nat)
    requires i < WORDS && j < 4
    ensures Raw()[4 * i + j] == PackU32(Word(i))[j]
  {
    hide PackU32, Word;
    assert (4 * i + j) / 4 == i && (4 * i + j) % 4 == j;
  }

  lemma SameWord(a: seq<byte>, at: nat, b: seq<byte>)
    requires at + 4 <= |a| && |b| == 4 && a[at] == b[0] && a[at + 1] == b[1] && a[at + 2] == b[2] && a[at + 3] == b[3]
    ensures U32(a, at) == U32(b, 0)
  {
  }

  /** Reading word `i` of the image, whose value is `v`. */
  lemma Reads(i: nat, v: int)
    requires i < WORDS && Word(i) == v
    ensures U32(Raw(), 4 * i) == v
  {
    hide PackU32, Word, Raw, U32;
    RawByte(i, 0);
    RawByte(i, 1);
    RawByte(i, 2);
    RawByte(i, 3);
    SameWord(Raw(), 4 * i, PackU32(v));
    UnpackPacked(v);
  }

  function Sum(i: nat, n: nat): int {
    if n == 0 then 0 else Sum(i, n - 1) + Word(i + n - 1)
  }

  lemma {:induction false} SumOfWords(i: nat, n: nat)
    requires i + n <= WORDS
    ensures WordSum(Raw(), 4 * i, n) == Sum(i, n)
  {
    hide Word, Raw, U32;
    if n > 0 {
      SumOfWords(i, n - 1);
      Reads(i + n - 1, Word(i + n - 1));
    }
  }

  lemma BootSum()
    ensures Sum(8, 11) == 0x1_FFFF_FFFF
  {
    assert Sum(8, 1) == 0xAA99_5566;
    assert Sum(8, 2) == 0x1_02E5_A3BE;
    assert Sum(8, 4) == 0x1_02E5_A3BE;
    assert Sum(8, 5) == 0x1_02E5_A5AE;
    assert Sum(8, 6) == 0x1_02E5_A5B2;
    assert Sum(8, 8) == 0x1_02E5_A5B2;
    assert Sum(8, 9) == 0x1_02E5_A5B6;
    assert Sum(8, 10) == 0x1_02E5_A5B6;
  }

  lemma PartitionSum()
    ensures Sum(108, 16) == 0xFFFF_FFFF
  {
    assert Sum(108, 2) == 2;
    assert Sum(108, 4) == 3;
    assert Sum(108, 6) == 127;
    assert Sum(108, 8) == 127;
    assert Sum(108, 10) == 127;
    assert Sum(108, 12) == 127;
    assert Sum(108, 14) == 127;
  }

  lemma ChecksumOf(i: nat, n: nat, sum: int)
    requires i + n <= WORDS && Sum(i, n) == sum && sum % 0x1_0000_0000 == 0xFFFF_FFFF
    ensures ChecksumHolds(Raw(), 4 * i, n)
  {
    hide Word, Raw, WordSum, Sum;
    SumOfWords(i, n);
  }

  lemma Checksums()
    ensures ChecksumHolds(Raw(), 0x20, 11) && ChecksumHolds(Raw(), 432, 16)
  {
    BootSum();
    PartitionSum();
    hide Word, Raw, WordSum, Sum, ChecksumHolds;
    ChecksumOf(8, 11, 0x1_FFFF_FFFF);
    ChecksumOf(108, 16, 0xFFFF_FFFF);
  }

  lemma BootWords()
    ensures U32(Raw(), 0x20) == 0xAA99_5566 && U32(Raw(), 0x24) == 0x584C_4E58 && U32(Raw(), 0x28) == 0
    ensures U32(Raw(), 0x98) == 0xA0 && U32(Raw(), 0x9C) == 432
    ensures U32(Raw(), 0xA0) == 0x0102_0000 && U32(Raw(), 0xA4) == 1 && U32(Raw(), 0xA8) == 108
        && U32(Raw(), 0xAC) == 44
  {
    hide Raw, U32;
    Reads(8, 0xAA99_5566);
    Reads(9, 0x584C_4E58);
    Reads(10, 0);
    Reads(38, 0xA0);
    Reads(39, 432);
    Reads(40, 0x0102_0000);
    Reads(41, 1);
    Reads(42, 108);
    Reads(43, 44);
  }

  lemma TableIsRead()
    ensures TableOf(Raw()) == Some((Table(432, 1), 44))
  {
    BootWords();
    Checksums();
    hide Raw, U32, ChecksumHolds, Word;
  }

  /** Seven words of zeros follow the name's first. */
  lemma NameIsRead(i: nat, letter: byte)
    requires i in {FIRST_IMAGE, SECOND_IMAGE} && letter as int == (if i == FIRST_IMAGE then 0x41 else 0x42)
    ensures CheckedBytes(Raw(), 4 * i + 16, 112).Some?
    ensures NameOf(CheckedBytes(Raw(), 4 * i + 16, 112).value) == Some([letter])
  {
    PaddedName(letter);
    hide Word, NameOf, PackU32, WordSwapped, Padded, Raw;
    var swapped := WordSwapped(Padded(letter));
    var encoded := CheckedBytes(Raw(), 4 * i + 16, 112).value;
    forall k | 0 <= k < 112 ensures encoded[k] == swapped[k] {
      NameByte(i, letter, k);
      SwappedByte(letter, k);
    }
    assert encoded == swapped;
  }

  lemma SwappedByte(letter: byte, k: nat)
    requires k < 112
    ensures WordSwapped(Padded(letter))[k] == if k == 3 then letter else 0
  {
    assert WordSwapped(Padded(letter))[k] == Padded(letter)[k / 4 * 4 + 3 - k % 4];
  }

  function Padded(letter: byte): (r: seq<byte>)
    ensures |r| == 112
  {
    [letter] + seq(111, _ => 0)
  }

  lemma PaddedName(letter: byte)
    requires 0 < letter as int < 128
    ensures NameOf(WordSwapped(Padded(letter))) == Some([letter])
  {
    hide WordSwapped, NameOf;
    NameRoundTrip([letter], Padded(letter));
  }

  lemma NameByte(i: nat, letter: byte, k: nat)
    requires i in {FIRST_IMAGE, SECOND_IMAGE} && letter as int == (if i == FIRST_IMAGE then 0x41 else 0x42) && k < 112
    ensures Raw()[4 * i + 16 + k] == if k == 3 then letter else 0
  {
    var word := i + 4 + k / 4;
    assert (4 * i + 16 + k) / 4 == word && (4 * i + 16 + k) % 4 == k % 4;
    assert Word(word) == if k / 4 == 0 then letter as int * 0x100_0000 else 0;
  }

  lemma HeaderWords()
    ensures U32(Raw(), 176) == 76 && U32(Raw(), 180) == 108 && U32(Raw(), 188) == 1
    ensures U32(Raw(), 304) == 0 && U32(Raw(), 308) == 109 && U32(Raw(), 316) == 1
  {
    hide Raw, U32;
    Reads(44, 76);
    Reads(45, 108);
    Reads(47, 1);
    Reads(76, 0);
    Reads(77, 109);
    Reads(79, 1);
  }

  lemma HeadersAreRead()
    ensures HeaderAt(Raw(), 176, 1) == Some(ImageHeader(176, 76, 432, 1, [0x41]))
    ensures HeaderAt(Raw(), 304, 1) == Some(ImageHeader(304, 0, 436, 1, [0x42]))
  {
    HeaderWords();
    NameIsRead(FIRST_IMAGE, 0x41);
    NameIsRead(SECOND_IMAGE, 0x42);
    hide Raw, U32, NameOf, CheckedBytes, Word, HeaderAt;
    HeaderFrom(Raw(), 176, 76, 108, [0x41]);
    HeaderFrom(Raw(), 304, 0, 109, [0x42]);
  }

  lemma HeaderFrom(raw: seq<byte>, at: nat, next: nat, first: nat, name: seq<byte>)
    requires at + 16 <= |raw| && U32(raw, at) == next && U32(raw, at + 4) == first && U32(raw, at + 12) == 1
    requires CheckedBytes(raw, at + 16, 112).Some? && NameOf(CheckedBytes(raw, at + 16, 112).value) == Some(name)
    ensures HeaderAt(raw, at, 1) == Some(ImageHeader(at, next, first * 4, 1, name))
  {
    hide U32, NameOf;
  }

  lemma WalkAccepts()
    ensures Walk(Raw(), 44, {}, map[], Table(432, 1)) == Some(map[432 := [0x41], 436 := [0x42]])
  {
    HeadersAreRead();
    hide Raw, HeaderAt;
    var table, raw := Table(432, 1), Raw();
    var h, g := ImageHeader(176, 76, 432, 1, [0x41]), ImageHeader(304, 0, 436, 1, [0x42]);
    var first: Names := map[432 := [0x41]];
    assert Assign(map[], h, 1, table) == Some(first);
    var both: Names := first[436 := [0x42]];
    assert Assign(first, g, 1, table) == Some(both);
    assert Walk(raw, 0, {176, 304}, both, table) == Some(both);
    assert {176} + {304} == {176, 304} && {} + {176} == {176};
    assert Walk(raw, 76, {176}, first, table) == Some(both);
  }

  /** The image is accepted; its second header claims the table's start plus four, which is no partition header. */
  lemma MisalignedClaimAccepted()
    ensures var p := Partition([0x41], 0, 0, 496, 4, 0);
            && IsPartitionTable(Raw(), [p])
            && HeaderAt(Raw(), 304, 1).Some? && !Table(432, 1).IsHeader(HeaderAt(Raw(), 304, 1).value.Claim(0))
  {
    TableIsRead();
    WalkAccepts();
    HeadersAreRead();
    PartitionIsRead();
    LoaderFieldsAreRead();
    hide Raw, Walk, TableOf, PartitionAt, LoaderFieldsMatch, HeaderAt;
  }

  lemma PartitionWords()
    ensures U32(Raw(), 432) == 1 && U32(Raw(), 436) == 1 && U32(Raw(), 440) == 1 && U32(Raw(), 444) == 0
    ensures U32(Raw(), 448) == 0 && U32(Raw(), 452) == 124 && U32(Raw(), 456) == 0 && U32(Raw(), 464) == 0
        && U32(Raw(), 472) == 0
  {
    hide Raw, U32;
    Reads(108, 1);
    Reads(109, 1);
    Reads(110, 1);
    Reads(111, 0);
    Reads(112, 0);
    Reads(113, 124);
    Reads(114, 0);
    Reads(116, 0);
    Reads(118, 0);
  }

  lemma PartitionIsRead()
    ensures PartitionAt(Raw(), Table(432, 1), map[432 := [0x41], 436 := [0x42]], 0)
        == Some(Partition([0x41], 0, 0, 496, 4, 0))
  {
    PartitionWords();
    Checksums();
    hide Raw, U32, ChecksumHolds, Word;
  }

  lemma LoaderFieldsAreRead()
    ensures LoaderFieldsMatch(Raw(), Partition([0x41], 0, 0, 496, 4, 0))
  {
    hide Raw, U32;
    Reads(12, 496);
    Reads(13, 4);
    Reads(14, 0);
    Reads(15, 0);
    Reads(16, 4);
  }
}
