/** PAL256 pictures: the packer of one bank and the renderer's path that shows it. */
module Pal256 {
  import opened Bytes

  const BANK_SIZE := 0x8000
  const PIXEL_BYTES := 320 * 100
  const CTRL_OFFSET := 0x7DF8
  const MAGIC_OFFSET := 0x7DFC
  const PALETTE_OFFSET := 0x7E00
  const SHR4_MAGIC: seq<byte> := [0xD3, 0xC8, 0xD2, 0xB4]

  type Bank = b: seq<byte> | |b| == BANK_SIZE witness seq(BANK_SIZE, _ => 0)

  datatype Colour = Colour(r: int, g: int, b: int)

  type Row = seq<Colour>

  /** The two palette bytes of entry `idx`: green and blue nibbles, then the PAL256 submode and the red nibble. */
  function PaletteByte(palette: seq<byte>, idx: nat, half: nat): byte
    requires idx < 256 && half < 2 && |palette| >= 768
  {
    if half == 0 then palette[3 * idx + 1] / 16 * 16 + palette[3 * idx + 2] / 16
    else 0x20 + palette[3 * idx] / 16
  }

  /** What a packed bank holds at each offset. */
  function BankByte(pixels: seq<byte>, palette: seq<byte>, paged: byte, off: nat): byte
    requires |pixels| == PIXEL_BYTES && |palette| >= 768 && off < BANK_SIZE
  {
    if off < PIXEL_BYTES then pixels[off]
    else if off == CTRL_OFFSET then paged
    else if MAGIC_OFFSET <= off < MAGIC_OFFSET + 4 then SHR4_MAGIC[off - MAGIC_OFFSET]
    else if off >= PALETTE_OFFSET then PaletteByte(palette, (off - PALETTE_OFFSET) / 2, (off - PALETTE_OFFSET) % 2)
    else 0
  }

  /** `make_bank`: a field of the wrong size or a short palette is refused; otherwise pixels, control byte, magic and
      palette each stand in their own region of a zeroed bank. */
  method MakeBank(pixels: seq<byte>, palette: seq<byte>, paged: byte) returns (r: Option<seq<byte>>)
    ensures r.Some? <==> |pixels| == PIXEL_BYTES && |palette| >= 768
    ensures r.Some? ==> |r.value| == BANK_SIZE
    ensures r.Some? ==> forall off | 0 <= off < BANK_SIZE :: r.value[off] == BankByte(pixels, palette, paged, off)
    ensures r.Some? ==> r.value[..0x7D00] == pixels && r.value[0x7DF8] == paged
    ensures r.Some? ==> r.value[0x7DFC..0x7E00] == [0xD3, 0xC8, 0xD2, 0xB4]
    ensures r.Some? ==> forall off | 0x7D00 <= off < 0x7DFC && off != 0x7DF8 :: r.value[off] == 0
  {
    if |pixels| != PIXEL_BYTES {
      return None;
    }
    var bank := new byte[BANK_SIZE](_ => 0);
    forall off | 0 <= off < PIXEL_BYTES {
      bank[off] := pixels[off];
    }
    bank[CTRL_OFFSET] := paged;
    forall k | 0 <= k < 4 {
      bank[MAGIC_OFFSET + k] := SHR4_MAGIC[k];
    }
    for idx := 0 to 256
      invariant idx > 0 ==> |palette| >= 3 * idx
      invariant forall off | 0 <= off < PALETTE_OFFSET ::
        bank[off] == if off < PIXEL_BYTES then pixels[off]
                     else if off == CTRL_OFFSET then paged
                     else if off >= MAGIC_OFFSET then SHR4_MAGIC[off - MAGIC_OFFSET] else 0
      invariant forall k | 0 <= k < idx ::
        bank[PALETTE_OFFSET + 2 * k] == EvenByte(palette, k) && bank[PALETTE_OFFSET + 2 * k + 1] == OddByte(palette, k)
    {
      if |palette| < 3 * idx + 3 {
        return None;
      }
      var red, green, blue := palette[3 * idx], palette[3 * idx + 1], palette[3 * idx + 2];
      bank[PALETTE_OFFSET + idx * 2] := green / 16 * 16 + blue / 16;
      bank[PALETTE_OFFSET + idx * 2 + 1] := 0x20 + red / 16;
    }
    r := Some(bank[..]);
    forall off | PALETTE_OFFSET <= off < BANK_SIZE
      ensures bank[off] == BankByte(pixels, palette, paged, off)
    {
      var k := (off - PALETTE_OFFSET) / 2;
      assert bank[PALETTE_OFFSET + 2 * k] == EvenByte(palette, k) == PaletteByte(palette, k, 0);
      assert bank[PALETTE_OFFSET + 2 * k + 1] == OddByte(palette, k) == PaletteByte(palette, k, 1);
      assert off == PALETTE_OFFSET + 2 * k || off == PALETTE_OFFSET + 2 * k + 1;
    }
  }

  function EvenByte(palette: seq<byte>, k: nat): byte {
    if 3 * k + 2 < |palette| then palette[3 * k + 1] / 16 * 16 + palette[3 * k + 2] / 16 else 0
  }

  function OddByte(palette: seq<byte>, k: nat): byte {
    if 3 * k < |palette| then 0x20 + palette[3 * k] / 16 else 0
  }

  /** Read memory address `addr` from a bank image that starts at $2000. */
  function Rd(bank: Bank, addr: int): byte {
    if 0 <= addr - 0x2000 < BANK_SIZE then bank[addr - 0x2000] else 0
  }

  function GsRgb(raw: int): Colour {
    Colour(raw / 0x100 % 0x10 * 16, raw / 0x10 % 0x10 * 16, raw % 0x10 * 16)
  }

  /** Whether the field selects PAL256: the SHR4 magic, and some palette entry with submode 2. */
  predicate IsPal256(bank: Bank) {
    && bank[MAGIC_OFFSET..MAGIC_OFFSET + 4] == SHR4_MAGIC
    && exists i | 0 <= i < 256 :: bank[0x7E01 + i * 2] / 16 == 2
  }

  /** The colour the renderer reads for byte pixel `x` of line `y`. */
  function PixelColour(bank: Bank, y: int, x: int): Colour {
    var a := 0x9E00 + Rd(bank, 0x2000 + 320 * y + x) as int * 2;
    GsRgb(Rd(bank, a) as int + Rd(bank, a + 1) as int * 0x100)
  }

  method Pal256Line(bank: Bank, y: nat) returns (row: Row)
    ensures |row| == 640 && forall x | 0 <= x < 320 :: row[2 * x] == row[2 * x + 1] == PixelColour(bank, y, x)
  {
    row := [];
    for x := 0 to 320
      invariant |row| == 2 * x && forall k | 0 <= k < x :: row[2 * k] == row[2 * k + 1] == PixelColour(bank, y, k)
    {
      var c := PixelColour(bank, y, x);
      row := row + [c, c];
    }
  }

  ghost predicate ShowsLine(row: Option<Row>, bank: Bank, y: int) {
    row.Some? && |row.value| == 640
    && forall x | 0 <= x < 320 :: row.value[2 * x] == row.value[2 * x + 1] == PixelColour(bank, y, x)
  }

  /** The bank and line that output row `i` shows. */
  function Source(aux: Bank, main: Bank, paged: int, fieldIndex: int, i: nat): (Bank, nat) {
    if paged == 1 then (if i < 200 then aux else main, i / 2 % 100)
    else (if paged == 2 && fieldIndex != 0 then main else aux, i / 4)
  }

  /** The PAL256 path of `Renderer.frame`, taken when the AUX field selects it; every one of the 400 rows is filled. */
  method Frame(aux: Bank, main: Bank, paged: int, fieldIndex: int) returns (rows: seq<Option<Row>>)
    requires IsPal256(aux)
    ensures |rows| == 400
    ensures forall i | 0 <= i < 400 ::
      var (bank, y) := Source(aux, main, paged, fieldIndex, i); ShowsLine(rows[i], bank, y)
  {
    hide PixelColour;
    var out := new Option<Row>[400](_ => None);
    if paged == 1 {
      for n := 0 to 200
        invariant forall i | 0 <= i < 2 * n :: ShowsLine(out[i], if i < 200 then aux else main, i / 2 % 100)
      {
        var row := Pal256Line(if n < 100 then aux else main, n % 100);
        out[2 * n], out[2 * n + 1] := Some(row), Some(row);
      }
    } else {
      var bank := if paged == 2 && fieldIndex != 0 then main else aux;
      for y := 0 to 100
        invariant forall i | 0 <= i < 4 * y :: ShowsLine(out[i], bank, i / 4)
      {
        var row := Pal256Line(bank, y);
        out[4 * y], out[4 * y + 1], out[4 * y + 2], out[4 * y + 3] := Some(row), Some(row), Some(row), Some(row);
      }
    }
    rows := out[..];
  }

  /** A palette colour as the display shows it: the high nibble of each channel. */
  function Shown(palette: seq<byte>, idx: nat): Colour
    requires 3 * idx + 2 < |palette|
  {
    Colour(palette[3 * idx] / 16 * 16, palette[3 * idx + 1] / 16 * 16, palette[3 * idx + 2] / 16 * 16)
  }

  ghost predicate IsBankOf(bank: Bank, pixels: seq<byte>, palette: seq<byte>, paged: byte) {
    |pixels| == PIXEL_BYTES && |palette| >= 768
    && forall off | 0 <= off < BANK_SIZE :: bank[off] == BankByte(pixels, palette, paged, off)
  }

  /** Every pixel of a packed bank is shown in its palette colour, whatever the pixels and the palette. */
  lemma PixelShowsItsColour(bank: Bank, pixels: seq<byte>, palette: seq<byte>, paged: byte, y: nat, x: nat)
    requires IsBankOf(bank, pixels, palette, paged) && y < 100 && x < 320
    ensures PixelColour(bank, y, x) == Shown(palette, pixels[320 * y + x])
  {
    var idx := pixels[320 * y + x];
    assert Rd(bank, 0x2000 + 320 * y + x) == idx;
    var a := 0x9E00 + idx as int * 2;
    var lo, hi := Rd(bank, a), Rd(bank, a + 1);
    assert lo == PaletteByte(palette, idx, 0) && hi == PaletteByte(palette, idx, 1);
    NibblesReadBack(palette[3 * idx as int], palette[3 * idx as int + 1], palette[3 * idx as int + 2]);
  }

  lemma NibblesReadBack(r: byte, g: byte, b: byte)
    ensures GsRgb((g / 16 * 16 + b / 16) as int + (0x20 + r / 16) as int * 0x100)
        == Colour(r / 16 * 16, g / 16 * 16, b / 16 * 16)
  {
    var raw := (g / 16 * 16 + b / 16) as int + (0x20 + r / 16) as int * 0x100;
    assert raw / 0x100 == 0x20 + r / 16;
    assert raw / 0x10 == g / 16 + (0x20 + r / 16) as int * 0x10;
  }

  lemma PackedSelectsPal256(bank: Bank, pixels: seq<byte>, palette: seq<byte>, paged: byte)
    requires IsBankOf(bank, pixels, palette, paged)
    ensures IsPal256(bank)
  {
    assert bank[0x7E01 + 0 * 2] == PaletteByte(palette, 0, 1);
    var magic := bank[MAGIC_OFFSET..MAGIC_OFFSET + 4];
    assert forall k | 0 <= k < 4 :: magic[k] == SHR4_MAGIC[k];
    assert magic == SHR4_MAGIC;
  }

  /** The field and line of a 320x200 picture that output row `i` shows, and its first pixel. */
  function FirstPixel(interlaced: bool, i: nat): nat {
    if interlaced then i / 2 * 320 else i / 4 * 320
  }

  /** Pack a picture as the command line does: one field, or AUX top half and MAIN bottom half. */
  method Pack(indices: seq<byte>, palette: seq<byte>, interlaced: bool) returns (file: Option<seq<byte>>)
    ensures file.Some? <==> |indices| == (if interlaced then 2 * PIXEL_BYTES else PIXEL_BYTES) && |palette| >= 768
    ensures file.Some? ==> IsFileOf(file.value, indices, palette, interlaced)
  {
    if interlaced {
      if |indices| < PIXEL_BYTES {
        return None;
      }
      var aux := MakeBank(indices[..PIXEL_BYTES], palette, 1);
      var main := MakeBank(indices[PIXEL_BYTES..], palette, 1);
      if aux.None? || main.None? {
        return None;
      }
      file := Some(aux.value + main.value);
      assert file.value[..BANK_SIZE] == aux.value && file.value[BANK_SIZE..] == main.value;
    } else {
      file := MakeBank(indices, palette, 0);
    }
  }

  ghost predicate IsFileOf(file: seq<byte>, indices: seq<byte>, palette: seq<byte>, interlaced: bool) {
    if interlaced then
      && |file| == 2 * BANK_SIZE && |indices| == 2 * PIXEL_BYTES
      && IsBankOf(file[..BANK_SIZE], indices[..PIXEL_BYTES], palette, 1)
      && IsBankOf(file[BANK_SIZE..], indices[PIXEL_BYTES..], palette, 1)
    else |file| == BANK_SIZE && IsBankOf(file, indices, palette, 0)
  }

  /** How the renderer splits such a file, and the double mode it reads from the control byte. */
  function Split(file: seq<byte>): (Bank, Bank, int)
    requires |file| == BANK_SIZE || |file| == 2 * BANK_SIZE
  {
    var aux := file[..BANK_SIZE];
    var main := if |file| == 2 * BANK_SIZE then file[BANK_SIZE..] else seq(BANK_SIZE, _ => 0);
    (aux, main, if aux[CTRL_OFFSET] in {1, 2} then aux[CTRL_OFFSET] as int else 0)
  }

  /** Packing and rendering are inverse up to the four-bit palette: each pixel comes back as its palette colour with the
      low nibbles cleared, doubled sideways, in every one of the 400 rows. */
  method PackedPictureIsShown(indices: seq<byte>, palette: seq<byte>, interlaced: bool, file: seq<byte>)
    returns (rows: seq<Option<Row>>)
    requires IsFileOf(file, indices, palette, interlaced)
    ensures |rows| == 400
    ensures forall i | 0 <= i < 400 :: ShowsPixels(rows[i], indices, palette, FirstPixel(interlaced, i))
  {
    hide PixelColour, Shown, IsBankOf, BankByte;
    PalettePresent(indices, palette, interlaced, file);
    var (aux, main, paged) := Split(file);
    assert !interlaced ==> file[..BANK_SIZE] == file;
    PackedSelectsPal256(
      aux, if interlaced then indices[..PIXEL_BYTES] else indices, palette, if interlaced then 1 else 0);
    rows := Frame(aux, main, paged, 0);
    forall i | 0 <= i < 400
      ensures ShowsPixels(rows[i], indices, palette, FirstPixel(interlaced, i))
    {
      forall x | 0 <= x < 320
        ensures rows[i].value[2 * x] == rows[i].value[2 * x + 1]
            == Shown(palette, indices[FirstPixel(interlaced, i) + x])
      {
        RowShows(indices, palette, interlaced, file, i, x);
      }
    }
  }

  /** The row holds 320 consecutive pixels from `first` on, each twice and in its displayed palette colour. */
  ghost predicate ShowsPixels(row: Option<Row>, indices: seq<byte>, palette: seq<byte>, first: nat) {
    && row.Some? && |row.value| == 640 && first + 320 <= |indices| && |palette| >= 768
    && forall x | 0 <= x < 320 :: row.value[2 * x] == row.value[2 * x + 1] == Shown(palette, indices[first + x])
  }

  lemma PalettePresent(indices: seq<byte>, palette: seq<byte>, interlaced: bool, file: seq<byte>)
    requires IsFileOf(file, indices, palette, interlaced)
    ensures |palette| >= 768 && |indices| == if interlaced then 2 * PIXEL_BYTES else PIXEL_BYTES
  {
  }

  /** Row `i` of the frame takes byte pixel `x` from its picture pixel. */
  ghost predicate ShowsPixelAt(
      indices: seq<byte>, palette: seq<byte>, interlaced: bool, file: seq<byte>, i: nat, x: nat)
    requires |file| == BANK_SIZE || |file| == 2 * BANK_SIZE
  {
    && |palette| >= 768 && FirstPixel(interlaced, i) + x < |indices|
    && var (aux, main, paged) := Split(file);
       var (bank, y) := Source(aux, main, paged, 0, i);
       PixelColour(bank, y, x) == Shown(palette, indices[FirstPixel(interlaced, i) + x])
  }

  lemma RowShows(indices: seq<byte>, palette: seq<byte>, interlaced: bool, file: seq<byte>, i: nat, x: nat)
    requires IsFileOf(file, indices, palette, interlaced) && i < 400 && x < 320 && |palette| >= 768
    ensures ShowsPixelAt(indices, palette, interlaced, file, i, x)
  {
    hide PixelColour, Shown, IsBankOf;
    ModeReadsBack(indices, palette, interlaced, file);
    PixelCount(indices, palette, interlaced, file);
    var y := i / 2 % 100;
    if !interlaced {
      assert file[..BANK_SIZE] == file;
      PixelShowsItsColour(file, indices, palette, 0, i / 4, x);
    } else if i < 200 {
      assert y == i / 2;
      PixelShowsItsColour(file[..BANK_SIZE], indices[..PIXEL_BYTES], palette, 1, y, x);
    } else {
      assert y == i / 2 - 100;
      PixelShowsItsColour(file[BANK_SIZE..], indices[PIXEL_BYTES..], palette, 1, y, x);
    }
  }

  lemma PixelCount(indices: seq<byte>, palette: seq<byte>, interlaced: bool, file: seq<byte>)
    requires IsFileOf(file, indices, palette, interlaced)
    ensures |indices| == if interlaced then 2 * PIXEL_BYTES else PIXEL_BYTES
  {
  }

  lemma ModeReadsBack(indices: seq<byte>, palette: seq<byte>, interlaced: bool, file: seq<byte>)
    requires IsFileOf(file, indices, palette, interlaced)
    ensures Split(file).2 == if interlaced then 1 else 0
  {
    assert file[..BANK_SIZE][CTRL_OFFSET] == file[CTRL_OFFSET];
  }
}
