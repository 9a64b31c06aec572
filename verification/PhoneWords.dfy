/** The 64-bit phone words of the speech ROM: scattered fields, and how they partition the low 44 bits. */
module PhoneWords {
  import opened Bytes
  import opened Chip

  /** `(word >> index) & 1`, for negative integers too. */
  function Bit(word: int, index: nat): (b: int)
    ensures b == 0 || b == 1
    decreases index
  {
    if index == 0 then word % 2 else Bit(word / 2, index - 1)
  }

  /** `bits`: the bits at the given positions, the first one most significant. */
  function Gather(word: int, indexes: seq<nat>): (v: nat)
    ensures v < Power2(|indexes|)
  {
    if indexes == [] then 0
    else
      var n := |indexes| - 1;
      2 * Gather(word, indexes[..n]) + Bit(word, indexes[n])
  }

  /** `~word`. */
  function Complemented(word: int): int {
    -word - 1
  }

  const DURATION_BITS: seq<nat> := [37, 38, 39, 40, 41, 42, 43]

  /** `decode_phone_word`. */
  function Decode(phone: nat, word: nat): PhoneParams {
    PhoneParams(
      Gather(word, [0, 7, 14, 21]), Gather(word, [1, 8, 15, 22]), Gather(word, [2, 9, 16, 23]),
      Gather(word, [3, 10, 17, 24]), Gather(word, [4, 11, 18, 25]), Gather(word, [5, 12, 19, 26]),
      Gather(word, [6, 13, 20, 27]), Gather(word, [34, 32, 30, 28]), Gather(word, [35, 33, 31, 29]),
      Bit(word, 36) == 1, Gather(Complemented(word), DURATION_BITS), phone == 0x03 || phone == 0x3E)
  }

  /** Every decoded row has the field ranges that the chip models rely on. */
  lemma DecodedIsFromRom(phone: nat, word: nat)
    ensures Decode(phone, word).FromRom()
  {
    assert Power2(4) == 16 && Power2(7) == 128;
  }

  lemma {:induction false} GatherBit(word: int, indexes: seq<nat>, j: nat)
    requires j < |indexes|
    ensures Bit(Gather(word, indexes), j) == Bit(word, indexes[|indexes| - 1 - j])
  {
    if j > 0 {
      var n := |indexes| - 1;
      assert Gather(word, indexes) / 2 == Gather(word, indexes[..n]);
      GatherBit(word, indexes[..n], j - 1);
    }
  }

  lemma {:induction false} BitOfComplement(word: int, i: nat)
    ensures Bit(Complemented(word), i) == 1 - Bit(word, i)
    decreases i
  {
    if i > 0 {
      assert Complemented(word) / 2 == Complemented(word / 2);
      BitOfComplement(word / 2, i - 1);
    }
  }

  lemma {:induction false} BitsDetermine(v: nat, w: nat, n: nat)
    requires v < Power2(n) && w < Power2(n) && forall j | 0 <= j < n :: Bit(v, j) == Bit(w, j)
    ensures v == w
  {
    if n > 0 {
      forall j | 0 <= j < n - 1 ensures Bit(v / 2, j) == Bit(w / 2, j) {
        assert Bit(v, j + 1) == Bit(v / 2, j) && Bit(w, j + 1) == Bit(w / 2, j);
      }
      BitsDetermine(v / 2, w / 2, n - 1);
      assert Bit(v, 0) == Bit(w, 0);
    }
  }

  lemma {:induction false} BitOfNumber(bits: seq<bool>, i: nat)
    requires i < |bits|
    ensures Bit(Number(bits), i) == if bits[i] then 1 else 0
  {
    if i > 0 {
      assert Number(bits) / 2 == Number(bits[1..]);
      BitOfNumber(bits[1..], i - 1);
    }
  }

  // ----- the fields partition the low 44 bits -----

  /** The seven fields interleaved in bits 0 to 27. */
  function Interleaved(p: PhoneParams, k: nat): nat
    requires k < 7
  {
    match k
    case 0 => p.f1
    case 1 => p.va
    case 2 => p.f2
    case 3 => p.fc
    case 4 => p.f2q
    case 5 => p.f3
    case _ => p.fa
  }

  /** The word bit that a set of parameters puts at position `i`. */
  function Layout(p: PhoneParams, i: nat): int
    requires i < 44
  {
    if i < 28 then Bit(Interleaved(p, i % 7), 3 - i / 7)
    else if i < 36 then Bit(if i % 2 == 0 then p.cld else p.vd, (i - 28) / 2)
    else if i == 36 then if p.closure then 1 else 0
    else 1 - Bit(p.duration, 43 - i)
  }

  /** Decoding loses none of the low 44 bits. */
  lemma FieldsShowLowBits(phone: nat, word: nat, i: nat)
    requires i < 44
    ensures Layout(Decode(phone, word), i) == Bit(word, i)
  {
    hide Decode, Bit;
    if i < 28 {
      InterleavedBits(phone, word, i);
    } else if i < 36 {
      AmplitudeDelayBits(phone, word, i);
    } else {
      ClosureAndDurationBits(phone, word, i);
    }
  }

  lemma AmplitudeDelayBits(phone: nat, word: nat, i: nat)
    requires 28 <= i < 36
    ensures Bit(if i % 2 == 0 then Decode(phone, word).cld else Decode(phone, word).vd, (i - 28) / 2) == Bit(word, i)
  {
    hide Bit, Gather;
    var j := (i - 28) / 2;
    var indexes: seq<nat> := if i % 2 == 0 then [34, 32, 30, 28] else [35, 33, 31, 29];
    GatherBit(word, indexes, j);
    assert indexes[3 - j] == i;
  }

  lemma ClosureAndDurationBits(phone: nat, word: nat, i: nat)
    requires 36 <= i < 44
    ensures Layout(Decode(phone, word), i) == Bit(word, i)
  {
    hide Bit, Gather;
    if i > 36 {
      GatherBit(Complemented(word), DURATION_BITS, 43 - i);
      BitOfComplement(word, i);
    }
  }

  lemma InterleavedBits(phone: nat, word: nat, i: nat)
    requires i < 28
    ensures Bit(Interleaved(Decode(phone, word), i % 7), 3 - i / 7) == Bit(word, i)
  {
    hide Bit, Gather;
    var k, j := i % 7, 3 - i / 7;
    var indexes: seq<nat> := [k, k + 7, k + 14, k + 21];
    assert Interleaved(Decode(phone, word), k) == Gather(word, indexes);
    GatherBit(word, indexes, j);
    assert indexes[3 - j] == i;
  }

  predicate LowBitsAgree(v: nat, w: nat) {
    forall i | 0 <= i < 44 :: Bit(v, i) == Bit(w, i)
  }

  /** Two words decode alike exactly when they agree on bits 0 to 43. */
  lemma SameFieldsIff(phone: nat, v: nat, w: nat)
    ensures Decode(phone, v) == Decode(phone, w) <==> LowBitsAgree(v, w)
  {
    hide Bit, Decode, Layout;
    var p, q := Decode(phone, v), Decode(phone, w);
    forall i | 0 <= i < 44 ensures Layout(p, i) == Bit(v, i) && Layout(q, i) == Bit(w, i) {
      FieldsShowLowBits(phone, v, i);
      FieldsShowLowBits(phone, w, i);
    }
    if LowBitsAgree(v, w) {
      DecodedIsFromRom(phone, v);
      DecodedIsFromRom(phone, w);
      SamePause(phone, v, w);
      LayoutDetermines(p, q);
    } else {
      var i :| 0 <= i < 44 && Bit(v, i) != Bit(w, i);
      assert Layout(p, i) != Layout(q, i);
    }
  }

  lemma SamePause(phone: nat, v: nat, w: nat)
    ensures Decode(phone, v).pause == Decode(phone, w).pause
  {
  }

  /** The word with exactly these parameters and nothing above bit 43. */
  function Word(p: PhoneParams): nat {
    Number(seq(44, i requires 0 <= i < 44 => Layout(p, i) == 1))
  }

  /** And every set of parameters in range is the decoding of some word: the fields partition the bits. */
  lemma DecodeOfWord(phone: nat, p: PhoneParams)
    requires p.FromRom() && p.pause == (phone == 0x03 || phone == 0x3E)
    ensures Decode(phone, Word(p)) == p && Word(p) < Power2(44)
  {
    var bits := seq(44, i requires 0 <= i < 44 => Layout(p, i) == 1);
    NumberBound(bits);
    var q := Decode(phone, Word(p));
    DecodedIsFromRom(phone, Word(p));
    forall i | 0 <= i < 44 ensures Layout(q, i) == Layout(p, i) {
      BitOfNumber(bits, i);
      FieldsShowLowBits(phone, Word(p), i);
    }
    LayoutDetermines(p, q);
  }

  lemma LayoutDetermines(p: PhoneParams, q: PhoneParams)
    requires p.FromRom() && q.FromRom() && p.pause == q.pause
    requires forall i | 0 <= i < 44 :: Layout(p, i) == Layout(q, i)
    ensures p == q
  {
    hide Bit;
    assert Power2(4) == 16 && Power2(7) == 128;
    forall k | 0 <= k < 7 ensures Interleaved(p, k) == Interleaved(q, k) {
      forall j | 0 <= j < 4 ensures Bit(Interleaved(p, k), j) == Bit(Interleaved(q, k), j) {
        assert Layout(p, k + 7 * (3 - j)) == Layout(q, k + 7 * (3 - j));
      }
      BitsDetermine(Interleaved(p, k), Interleaved(q, k), 4);
    }
    forall j | 0 <= j < 4 ensures Bit(p.cld, j) == Bit(q.cld, j) && Bit(p.vd, j) == Bit(q.vd, j) {
      assert Layout(p, 28 + 2 * j) == Layout(q, 28 + 2 * j) && Layout(p, 29 + 2 * j) == Layout(q, 29 + 2 * j);
    }
    BitsDetermine(p.cld, q.cld, 4);
    BitsDetermine(p.vd, q.vd, 4);
    assert Layout(p, 36) == Layout(q, 36);
    forall j | 0 <= j < 7 ensures Bit(p.duration, j) == Bit(q.duration, j) {
      assert Layout(p, 43 - j) == Layout(q, 43 - j);
    }
    BitsDetermine(p.duration, q.duration, 7);
    assert Interleaved(p, 0) == Interleaved(q, 0) && Interleaved(p, 1) == Interleaved(q, 1)
        && Interleaved(p, 2) == Interleaved(q, 2) && Interleaved(p, 3) == Interleaved(q, 3)
        && Interleaved(p, 4) == Interleaved(q, 4) && Interleaved(p, 5) == Interleaved(q, 5)
        && Interleaved(p, 6) == Interleaved(q, 6);
  }
}
