/** CRC-32 of RFC 1952 section 8, defined bit by bit, and its guarantee against short bursts. */
module Crc32 {
  import opened Bytes

  type Register = r: seq<bool> | |r| == 32 witness seq(32, _ => false)

  /** Bit `i` of the reflected polynomial 0xEDB88320, that is the coefficient of x^(31 - i). */
  predicate Feedback(i: int) {
    31 - i in {26, 23, 22, 16, 12, 11, 10, 8, 7, 5, 4, 2, 1, 0}
  }

  /** One message bit enters at the low end; the bit shifted out decides the feedback. */
  function Step(r: Register, bit: bool): Register {
    var out := r[0] != bit;
    seq(32, i requires 0 <= i < 32 => (i < 31 && r[i + 1]) != (out && Feedback(i)))
  }

  function FeedBits(r: Register, bits: seq<bool>): Register
    decreases bits
  {
    if bits == [] then r else FeedBits(Step(r, bits[0]), bits[1..])
  }

  function Feed(r: Register, data: seq<byte>): Register
    decreases data
  {
    if data == [] then r else Feed(FeedBits(r, Bits(data[0], 8)), data[1..])
  }

  function Complement(r: Register): Register {
    seq(32, i requires 0 <= i < 32 => !r[i])
  }

  /** `zlib.crc32(data, value) & 0xFFFFFFFF`. */
  function Crc(data: seq<byte>, value: nat): nat {
    Number(Complement(Feed(Complement(Bits(value, 32)), data)))
  }

  lemma CrcFits(data: seq<byte>, value: nat)
    ensures 0 <= Crc(data, value) <= MAX_U32
  {
    NumberBound(Complement(Feed(Complement(Bits(value, 32)), data)));
    PowerOf32();
  }

  function Nibble(v: nat): (bits: seq<bool>)
    ensures |bits| == 4
  {
    [v % 2 == 1, v / 2 % 2 == 1, v / 4 % 2 == 1, v / 8 % 2 == 1]
  }

  lemma PeelNibble(v: nat, n: nat)
    ensures Bits(v, n + 4) == Nibble(v) + Bits(v / 16, n)
  {
    hide Bits;
    PeelTwo(v, n + 2);
    PeelTwo(v / 4, n);
    assert v / 4 / 4 == v / 16 && v / 4 / 2 == v / 8;
  }

  lemma PeelTwo(v: nat, n: nat)
    ensures Bits(v, n + 2) == [v % 2 == 1, v / 2 % 2 == 1] + Bits(v / 4, n)
  {
    assert Bits(v / 2, n + 1) == [v / 2 % 2 == 1] + Bits(v / 2 / 2, n);
    assert v / 2 / 2 == v / 4;
  }

  /** The polynomial's coefficients, least significant bit first. */
  lemma PolynomialBits(i: nat)
    requires i < 32
    ensures Bits(0xEDB8_8320, 32)[i] == Feedback(i)
  {
    hide Bits;
    LowPolynomialBits(i);
    if i >= 16 {
      HighPolynomialBits(i - 16);
    }
  }

  lemma LowPolynomialBits(i: nat)
    requires i < 32
    ensures Bits(0xEDB8_8320, 32)[i] == if i < 16 then Feedback(i) else Bits(0xEDB8, 16)[i - 16]
  {
    hide Bits;
    PeelNibble(0xEDB8_8320, 28);
    PeelNibble(0xEDB_8832, 24);
    PeelNibble(0xED_B883, 20);
    PeelNibble(0xE_DB88, 16);
  }

  lemma HighPolynomialBits(i: nat)
    requires i < 16
    ensures Bits(0xEDB8, 16)[i] == Feedback(i + 16)
  {
    hide Bits;
    PeelNibble(0xEDB8, 12);
    PeelNibble(0xEDB, 8);
    PeelNibble(0xED, 4);
    PeelNibble(0xE, 0);
  }

  lemma {:induction false} LeadingZero(bits: seq<bool>)
    ensures Number(bits + [false]) == Number(bits)
  {
    if bits != [] {
      assert (bits + [false])[1..] == bits[1..] + [false];
      LeadingZero(bits[1..]);
    }
  }

  /** A step shifts the register one place down and, when the bit shifted out differs from the message bit, adds
      0xEDB88320 modulo two. */
  lemma StepLaw(r: Register, bit: bool, i: nat)
    requires i < 32
    ensures var shifted := Bits(Number(r) / 2, 32);
            var feedback := Number(r) % 2 != if bit then 1 else 0;
            Step(r, bit)[i] == (shifted[i] != (feedback && Bits(0xEDB8_8320, 32)[i]))
  {
    PolynomialBits(i);
    LeadingZero(r[1..]);
    BitsOfNumber(r[1..] + [false]);
    hide Bits, Feedback;
    assert Number(r) / 2 == Number(r[1..]);
  }

  /** The register starts from the complement of the seed and ends complemented: of no bytes, the checksum is the seed.
      */
  lemma CrcOfNothing(value: nat)
    requires value <= MAX_U32
    ensures Crc([], value) == value
  {
    var bits := Bits(value, 32);
    assert Complement(Complement(bits)) == bits;
    CrcFits([], value);
    PowerOf32();
    BitsOfNumber(bits);
    BitsInjective(value, Number(bits), 32);
  }

  lemma PowerOf32()
    ensures Power2(32) == 0x1_0000_0000
  {
    assert Power2(8) == 0x100;
    assert Power2(16) == 0x1_0000;
    assert Power2(24) == 0x100_0000;
  }

  lemma {:induction false} FeedConcat(r: Register, a: seq<byte>, b: seq<byte>)
    ensures Feed(r, a + b) == Feed(Feed(r, a), b)
    decreases a
  {
    if a == [] {
      assert a + b == b;
    } else {
      assert (a + b)[1..] == a[1..] + b;
      FeedConcat(FeedBits(r, Bits(a[0], 8)), a[1..], b);
    }
  }

  /** Checksumming chunk by chunk, each call seeded with the last result, is checksumming the whole. */
  lemma CrcOfChunks(a: seq<byte>, b: seq<byte>, value: nat)
    ensures Crc(a + b, value) == Crc(b, Crc(a, value))
  {
    var start := Complement(Bits(value, 32));
    var middle := Feed(start, a);
    FeedConcat(start, a, b);
    BitsOfNumber(Complement(middle));
    assert Complement(Complement(middle)) == middle;
  }

  lemma {:induction false} FeedBitsConcat(r: Register, p: seq<bool>, q: seq<bool>)
    ensures FeedBits(r, p + q) == FeedBits(FeedBits(r, p), q)
    decreases p
  {
    if p == [] {
      assert p + q == q;
    } else {
      assert (p + q)[1..] == p[1..] + q;
      FeedBitsConcat(Step(r, p[0]), p[1..], q);
    }
  }

  /** Two runs that end alike after at most 32 bits differed at the start exactly by their messages. */
  lemma {:induction false} Backward(r: Register, p: seq<bool>, s: Register, q: seq<bool>)
    requires |p| == |q| <= 32 && FeedBits(r, p) == FeedBits(s, q)
    ensures forall i | 0 <= i < 32 :: (r[i] == s[i]) == (i < |p| ==> p[i] == q[i])
    decreases p
  {
    if p != [] {
      var r1, s1 := Step(r, p[0]), Step(s, q[0]);
      Backward(r1, p[1..], s1, q[1..]);
      assert r1[31] == s1[31];
      assert (r[0] != p[0]) == (s[0] != q[0]);
      forall i | 0 <= i < 32
        ensures (r[i] == s[i]) == (i < |p| ==> p[i] == q[i])
      {
        if i > 0 {
          assert (r1[i - 1] == s1[i - 1]) == (r[i] == s[i]);
        }
      }
    }
  }

  lemma {:induction false} FeedInjective(r: Register, s: Register, data: seq<byte>)
    requires Feed(r, data) == Feed(s, data)
    ensures r == s
    decreases data
  {
    if data != [] {
      var bits := Bits(data[0], 8);
      FeedInjective(FeedBits(r, bits), FeedBits(s, bits), data[1..]);
      Backward(r, bits, s, bits);
    }
  }

  /** The message bits of a byte string, in the order the register takes them. */
  function BitsOf(data: seq<byte>): (bits: seq<bool>)
    ensures |bits| == 8 * |data|
  {
    if data == [] then [] else Bits(data[0], 8) + BitsOf(data[1..])
  }

  lemma {:induction false} FeedIsFeedBits(r: Register, data: seq<byte>)
    ensures Feed(r, data) == FeedBits(r, BitsOf(data))
    decreases data
  {
    if data != [] {
      FeedIsFeedBits(FeedBits(r, Bits(data[0], 8)), data[1..]);
      FeedBitsConcat(r, Bits(data[0], 8), BitsOf(data[1..]));
    }
  }

  lemma {:induction false} BitsOfInjective(a: seq<byte>, b: seq<byte>)
    requires |a| == |b| && BitsOf(a) == BitsOf(b)
    ensures a == b
  {
    if a != [] {
      var p, q := BitsOf(a), BitsOf(b);
      assert p[..8] == Bits(a[0], 8) && q[..8] == Bits(b[0], 8);
      assert p[8..] == BitsOf(a[1..]) && q[8..] == BitsOf(b[1..]);
      assert Power2(8) == 256;
      BitsInjective(a[0], b[0], 8);
      BitsOfInjective(a[1..], b[1..]);
    }
  }

  /** `a` and `b` have one length and agree outside the window [lo, lo + 4). */
  predicate DifferWithin<T(==)>(a: seq<T>, b: seq<T>, lo: nat) {
    && |a| == |b|
    && forall i | 0 <= i < |a| && !(lo <= i < lo + 4) :: a[i] == b[i]
  }

  lemma SameChecksumSameRegister(a: seq<byte>, b: seq<byte>, value: nat)
    requires Crc(a, value) == Crc(b, value)
    ensures Feed(Complement(Bits(value, 32)), a) == Feed(Complement(Bits(value, 32)), b)
  {
    var start := Complement(Bits(value, 32));
    var x, y := Feed(start, a), Feed(start, b);
    BitsOfNumber(Complement(x));
    BitsOfNumber(Complement(y));
    assert Complement(Complement(x)) == x && Complement(Complement(y)) == y;
  }

  lemma BurstInTheMiddle(r: Register, head: seq<byte>, p: seq<byte>, q: seq<byte>, tail: seq<byte>)
    requires |p| == |q| <= 4 && Feed(r, head + (p + tail)) == Feed(r, head + (q + tail))
    ensures p == q
  {
    FeedConcat(r, head, p + tail);
    FeedConcat(r, head, q + tail);
    var s := Feed(r, head);
    FeedConcat(s, p, tail);
    FeedConcat(s, q, tail);
    FeedInjective(Feed(s, p), Feed(s, q), tail);
    FeedIsFeedBits(s, p);
    FeedIsFeedBits(s, q);
    Backward(s, BitsOf(p), s, BitsOf(q));
    BitsOfInjective(p, q);
  }

  lemma ThreeParts<T>(s: seq<T>, lo: nat, hi: nat)
    requires lo <= hi <= |s|
    ensures s == s[..lo] + (s[lo..hi] + s[hi..])
  {
    assert s[lo..] == s[lo..hi] + s[hi..];
  }

  /** A change confined to four consecutive bytes always changes the checksum. */
  lemma CrcDetectsBurst(a: seq<byte>, b: seq<byte>, lo: nat, value: nat)
    requires DifferWithin(a, b, lo) && Crc(a, value) == Crc(b, value)
    ensures a == b
  {
    SameChecksumSameRegister(a, b, value);
    hide Crc, Feed;
    if lo < |a| {
      var hi := if lo + 4 <= |a| then lo + 4 else |a|;
      var head, tail := a[..lo], a[hi..];
      ThreeParts(a, lo, hi);
      ThreeParts(b, lo, hi);
      assert b[..lo] == head && b[hi..] == tail;
      BurstInTheMiddle(Complement(Bits(value, 32)), head, a[lo..hi], b[lo..hi], tail);
    }
  }

  /** A window over a concatenation, seen from its two halves. */
  lemma WindowOverConcat<T>(a: seq<T>, b: seq<T>, a': seq<T>, b': seq<T>, lo: nat)
    requires |a| == |a'| && DifferWithin(a + b, a' + b', lo)
    ensures |b| == |b'| && DifferWithin(a, a', lo)
    ensures lo >= |a| ==> a == a' && DifferWithin(b, b', lo - |a|)
    ensures forall i | 0 <= i < |b| && lo + 4 <= |a| + i :: b[i] == b'[i]
  {
    assert forall i | 0 <= i < |a| :: a[i] == (a + b)[i] && a'[i] == (a' + b')[i];
    assert forall i | 0 <= i < |b| :: b[i] == (a + b)[|a| + i];
    assert forall i | 0 <= i < |b'| :: b'[i] == (a' + b')[|a| + i];
  }
}
