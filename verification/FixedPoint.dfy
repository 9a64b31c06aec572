/** The fixed-point arithmetic of the speech models. `>> k` on Python integers is floor division by 2^k. */
module FixedPoint {

  const MIN24 := -0x80_0000
  const MAX24 := 0x7F_FFFF
  const FORMANT_SLEW_STEP := 3000

  predicate Fits24(v: int) {
    MIN24 <= v <= MAX24
  }

  predicate Fits16(v: int) {
    -0x8000 <= v <= 0x7FFF
  }

  function Sat24(v: int): int {
    if v < MIN24 then MIN24 else if v > MAX24 then MAX24 else v
  }

  function Sat16(v: int): int {
    if v < -0x8000 then -0x8000 else if v > 0x7FFF then 0x7FFF else v
  }

  function SoftLimit16(v: int): int {
    var bent :=
      if v > 8192 then 8192 + (v - 8192) / 4
      else if v < -8192 then -8192 + (v + 8192) / 4
      else v;
    Sat16(bent)
  }

  function SlewLimit16(previous: int, target: int): int {
    var diff := target - previous;
    if diff > FORMANT_SLEW_STEP then Sat16(previous + FORMANT_SLEW_STEP)
    else if diff < -FORMANT_SLEW_STEP then Sat16(previous - FORMANT_SLEW_STEP)
    else Sat16(target)
  }

  /** The limiter keeps order, and the slew step is short, never passes its target and never moves away from it. */
  lemma LimitersAreGentle(v: int, w: int, previous: int)
    requires Fits16(previous)
    ensures v <= w ==> SoftLimit16(v) <= SoftLimit16(w)
    ensures Fits16(SoftLimit16(v)) && Fits16(SlewLimit16(previous, SoftLimit16(v)))
    ensures var t := SoftLimit16(v);
            var next := SlewLimit16(previous, t);
            && -FORMANT_SLEW_STEP <= next - previous <= FORMANT_SLEW_STEP
            && (previous <= t ==> previous <= next <= t && (next == t || next == previous + FORMANT_SLEW_STEP))
            && (previous >= t ==> t <= next <= previous && (next == t || next == previous - FORMANT_SLEW_STEP))
  {
  }

  /** `scale4`: sixteen steps built from shifts, in sixteenths of the sample. */
  function Scale4(s: int, gain: nat): int
    requires gain < 16
  {
    if gain == 15 then s
    else
      (if gain / 8 == 1 then s / 2 else 0) + (if gain / 4 % 2 == 1 then s / 4 else 0)
      + (if gain / 2 % 2 == 1 then s / 8 else 0) + (if gain % 2 == 1 then s / 16 else 0)
  }

  function Scale7(s: int, gain: nat): int
    requires gain < 8
  {
    match gain
    case 0 => 0
    case 1 => s / 8 + s / 64 + s / 512
    case 2 => s / 4 + s / 32 + s / 256
    case 3 => s / 4 + s / 8 + s / 32 + s / 64
    case 4 => s / 2 + s / 16
    case 5 => s / 2 + s / 8 + s / 16 + s / 64
    case 6 => s - s / 8 - s / 64
    case _ => s
  }

  function Scale20(s: int, gain: nat): int {
    match gain % 0x20
    case 0 => 0
    case 1 => s / 16
    case 2 => s / 8
    case 3 => s / 8 + s / 32
    case 4 => s / 4
    case 5 => s / 4
    case 6 => s / 4 + s / 16 - s / 64
    case 7 => s / 4 + s / 8 - s / 32
    case 8 => s / 2 - s / 8 + s / 32
    case 9 => s / 2 - s / 16
    case 10 => s / 2
    case 11 => s / 2 + s / 16
    case 12 => s / 2 + s / 8 - s / 32
    case 13 => s / 2 + s / 8 + s / 32
    case 14 => s / 2 + s / 4 - s / 16
    case 15 => s / 2 + s / 4
    case 16 => s - s / 8 - s / 16
    case 17 => s - s / 8 - s / 32
    case 18 => s - s / 8 + s / 32
    case 19 => s - s / 16
    case _ => s
  }

  /** A `scale4` gain is its fraction in sixteenths, up to rounding down. */
  lemma Scale4IsFraction(s: int, gain: nat)
    requires gain < 15
    ensures gain * s - 64 <= 16 * Scale4(s, gain) <= gain * s
    ensures Fits24(s) ==> Fits24(Scale4(s, gain))
  {
    var d, c, b, a := gain / 8, gain / 4 % 2, gain / 2 % 2, gain % 2;
    assert gain == 8 * d + 4 * c + 2 * b + a;
    SumOfBits(s, d, c, b, a);
  }

  lemma SumOfBits(s: int, d: int, c: int, b: int, a: int)
    requires 0 <= d <= 1 && 0 <= c <= 1 && 0 <= b <= 1 && 0 <= a <= 1
    ensures (8 * d + 4 * c + 2 * b + a) * s ==
            (if d == 1 then 8 * s else 0) + (if c == 1 then 4 * s else 0) + (if b == 1 then 2 * s else 0)
                + (if a == 1 then s else 0)
  {
    assert d == 0 || d == 1;
    assert c == 0 || c == 1;
    assert b == 0 || b == 1;
    assert a == 0 || a == 1;
  }

  lemma Scale7Fits(s: int, gain: nat)
    requires gain < 8 && Fits24(s)
    ensures Fits24(Scale7(s, gain))
  {
    match gain
    case 3 => assert s / 4 + s / 8 + s / 32 + s / 64 == Scale7(s, gain);
    case _ =>
  }

  lemma Scale20Fits(s: int, gain: nat)
    requires Fits24(s)
    ensures Fits24(Scale20(s, gain))
  {
    var low := gain % 0x20;
    if low < 10 {
    } else if low < 16 {
    } else {
    }
  }
}
