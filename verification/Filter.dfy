/** The fixed-point direct-form filter, and the difference equation it solves. */
module Filter {
  import opened FixedPoint

  /** The filter memory: past inputs and past outputs, newest first. */
  datatype History = History(x: seq<int>, y: seq<int>)

  /** `sum(value * coeff for value, coeff in zip(taps, coeffs))`. */
  function Dot(taps: seq<int>, coeffs: seq<int>): int {
    if taps == [] || coeffs == [] then 0 else taps[0] * coeffs[0] + Dot(taps[1..], coeffs[1..])
  }

  /** A new value in front; the oldest drops out. With no room, the value is kept all the same. */
  function Shifted(v: int, values: seq<int>): (r: seq<int>)
    ensures |r| == if values == [] then 1 else |values|
  {
    if values == [] then [v] else [v] + values[..|values| - 1]
  }

  function Output(h: History, sample: int, coeffs: seq<int>): int {
    Sat24(Dot([sample] + h.x + h.y, coeffs) / 0x8000)
  }

  function Next(h: History, sample: int, coeffs: seq<int>): History {
    History(Shifted(sample, h.x), Shifted(Output(h, sample, coeffs), h.y))
  }

  class FixedFilter {
    var x: seq<int>
    var y: seq<int>

    ghost function Memory(): History
      reads this
    {
      History(x, y)
    }

    constructor (xLen: nat, yLen: nat)
      ensures Memory() == Silent(xLen, yLen)
    {
      x, y := seq(xLen, _ => 0), seq(yLen, _ => 0);
    }

    method Apply(sample: int, coeffs: seq<int>) returns (out: int)
      modifies this
      ensures Memory() == Next(old(Memory()), sample, coeffs)
      ensures out == Output(old(Memory()), sample, coeffs)
    {
      var taps := [sample] + x + y;
      var total, i := 0, 0;
      while i < |taps| && i < |coeffs|
        invariant i <= |taps| && i <= |coeffs|
        invariant total + Dot(taps[i..], coeffs[i..]) == Dot(taps, coeffs)
      {
        assert taps[i..][1..] == taps[i + 1..] && coeffs[i..][1..] == coeffs[i + 1..];
        total := total + taps[i] * coeffs[i];
        i := i + 1;
      }
      out := Sat24(total / 0x8000);
      x := if |x| == 0 then [sample] else [sample] + x[..|x| - 1];
      y := if |y| == 0 then [out] else [out] + y[..|y| - 1];
    }
  }

  function Silent(xLen: nat, yLen: nat): History {
    History(seq(xLen, _ => 0), seq(yLen, _ => 0))
  }

  /** All outputs of a run, oldest first. */
  function Run(h: History, samples: seq<int>, coeffs: seq<int>): (outs: seq<int>)
    ensures |outs| == |samples|
    decreases samples
  {
    if samples == [] then []
    else [Output(h, samples[0], coeffs)] + Run(Next(h, samples[0], coeffs), samples[1..], coeffs)
  }

  /** A signal sampled at a time that may lie before its start. */
  function At(signal: seq<int>, n: int): int {
    if 0 <= n < |signal| then signal[n] else 0
  }

  /** The values at times n-1, n-2, ..., n-len. */
  function Past(signal: seq<int>, n: int, len: nat): seq<int> {
    seq(len, k requires 0 <= k < len => At(signal, n - 1 - k))
  }

  lemma {:induction false} RunAt(h: History, samples: seq<int>, coeffs: seq<int>, n: nat)
    requires n < |samples|
    ensures Run(h, samples, coeffs)[n] == Output(After(h, samples[..n], coeffs), samples[n], coeffs)
    decreases n
  {
    if n > 0 {
      RunAt(Next(h, samples[0], coeffs), samples[1..], coeffs, n - 1);
      assert samples[1..][..n - 1] == samples[..n][1..];
    }
  }

  function After(h: History, samples: seq<int>, coeffs: seq<int>): History
    decreases samples
  {
    if samples == [] then h else After(Next(h, samples[0], coeffs), samples[1..], coeffs)
  }

  lemma {:induction false} AfterLast(h: History, samples: seq<int>, coeffs: seq<int>)
    requires samples != []
    ensures After(h, samples, coeffs)
        == Next(After(h, samples[..|samples| - 1], coeffs), samples[|samples| - 1], coeffs)
    decreases samples
  {
    if |samples| > 1 {
      AfterLast(Next(h, samples[0], coeffs), samples[1..], coeffs);
      assert samples[1..][..|samples| - 2] == samples[..|samples| - 1][1..];
    }
  }

  lemma ShiftedPast(signal: seq<int>, n: nat, len: nat)
    requires 0 < n <= |signal| && len >= 1
    ensures Shifted(signal[n - 1], Past(signal, n - 1, len)) == Past(signal, n, len)
  {
    var before, now := Past(signal, n - 1, len), Past(signal, n, len);
    var shifted := Shifted(signal[n - 1], before);
    assert before != [];
    forall k | 0 <= k < len
      ensures shifted[k] == now[k]
    {
      assert now[k] == At(signal, n - 1 - k);
      if k > 0 {
        assert shifted[k] == before[k - 1] == At(signal, (n - 1) - 1 - (k - 1));
      }
    }
  }

  lemma NextOfPast(xLen: nat, yLen: nat, samples: seq<int>, outs: seq<int>, coeffs: seq<int>, n: nat)
    requires xLen >= 1 && yLen >= 1 && 0 < n <= |samples| == |outs|
    requires outs[n - 1] == Output(History(Past(samples, n - 1, xLen), Past(outs, n - 1, yLen)), samples[n - 1], coeffs)
    ensures Next(History(Past(samples, n - 1, xLen), Past(outs, n - 1, yLen)), samples[n - 1], coeffs) ==
            History(Past(samples, n, xLen), Past(outs, n, yLen))
  {
    ShiftedPast(samples, n, xLen);
    ShiftedPast(outs, n, yLen);
  }

  /** The memory of a filter with room for at least one input and one output holds exactly the most recent ones. */
  lemma {:induction false} MemoryHoldsThePast(xLen: nat, yLen: nat, samples: seq<int>, coeffs: seq<int>, n: nat)
    requires xLen >= 1 && yLen >= 1 && n <= |samples|
    ensures After(Silent(xLen, yLen), samples[..n], coeffs) ==
            History(Past(samples, n, xLen), Past(Run(Silent(xLen, yLen), samples, coeffs), n, yLen))
  {
    var silent := Silent(xLen, yLen);
    var outs := Run(silent, samples, coeffs);
    if n == 0 {
      assert Past(samples, 0, xLen) == silent.x && Past(outs, 0, yLen) == silent.y;
    } else {
      MemoryHoldsThePast(xLen, yLen, samples, coeffs, n - 1);
      AfterLast(silent, samples[..n], coeffs);
      assert samples[..n][..n - 1] == samples[..n - 1];
      RunAt(silent, samples, coeffs, n - 1);
      NextOfPast(xLen, yLen, samples, outs, coeffs, n);
    }
  }

  /** A first call never looks past the zeros, and leaves one value behind where there was room for none. */
  function Room(len: nat): nat {
    if len == 0 then 1 else len
  }

  lemma {:induction false} DotOfZeros(taps: seq<int>, coeffs: seq<int>)
    requires forall k | 0 <= k < |taps| :: taps[k] == 0
    ensures Dot(taps, coeffs) == 0
  {
    if taps != [] && coeffs != [] {
      DotOfZeros(taps[1..], coeffs[1..]);
    }
  }

  lemma FirstOutput(xLen: nat, yLen: nat, sample: int, coeffs: seq<int>)
    ensures Output(Silent(xLen, yLen), sample, coeffs) == Output(Silent(0, 0), sample, coeffs)
  {
    var h := Silent(xLen, yLen);
    SampleThenZeros(sample, h.x + h.y, coeffs);
    SampleThenZeros(sample, Silent(0, 0).x + Silent(0, 0).y, coeffs);
    assert [sample] + h.x + h.y == [sample] + (h.x + h.y);
    assert [sample] + Silent(0, 0).x + Silent(0, 0).y == [sample] + (Silent(0, 0).x + Silent(0, 0).y);
  }

  lemma SampleThenZeros(sample: int, zeros: seq<int>, coeffs: seq<int>)
    requires forall k | 0 <= k < |zeros| :: zeros[k] == 0
    ensures Dot([sample] + zeros, coeffs) == if coeffs == [] then 0 else sample * coeffs[0]
  {
    if coeffs != [] {
      assert ([sample] + zeros)[1..] == zeros;
      DotOfZeros(zeros, coeffs[1..]);
    }
  }

  /** No room for past values is room for one: both runs give the same outputs, on either side of the filter. */
  lemma NoRoomIsRoomForOne(xLen: nat, yLen: nat, samples: seq<int>, coeffs: seq<int>)
    ensures Run(Silent(xLen, yLen), samples, coeffs) == Run(Silent(Room(xLen), Room(yLen)), samples, coeffs)
  {
    if samples != [] {
      FirstOutput(xLen, yLen, samples[0], coeffs);
      FirstOutput(Room(xLen), Room(yLen), samples[0], coeffs);
      assert Shifted(samples[0], Silent(xLen, yLen).x) == Shifted(samples[0], Silent(Room(xLen), yLen).x);
      var out := Output(Silent(xLen, yLen), samples[0], coeffs);
      assert Shifted(out, Silent(xLen, yLen).y) == Shifted(out, Silent(xLen, Room(yLen)).y);
    }
  }

  /** Every output is the saturated, scaled combination of the current input, the previous `xLen` inputs and the
      previous `yLen` outputs, for every input signal and every coefficient list; a length of zero counts as one. */
  lemma DifferenceEquation(xLen: nat, yLen: nat, samples: seq<int>, coeffs: seq<int>, n: nat)
    requires n < |samples|
    ensures var outs := Run(Silent(xLen, yLen), samples, coeffs);
            outs[n] == Sat24(
              Dot([samples[n]] + Past(samples, n, Room(xLen)) + Past(outs, n, Room(yLen)), coeffs) / 0x8000)
  {
    NoRoomIsRoomForOne(xLen, yLen, samples, coeffs);
    MemoryHoldsThePast(Room(xLen), Room(yLen), samples, coeffs, n);
    RunAt(Silent(Room(xLen), Room(yLen)), samples, coeffs, n);
  }

  /** So with no room for inputs the coefficient meant for the previous output multiplies the previous input. */
  lemma OutputPoleIsLost(samples: seq<int>, b0: int, b1: int, n: nat)
    requires n < |samples|
    ensures Run(Silent(0, 1), samples, [b0, b1])[n] == Sat24((samples[n] * b0 + At(samples, n - 1) * b1) / 0x8000)
  {
    hide Run, Dot, Past, Silent;
    var past := Past(Run(Silent(0, 1), samples, [b0, b1]), n, 1);
    DifferenceEquation(0, 1, samples, [b0, b1], n);
    OnePast(samples, n);
    assert [samples[n]] + [At(samples, n - 1)] + past == [samples[n], At(samples, n - 1)] + past;
    TwoTapDot(samples[n], At(samples, n - 1), past, b0, b1);
  }

  lemma OnePast(signal: seq<int>, n: int)
    ensures Past(signal, n, 1) == [At(signal, n - 1)]
  {
  }

  lemma TwoTapDot(a: int, b: int, rest: seq<int>, b0: int, b1: int)
    ensures Dot([a, b] + rest, [b0, b1]) == a * b0 + b * b1
  {
    var taps := [a, b] + rest;
    assert taps[1..] == [b] + rest && taps[1..][1..] == rest;
    assert [b0, b1][1..] == [b1] && [b1][1..] == [];
    assert Dot(taps[1..], [b1]) == b * b1 + Dot(rest, []);
  }

  /** A step into the low-pass stage decays geometrically if the pole is kept; as written the response stops at once. */
  lemma LostPoleWitness()
    ensures Run(Silent(0, 1), [0x8000, 0, 0], [0x4000, 0x4000]) == [0x4000, 0x4000, 0]
    ensures Sat24((0 * 0x4000 + 0x4000 * 0x4000) / 0x8000) == 0x2000
  {
    var samples := [0x8000, 0, 0];
    OutputPoleIsLost(samples, 0x4000, 0x4000, 0);
    OutputPoleIsLost(samples, 0x4000, 0x4000, 1);
    OutputPoleIsLost(samples, 0x4000, 0x4000, 2);
  }

  ghost predicate All24(values: seq<int>) {
    forall v | v in values :: Fits24(v)
  }

  ghost predicate All16(values: seq<int>) {
    forall v | v in values :: Fits16(v)
  }

  lemma MagnitudeBound(v: int, c: int)
    requires 0 <= v <= 0x80_0000 && 0 <= c <= 0x8000
    ensures 0 <= v * c <= 0x40_0000_0000
  {
    assert v * c <= 0x80_0000 * c;
  }

  lemma ProductBound(v: int, c: int)
    requires Fits24(v) && Fits16(c)
    ensures -0x40_0000_0000 <= v * c <= 0x40_0000_0000
  {
    if v >= 0 && c >= 0 {
      MagnitudeBound(v, c);
    } else if v >= 0 {
      MagnitudeBound(v, -c);
      assert v * c == -(v * -c);
    } else if c >= 0 {
      MagnitudeBound(-v, c);
      assert v * c == -(-v * c);
    } else {
      MagnitudeBound(-v, -c);
      assert v * c == -v * -c;
    }
  }

  /** Each tap contributes at most 2^38 in magnitude. */
  lemma {:induction false} DotBound(taps: seq<int>, coeffs: seq<int>)
    requires All24(taps) && All16(coeffs)
    ensures -0x40_0000_0000 * |coeffs| <= Dot(taps, coeffs) <= 0x40_0000_0000 * |coeffs|
  {
    if taps != [] && coeffs != [] {
      assert taps[0] in taps && coeffs[0] in coeffs;
      ProductBound(taps[0], coeffs[0]);
      DotBound(taps[1..], coeffs[1..]);
    }
  }

  /** With 24-bit signals and at most seven 16-bit coefficients the accumulator stays below 2^41 in magnitude, and the
      memory holds 24-bit values again. */
  lemma StepIsBounded(h: History, sample: int, coeffs: seq<int>)
    requires Fits24(sample) && All24(h.x) && All24(h.y) && All16(coeffs) && |coeffs| <= 7
    ensures -0x200_0000_0000 < Dot([sample] + h.x + h.y, coeffs) < 0x200_0000_0000
    ensures Fits24(Output(h, sample, coeffs))
    ensures var h' := Next(h, sample, coeffs); All24(h'.x) && All24(h'.y)
  {
    DotBound([sample] + h.x + h.y, coeffs);
  }
}
