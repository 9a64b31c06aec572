/** One audio sample of the HDL-style model: excitation, formant filters, gains, limiter. */
module Synth {
  import opened Bytes
  import opened FixedPoint
  import opened Filter
  import opened Chip
  import opened ChipFacts

  const FORMANT_IDLE_DECAY_SAMPLES := 512
  const GLOTTAL: seq<int> := [0, -4681, 8192, 7022, 5851, 4681, 3511, 2340, 1170]

  /** The quantized coefficient tables: one list per committed code. */
  datatype Coefficients = Coefficients(
    f1: seq<seq<int>>, f2: seq<seq<seq<int>>>, f3: seq<seq<int>>, f4: seq<int>, fn: seq<int>, fx: seq<int>)
  {
    predicate Shaped() {
      |f1| == 16 && |f2| == 32 && (forall r | r in f2 :: |r| == 16) && |f3| == 16
    }

    /** At most seven signed 16-bit coefficients in every list. */
    ghost predicate Valid() {
      && Shaped()
      && (forall i | 0 <= i < 16 :: IsList(f1[i]))
      && (forall i, j | 0 <= i < 32 && 0 <= j < 16 :: IsList(f2[i][j]))
      && (forall i | 0 <= i < 16 :: IsList(f3[i]))
      && IsList(f4) && IsList(fn) && IsList(fx)
    }
  }

  ghost predicate IsList(coeffs: seq<int>) {
    |coeffs| <= 7 && All16(coeffs)
  }

  datatype Filters = Filters(
    ff1: History, ff2: History, ff2n: History, ff3: History, ff4: History, ffn: History, ffx: History)

  datatype AudioState = AudioState(idle: nat, filters: Filters, presenceLow: int, audio: int)

  const SILENCE :=
    Filters(Silent(3, 3), Silent(3, 3), Silent(3, 3), Silent(3, 3), Silent(3, 3), Silent(2, 2), Silent(0, 1))

  /** The glottal pulse value, and the noise, that excite the filters. */
  function Voice(s: Hdl): int {
    if s.timing.ticks == LAST_TICK || s.pitch >= 72 then 0 else GLOTTAL[s.pitch / 8]
  }

  function NoiseLevel(s: Hdl): int {
    if s.timing.ticks == LAST_TICK then 0 else if s.pitchGate && s.noise.out then 8192 else -8192
  }

  function BurstGain(s: Hdl): nat {
    if s.timing.ticks <= s.params.vd then 0
    else
      var age := s.timing.ticks - s.params.vd;
      if age <= 2 then 7 else if age == 3 then 5 else if age == 4 then 3 else if age == 5 then 2 else 0
  }

  function AttackGain(s: Hdl): nat {
    if s.timing.ticks < s.params.cld then 0
    else
      var age := s.timing.ticks - s.params.cld;
      if age <= 1 then 7
      else if age == 2 then 6
      else if age == 3 then 4
      else if age == 4 then 2
      else if age == 5 then 1
      else 0
  }

  predicate VoicedStop(p: PhoneParams) {
    p.closure && p.fa == 0 && p.va != 0
  }

  function ClosureGain(s: Hdl): (gain: nat)
    requires s.closure <= 28
    ensures gain < 8
  {
    if VoicedStop(s.params) then AttackGain(s)
    else if s.filt.fa != 0 && s.filt.va == 0 then (if s.params.closure then BurstGain(s) else 7)
    else 7 - s.closure / 4
  }

  predicate NonclosureNoise(s: Hdl) {
    s.filt.fa != 0 && !s.params.closure
  }

  predicate ChFricative(s: Hdl) {
    s.phone == 0x10 && s.filt.fa != 0 && s.filt.va == 0 && !s.params.closure
  }

  function AttackLevel(s: Hdl): (level: nat)
    ensures level <= 3
  {
    var p := s.params;
    if ChFricative(s) || (p.fa == 0 && p.va == 0) then 0
    else
      var start := if p.closure && p.cld <= p.vd then p.cld else if p.fa != 0 then p.vd else p.cld;
      if s.timing.ticks < start || s.timing.ticks - start > 2 then 0 else 3 - (s.timing.ticks - start)
  }

  function AttackBoost(s: Hdl, sample: int): int {
    var level := AttackLevel(s);
    if s.filt.fa == 0 && !s.params.closure then sample
    else if level == 3 then Sat24(sample + sample / 2)
    else if level == 2 then Sat24(sample + sample / 4)
    else if level == 1 then Sat24(sample + sample / 8)
    else sample
  }

  /** Part of what the low-pass removed is put back, depending on the kind of phone. */
  function Enhanced(s: Hdl, lowpassed: int, before: int): int {
    var high := before - lowpassed;
    if ChFricative(s) then Sat24(lowpassed + high / 2 + high / 4)
    else if NonclosureNoise(s) then Sat24(before + high / 4)
    else if s.filt.va != 0 && s.filt.fa == 0 then Sat24(lowpassed + high / 2 + high / 4)
    else lowpassed
  }

  /** Everything behind the filters: gain, presence, output scale, soft limit, slew limit. */
  function Shape(config: HdlConfig, s: Hdl, presenceLow: int, audio: int, fx: int, closed: int): (int, int)
    requires config.amplitude < 16
  {
    var scaled := Scale4(AttackBoost(s, Enhanced(s, fx, closed)), config.amplitude);
    var delta := scaled - presenceLow;
    var presence := Sat24(scaled + delta / 2);
    var target := SoftLimit16(Sat24(Scale4(presence, if s.isVotrax then 4 else 10) * 2));
    (Sat24(presenceLow + delta / 8), SlewLimit16(audio, target))
  }

  /** The output moves by at most a slew step a sample. */
  lemma ShapeIsSmooth(config: HdlConfig, s: Hdl, presenceLow: int, audio: int, fx: int, closed: int)
    requires config.amplitude < 16 && Fits16(audio)
    ensures var now := Shape(config, s, presenceLow, audio, fx, closed).1;
            -FORMANT_SLEW_STEP <= now - audio <= FORMANT_SLEW_STEP
  {
    hide Enhanced, AttackBoost, SoftLimit16, SlewLimit16, Scale4, Sat24;
    var scaled := Scale4(AttackBoost(s, Enhanced(s, fx, closed)), config.amplitude);
    var presence := Sat24(scaled + (scaled - presenceLow) / 2);
    LimitersAreGentle(Sat24(Scale4(presence, if s.isVotrax then 4 else 10) * 2), 0, audio);
  }

  /** The filter outputs of one sample, in signal-flow order. */
  datatype Signals = Signals(voiceIn: int, noiseIn: int, f1: int, f2: int, fn: int, f2nIn: int, f2n: int, vn: int,
                             f3: int, mixed: int, f4: int, closed: int, fx: int)

  function Flow(config: HdlConfig, k: Coefficients, s: Hdl, h: Filters): Signals
    requires k.Shaped() && CodesFit(s.filt) && s.closure <= 28
  {
    var silent := s.timing.ticks == LAST_TICK;
    var voiceIn := if silent then 0 else Scale4(Voice(s), s.filt.va);
    var noiseIn := if silent then 0 else Sat24(Scale4(NoiseLevel(s), s.filt.fa) * Power2(config.noiseShift));
    var f1 := Output(h.ff1, voiceIn, k.f1[s.filt.f1]);
    var f2 := Output(h.ff2, f1, k.f2[s.filt.f2][s.filt.f2q]);
    var fn := Output(h.ffn, noiseIn, k.fn);
    var f2nIn := Sat24(Scale4(fn, s.filt.fc) * 8);
    var f2n := Output(h.ff2n, f2nIn, k.f2[s.filt.f2][s.filt.f2q]);
    var vn := Sat24(f2 + f2n);
    var f3 := Output(h.ff3, vn, k.f3[s.filt.f3]);
    var mixed := Sat24(f3 + Scale20(fn, 5 + (15 - s.filt.fc)));
    var f4 := Output(h.ff4, mixed, k.f4);
    var closed := Scale7(f4, ClosureGain(s));
    Signals(voiceIn, noiseIn, f1, f2, fn, f2nIn, f2n, vn, f3, mixed, f4, closed, Output(h.ffx, closed, k.fx))
  }

  function NextFilters(k: Coefficients, s: Hdl, h: Filters, g: Signals): Filters
    requires k.Shaped() && CodesFit(s.filt)
  {
    Filters(
      Next(h.ff1, g.voiceIn, k.f1[s.filt.f1]), Next(h.ff2, g.f1, k.f2[s.filt.f2][s.filt.f2q]),
      Next(h.ff2n, g.f2nIn, k.f2[s.filt.f2][s.filt.f2q]), Next(h.ff3, g.vn, k.f3[s.filt.f3]),
      Next(h.ff4, g.mixed, k.f4), Next(h.ffn, g.noiseIn, k.fn), Next(h.ffx, g.closed, k.fx))
  }

  /** A sample through the filters, counting the samples spent at rest. */
  function Filtered(config: HdlConfig, k: Coefficients, s: Hdl, a: AudioState): AudioState
    requires config.amplitude < 16 && k.Shaped() && CodesFit(s.filt) && s.closure <= 28
  {
    var g := Flow(config, k, s, a.filters);
    var (presenceLow, audio) := Shape(config, s, a.presenceLow, a.audio, g.fx, g.closed);
    var idle := if s.timing.ticks == LAST_TICK then a.idle + 1 else 0;
    AudioState(idle, NextFilters(k, s, a.filters, g), presenceLow, audio)
  }

  /** `synth_sample`: after 512 samples of rest the filters are cleared and the output is zero. */
  function NextAudio(config: HdlConfig, k: Coefficients, s: Hdl, a: AudioState): AudioState
    requires config.amplitude < 16 && k.Shaped() && CodesFit(s.filt) && s.closure <= 28
  {
    if s.timing.ticks == LAST_TICK && a.idle >= FORMANT_IDLE_DECAY_SAMPLES then AudioState(a.idle, SILENCE, 0, 0)
    else Filtered(config, k, s, a)
  }

  ghost predicate HistoryFits(h: History) {
    All24(h.x) && All24(h.y)
  }

  ghost predicate FiltersFit(h: Filters) {
    && HistoryFits(h.ff1) && HistoryFits(h.ff2) && HistoryFits(h.ff2n) && HistoryFits(h.ff3)
    && HistoryFits(h.ff4) && HistoryFits(h.ffn) && HistoryFits(h.ffx)
  }

  ghost predicate AudioBounded(a: AudioState) {
    a.idle <= FORMANT_IDLE_DECAY_SAMPLES && FiltersFit(a.filters) && Fits24(a.presenceLow) && Fits16(a.audio)
  }

  lemma AudioFits(a: AudioState)
    requires AudioBounded(a)
    ensures Fits16(a.audio) && AudioBounded(a.(idle := 0))
  {
  }

  /** The accumulator of a filter step, before it is scaled and saturated. */
  predicate SumFits41(h: History, sample: int, coeffs: seq<int>) {
    -0x200_0000_0000 < Dot([sample] + h.x + h.y, coeffs) < 0x200_0000_0000
  }

  lemma Step(h: History, sample: int, coeffs: seq<int>)
    requires HistoryFits(h) && Fits24(sample) && IsList(coeffs)
    ensures SumFits41(h, sample, coeffs) && Fits24(Output(h, sample, coeffs)) && HistoryFits(Next(h, sample, coeffs))
  {
    StepIsBounded(h, sample, coeffs);
  }

  ghost predicate SignalsFit(g: Signals) {
    && Fits24(g.voiceIn) && Fits24(g.noiseIn) && Fits24(g.f1) && Fits24(g.f2) && Fits24(g.fn) && Fits24(g.f2nIn)
    && Fits24(g.f2n) && Fits24(g.vn) && Fits24(g.f3) && Fits24(g.mixed) && Fits24(g.f4) && Fits24(g.closed)
        && Fits24(g.fx)
  }

  /** The two mixers add 24-bit values, so one more bit holds their sums before saturation. */
  predicate MixersFit25(s: Hdl, g: Signals)
    requires CodesFit(s.filt)
  {
    && -0x100_0000 <= g.f2 + g.f2n <= 0xFF_FFFF
    && -0x100_0000 <= g.f3 + Scale20(g.fn, 5 + (15 - s.filt.fc)) <= 0xFF_FFFF
  }

  ghost predicate SumsFit(k: Coefficients, s: Hdl, h: Filters, g: Signals)
    requires k.Shaped() && CodesFit(s.filt)
  {
    && SumFits41(h.ff1, g.voiceIn, k.f1[s.filt.f1]) && SumFits41(h.ff2, g.f1, k.f2[s.filt.f2][s.filt.f2q])
    && SumFits41(h.ff2n, g.f2nIn, k.f2[s.filt.f2][s.filt.f2q]) && SumFits41(h.ff3, g.vn, k.f3[s.filt.f3])
    && SumFits41(h.ff4, g.mixed, k.f4) && SumFits41(h.ffn, g.noiseIn, k.fn) && SumFits41(h.ffx, g.closed, k.fx)
  }

  /** Every signal between the filters fits 24 bits, the mixers' sums fit 25, every accumulator stays below 2^41, and
      so do the histories. */
  lemma FlowFits(config: HdlConfig, k: Coefficients, s: Hdl, h: Filters)
    requires k.Valid() && Bounded(s) && FiltersFit(h)
    ensures CodesFit(s.filt)
    ensures var g := Flow(config, k, s, h);
            SignalsFit(g) && MixersFit25(s, g) && SumsFit(k, s, h, g) && FiltersFit(NextFilters(k, s, h, g))
  {
    hide Output, Next, SumFits41, HistoryFits, IsList, Scale4, Scale7, Scale20, ClosureGain, Voice, NoiseLevel;
    var g := Flow(config, k, s, h);
    var list2 := k.f2[s.filt.f2][s.filt.f2q];
    VoiceFits(s);
    Step(h.ff1, g.voiceIn, k.f1[s.filt.f1]);
    Step(h.ff2, g.f1, list2);
    Step(h.ffn, g.noiseIn, k.fn);
    Step(h.ff2n, g.f2nIn, list2);
    Step(h.ff3, g.vn, k.f3[s.filt.f3]);
    Step(h.ff4, g.mixed, k.f4);
    Scale20Fits(g.fn, 5 + (15 - s.filt.fc));
    Scale7Fits(g.f4, ClosureGain(s));
    Step(h.ffx, g.closed, k.fx);
  }

  lemma VoiceFits(s: Hdl)
    requires Bounded(s)
    ensures Fits24(Scale4(Voice(s), s.filt.va))
  {
    assert forall v | v in GLOTTAL :: -8192 <= v <= 8192;
    if s.timing.ticks != LAST_TICK && s.pitch < 72 {
      assert GLOTTAL[s.pitch / 8] in GLOTTAL;
    }
    if s.filt.va < 15 {
      Scale4IsFraction(Voice(s), s.filt.va);
    }
  }

  /** In every reachable state one more sample keeps the audio state in range: histories and presence in 24 bits,
      output in 16, for every configuration and every table of 16-bit coefficients. */
  lemma SampleStaysBounded(config: HdlConfig, k: Coefficients, s: Hdl, a: AudioState)
    requires config.amplitude < 16 && k.Valid() && Bounded(s) && AudioBounded(a)
    ensures AudioBounded(NextAudio(config, k, s, a))
  {
    hide Flow, NextFilters, HistoryFits;
    SilenceFits();
    FlowFits(config, k, s, a.filters);
  }

  lemma SilenceFits()
    ensures FiltersFit(SILENCE)
  {
  }
}
