/** What the sound of one sample owes to the state of the chip: laws of the signal path, read off its inputs and
    outputs. */
module SynthLaws {
  import opened Bytes
  import opened FixedPoint
  import opened Filter
  import opened Chip
  import opened ChipFacts
  import opened Synth

  /** A phone still sounding, with committed codes in range. */
  predicate Sounding(k: Coefficients, s: Hdl) {
    k.Shaped() && CodesFit(s.filt) && s.closure <= 28 && s.timing.ticks < LAST_TICK
  }

  // ----- excitation -----

  /** The nine windows of eight counts in which the glottal pulse is constant; from count 72 on it is zero. */
  predicate PulseAt(pitch: nat, v: int) {
    && (0 <= pitch < 8 ==> v == 0)
    && (8 <= pitch < 16 ==> v == -4681)
    && (16 <= pitch < 24 ==> v == 8192)
    && (24 <= pitch < 32 ==> v == 7022)
    && (32 <= pitch < 40 ==> v == 5851)
    && (40 <= pitch < 48 ==> v == 4681)
    && (48 <= pitch < 56 ==> v == 3511)
    && (56 <= pitch < 64 ==> v == 2340)
    && (64 <= pitch < 72 ==> v == 1170)
    && (72 <= pitch ==> v == 0)
  }

  /** The voice enters the filters as the pulse of the pitch counter, whole at full amplitude and otherwise in
      sixteenths; without amplitude nothing enters. */
  lemma VoiceFollowsThePulse(config: HdlConfig, k: Coefficients, s: Hdl, h: Filters, pulse: int)
    requires Sounding(k, s) && PulseAt(s.pitch, pulse)
    ensures var v := Flow(config, k, s, h).voiceIn;
            && (s.filt.va == 0 ==> v == 0)
            && (s.filt.va == 15 ==> v == pulse)
            && (0 < s.filt.va < 15 ==> s.filt.va * pulse - 64 <= 16 * v <= s.filt.va * pulse)
  {
    hide Output, Sat24, Scale20, Scale7, ClosureGain, NoiseLevel, Power2, Scale4;
    assert Voice(s) == pulse;
    if s.filt.va < 15 {
      Scale4IsFraction(pulse, s.filt.va);
    }
    NoGainNoSignal(pulse);
  }

  lemma NoGainNoSignal(s: int)
    ensures Scale4(s, 0) == 0 && Scale4(s, 15) == s
  {
  }

  /** The noise enters as 512 a code step, positive exactly while the gate is open and the noise bit set, shifted up and
      saturated; without amplitude nothing enters. */
  lemma NoiseFollowsTheBit(config: HdlConfig, k: Coefficients, s: Hdl, h: Filters)
    requires Sounding(k, s)
    ensures var steps := if s.filt.fa == 15 then 16 else s.filt.fa;
            var level := if s.pitchGate && s.noise.out then 512 * steps else -512 * steps;
            Flow(config, k, s, h).noiseIn == Sat24(level * Power2(config.noiseShift))
    ensures s.filt.fa == 0 ==> Flow(config, k, s, h).noiseIn == 0
  {
    hide Output, Scale20, Scale7, ClosureGain, Voice, Sat24, Power2, Scale4;
    NoiseSteps(s.filt.fa);
    NoSignalAtZero(config.noiseShift);
  }

  lemma NoiseSteps(gain: nat)
    requires gain < 16
    ensures var steps := if gain == 15 then 16 else gain;
            Scale4(8192, gain) == 512 * steps && Scale4(-8192, gain) == -512 * steps
  {
  }

  lemma NoSignalAtZero(shift: nat)
    ensures Sat24(0 * Power2(shift)) == 0
  {
  }

  /** A phone that has ended sends nothing into the filters. */
  lemma RestSendsNothing(config: HdlConfig, k: Coefficients, s: Hdl, h: Filters)
    requires k.Shaped() && CodesFit(s.filt) && s.closure <= 28 && s.timing.ticks == LAST_TICK
    ensures Flow(config, k, s, h).voiceIn == 0 && Flow(config, k, s, h).noiseIn == 0
  {
    hide Output, Scale20, Scale7, ClosureGain, Voice, NoiseLevel, Sat24, Power2, Scale4;
  }

  // ----- the closure gain -----

  /** A voiced stop: closed, voiced and without noise. */
  predicate IsVoicedStop(p: PhoneParams) {
    p.closure && p.va > 0 && !(p.fa > 0)
  }

  /** A phone that sounds by noise alone. */
  predicate IsUnvoiced(s: Hdl) {
    s.filt.va == 0 && s.filt.fa > 0
  }

  /** For any other phone the closure counter decides: open it lets everything through, fully closed nothing. */
  lemma ClosureMutes(config: HdlConfig, k: Coefficients, s: Hdl, h: Filters)
    requires Sounding(k, s) && !IsVoicedStop(s.params) && !IsUnvoiced(s)
    ensures var g := Flow(config, k, s, h);
            && (s.closure < 4 ==> g.closed == g.f4)
            && (s.closure == 28 ==> g.closed == 0)
            && g.closed == Scale7(g.f4, 7 - s.closure / 4)
  {
    hide Output, Scale20, Scale4, NoiseLevel, Voice, Sat24, Power2, Scale7;
    WholeAndNothing(Flow(config, k, s, h).f4);
  }

  lemma WholeAndNothing(v: int)
    ensures Scale7(v, 7) == v && Scale7(v, 0) == 0
  {
  }

  /** In between, the level falls with the counter: a higher gain never lets less of a signal through, of either sign,
      but for the rounding of its shifts. */
  lemma {:induction false} LevelFallsWithClosure(v: int, gain: nat, more: nat)
    requires gain < more <= 7
    ensures v >= 512 ==> Scale7(v, gain) < Scale7(v, more) <= v
    ensures v <= -512 ==> v <= Scale7(v, more) < Scale7(v, gain) <= 0
    decreases more - gain
  {
    hide Scale7;
    OneStepLouder(v, gain);
    if gain + 1 < more {
      LevelFallsWithClosure(v, gain + 1, more);
    } else {
      NeverLouderThanWhole(v, more);
    }
    NeverLouderThanWhole(v, gain);
  }

  lemma NeverLouderThanWhole(v: int, gain: nat)
    requires gain <= 7
    ensures v >= 512 ==> 0 <= Scale7(v, gain) <= v
    ensures v <= -512 ==> v <= Scale7(v, gain) <= 0
  {
  }

  lemma OneStepLouder(v: int, gain: nat)
    requires gain < 7
    ensures v >= 512 ==> Scale7(v, gain) < Scale7(v, gain + 1)
    ensures v <= -512 ==> Scale7(v, gain + 1) < Scale7(v, gain)
  {
    if gain == 0 {
    } else if gain == 1 {
    } else if gain == 2 {
    } else if gain == 3 {
    } else if gain == 4 {
    } else if gain == 5 {
    } else {
    }
  }

  /** An unvoiced phone passes whole, unless it is closed: then it bursts two ticks long after its delay, fades over
      three more, and is silent before and after. */
  lemma BurstLaw(config: HdlConfig, k: Coefficients, s: Hdl, h: Filters)
    requires Sounding(k, s) && !IsVoicedStop(s.params) && IsUnvoiced(s)
    ensures var g, age := Flow(config, k, s, h), s.timing.ticks - s.params.vd;
            && (!s.params.closure || age in {1, 2} ==> g.closed == g.f4)
            && (s.params.closure && (age <= 0 || age > 5) ==> g.closed == 0)
            && (s.params.closure && age == 3 ==> g.closed == Scale7(g.f4, 5))
            && (s.params.closure && age == 4 ==> g.closed == Scale7(g.f4, 3))
            && (s.params.closure && age == 5 ==> g.closed == Scale7(g.f4, 2))
  {
    hide Output, Scale20, Scale4, NoiseLevel, Voice, Sat24, Power2, Scale7;
    WholeAndNothing(Flow(config, k, s, h).f4);
  }

  /** A voiced stop is silent until its closure delay, then attacks whole for two ticks, fades over four more, and is
      silent again. */
  lemma AttackLaw(config: HdlConfig, k: Coefficients, s: Hdl, h: Filters)
    requires Sounding(k, s) && IsVoicedStop(s.params)
    ensures var g, age := Flow(config, k, s, h), s.timing.ticks - s.params.cld;
            && (age in {0, 1} ==> g.closed == g.f4)
            && (age < 0 || age > 5 ==> g.closed == 0)
            && (age == 2 ==> g.closed == Scale7(g.f4, 6))
            && (age == 3 ==> g.closed == Scale7(g.f4, 4))
            && (age == 4 ==> g.closed == Scale7(g.f4, 2))
            && (age == 5 ==> g.closed == Scale7(g.f4, 1))
  {
    hide Output, Scale20, Scale4, NoiseLevel, Voice, Sat24, Power2, Scale7;
    WholeAndNothing(Flow(config, k, s, h).f4);
  }

  // ----- the shift gains -----

  /** The closure gains in parts of 512: as near to sevenths as the shifts come. */
  const SEVENTHS: seq<int> := [0, 73, 146, 216, 288, 360, 440, 512]

  /** The mixer gains in parts of 64: as near to twentieths as the shifts come. */
  const TWENTIETHS: seq<int> :=
    [0, 4, 8, 10, 16, 16, 19, 22, 26, 28, 32, 36, 38, 42, 44, 48, 52, 54, 58, 60, 64]

  lemma SeventhsAreNear(gain: nat)
    requires gain <= 7
    ensures -40 <= 7 * SEVENTHS[gain] - 512 * gain <= 8
  {
  }

  lemma TwentiethsAreNear(gain: nat)
    requires gain <= 20
    ensures -16 <= 20 * TWENTIETHS[gain] - 64 * gain <= 64
  {
  }

  /** A scaled signal is its part of 512, to within the rounding of at most four shifts. */
  lemma Scale7IsItsPart(v: int, gain: nat)
    requires gain <= 7
    ensures SEVENTHS[gain] * v - 2048 < 512 * Scale7(v, gain) < SEVENTHS[gain] * v + 1024
  {
    if gain == 0 {
    } else if gain == 1 {
    } else if gain == 2 {
    } else if gain == 3 {
    } else if gain == 4 {
    } else if gain == 5 {
    } else if gain == 6 {
    } else {
    }
  }

  /** And of 64, to within the rounding of at most three; gains above twenty pass the signal whole. */
  lemma Scale20IsItsPart(v: int, gain: nat)
    requires gain <= 20
    ensures TWENTIETHS[gain] * v - 192 < 64 * Scale20(v, gain) < TWENTIETHS[gain] * v + 192
  {
    if gain < 7 {
      LowTwentieths(v, gain);
    } else if gain < 14 {
      MiddleTwentieths(v, gain);
    } else {
      HighTwentieths(v, gain);
    }
  }

  lemma LowTwentieths(v: int, gain: nat)
    requires gain < 7
    ensures TWENTIETHS[gain] * v - 192 < 64 * Scale20(v, gain) < TWENTIETHS[gain] * v + 192
  {
    if gain == 0 {
    } else if gain == 1 {
    } else if gain == 2 {
    } else if gain == 3 {
    } else if gain == 4 {
    } else if gain == 5 {
    } else {
    }
  }

  lemma MiddleTwentieths(v: int, gain: nat)
    requires 7 <= gain < 14
    ensures TWENTIETHS[gain] * v - 192 < 64 * Scale20(v, gain) < TWENTIETHS[gain] * v + 192
  {
    if gain < 10 {
      if gain == 7 {
      } else if gain == 8 {
      } else {
      }
    } else {
      UpperMiddleTwentieths(v, gain);
    }
  }

  lemma UpperMiddleTwentieths(v: int, gain: nat)
    requires 10 <= gain < 14
    ensures TWENTIETHS[gain] * v - 192 < 64 * Scale20(v, gain) < TWENTIETHS[gain] * v + 192
  {
    if gain == 10 {
    } else if gain == 11 {
    } else if gain == 12 {
    } else {
    }
  }

  lemma HighTwentieths(v: int, gain: nat)
    requires 14 <= gain <= 20
    ensures TWENTIETHS[gain] * v - 192 < 64 * Scale20(v, gain) < TWENTIETHS[gain] * v + 192
  {
    if gain < 17 {
      if gain == 14 {
      } else if gain == 15 {
      } else {
      }
    } else {
      HighestTwentieths(v, gain);
    }
  }

  lemma HighestTwentieths(v: int, gain: nat)
    requires 17 <= gain <= 20
    ensures TWENTIETHS[gain] * v - 192 < 64 * Scale20(v, gain) < TWENTIETHS[gain] * v + 192
  {
    if gain == 17 {
      Seventeen(v);
    } else if gain == 18 {
    } else if gain == 19 {
    } else {
    }
  }

  lemma Seventeen(v: int)
    ensures 54 * v - 192 < 64 * Scale20(v, 17) < 54 * v + 192
  {
  }

  lemma HighGainsPassWhole(v: int, gain: nat)
    requires gain % 0x20 >= 20
    ensures Scale20(v, gain) == v
  {
  }

  // ----- behind the filters -----

  /** The phone is the one the chip knows as CH, unvoiced and open. */
  predicate IsCh(s: Hdl) {
    s.phone == 16 && IsUnvoiced(s) && !s.params.closure
  }

  /** What the low-pass took away comes back by three quarters for a voiced phone without noise and for CH, by five
      quarters for any other open phone with noise, and not at all otherwise. */
  lemma BypassLaw(s: Hdl, lowpassed: int, before: int)
    requires -0x20_0000 <= lowpassed <= 0x20_0000 && -0x20_0000 <= before <= 0x20_0000 && CodesFit(s.filt)
    ensures var lost, back := before - lowpassed, Enhanced(s, lowpassed, before) - lowpassed;
            && (IsCh(s) || (s.filt.va > 0 && s.filt.fa == 0) ==> 3 * lost - 8 < 4 * back <= 3 * lost)
            && (!IsCh(s) && s.filt.fa > 0 && !s.params.closure ==> 5 * lost - 4 < 4 * back <= 5 * lost)
            && (!IsCh(s) && s.filt.fa > 0 && s.params.closure ==> back == 0)
            && (s.filt.fa == 0 && s.filt.va == 0 ==> back == 0)
  {
  }

  /** The tick at which a consonant's attack peaks: the closure delay of a closed phone whose closure ends no later than
      its voice delay, otherwise the voice delay of a noisy phone, otherwise the closure delay. */
  function AttackStart(p: PhoneParams): nat {
    if p.closure && p.cld <= p.vd then p.cld else if p.fa > 0 then p.vd else p.cld
  }

  /** Noisy and closed phones are louder by a half, a quarter and an eighth in the three ticks from that tick on; CH,
      phones with neither voice nor noise, and all other ticks are not. */
  lemma AttackBoostLaw(s: Hdl, sample: int)
    requires Fits24(2 * sample)
    ensures var more, age := AttackBoost(s, sample) - sample, s.timing.ticks - AttackStart(s.params);
            var boosted := (s.filt.fa > 0 || s.params.closure) && !IsCh(s) && s.params.fa + s.params.va > 0;
            && (boosted && age == 0 && 0 <= s.filt.fa ==> more == sample / 2)
            && (boosted && age == 1 && 0 <= s.filt.fa ==> more == sample / 4)
            && (boosted && age == 2 && 0 <= s.filt.fa ==> more == sample / 8)
            && (CodesFit(s.filt) && (!boosted || age < 0 || age > 2) ==> more == 0)
  {
  }

  /** The limiter passes 14 bits as they are, bends what is beyond to a quarter, and stops at 16 bits. */
  lemma SoftLimitLaw(v: int)
    ensures -8192 <= v <= 8192 ==> SoftLimit16(v) == v
    ensures 8192 < v < 106496 ==> v - 8192 - 4 < 4 * (SoftLimit16(v) - 8192) <= v - 8192
    ensures v >= 106496 ==> SoftLimit16(v) == 0x7FFF
    ensures -106496 <= v < -8192 ==> v + 8192 - 4 < 4 * (SoftLimit16(v) + 8192) <= v + 8192
    ensures v < -106496 ==> SoftLimit16(v) == -0x8000
  {
  }

  /** Saturation keeps what fits and otherwise gives the nearest bound. */
  lemma SaturationLaw(v: int)
    ensures Fits24(v) ==> Sat24(v) == v
    ensures v >= 0x80_0000 ==> Sat24(v) == 0x7F_FFFF
    ensures v < -0x80_0000 ==> Sat24(v) == -0x80_0000
    ensures Fits16(v) ==> Sat16(v) == v
    ensures v >= 0x8000 ==> Sat16(v) == 0x7FFF
    ensures v < -0x8000 ==> Sat16(v) == -0x8000
  {
  }

  /** The slew step reaches a near target at once and goes 3000 towards a far one. */
  lemma SlewLaw(previous: int, target: int)
    requires Fits16(previous) && Fits16(target)
    ensures -3000 <= target - previous <= 3000 ==> SlewLimit16(previous, target) == target
    ensures target - previous > 3000 ==> SlewLimit16(previous, target) == previous + 3000
    ensures previous - target > 3000 ==> SlewLimit16(previous, target) == previous - 3000
  {
  }
}
