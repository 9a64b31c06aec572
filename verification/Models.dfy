/** The two chip models as the objects that the phrase renderers drive. */
module Models {
  import opened Bytes
  import opened Chip
  import opened ChipFacts
  import opened FixedPoint
  import opened Filter
  import opened Synth

  class MameLikeVotrax {
    const phones: Phones
    const inflection: nat
    var phone: nat
    var params: PhoneParams
    var phonetick: nat
    var ticks: nat
    var updateCounter: nat
    var curClosure: bool
    var cur: Regs
    var filt: Regs
    var closure: nat
    var pitch: nat
    var noise: nat
    var curNoise: bool

    function State(): Mame
      reads this
    {
      Mame(
        phone, params, Timing(phonetick, ticks, updateCounter, curClosure), cur, filt,
        closure, pitch, Noise(noise, curNoise))
    }

    constructor (phones: Phones, inflection: int)
      ensures this.phones == phones && this.inflection == inflection % 4
      ensures State() == MameInit(phones)
    {
      this.phones, this.inflection := phones, inflection % 4;
      phone, params := SILENT_PHONE, phones[SILENT_PHONE];
      phonetick, ticks, updateCounter, curClosure := 0, 0, 0, true;
      cur, filt := ZERO_REGS, Committed(ZERO_REGS);
      closure, pitch, noise, curNoise := 0, 0, 0, false;
    }

    method StartPhone(phone: int)
      modifies this
      ensures State() == MameStart(phones, old(State()), phone)
    {
      this.phone := phone % 64;
      params := phones[this.phone];
      phonetick, ticks := 0, 0;
      if params.cld == 0 {
        curClosure := params.closure;
      }
    }

    function Clock(): Timing
      reads this`phonetick, this`ticks, this`updateCounter, this`curClosure
    {
      Timing(phonetick, ticks, updateCounter, curClosure)
    }

    method ChipUpdate()
      requires inflection < 4
      modifies this`phonetick, this`ticks, this`updateCounter, this`curClosure,
               this`cur, this`closure, this`pitch, this`filt, this`noise, this`curNoise
      ensures State() == MameUpdate(inflection, old(State()))
    {
      hide MameTiming, MameInterpolate, Interpolated, MameNoise, Committed, MamePitchLimit, NextClosure;
      AdvanceClock();
      InterpolateRegs();
      AdvanceClosure();
      var limit := MamePitchLimit(inflection, filt.f1);
      pitch := (pitch + 1) % 0x100;
      if pitch == limit {
        pitch := 0;
      }
      if pitch / 8 == 1 && pitch % 2 == 0 {
        filt := Committed(cur);
      }
      AdvanceNoise();
    }

    method AdvanceClock()
      modifies this`phonetick, this`ticks, this`updateCounter, this`curClosure
      ensures Clock() == MameTiming(params, old(Clock()))
    {
      if ticks != LAST_TICK {
        phonetick := phonetick + 1;
        if phonetick == 4 * params.duration + 1 {
          phonetick := 0;
          ticks := ticks + 1;
          if ticks == params.cld {
            curClosure := params.closure;
          }
        }
      }
      updateCounter := updateCounter + 1;
      if updateCounter == 0x30 {
        updateCounter := 0;
      }
    }

    method InterpolateRegs()
      modifies this`cur
      ensures cur == Interpolated(MameInterpolate, params, Clock(), old(cur), filt)
    {
      hide MameInterpolate;
      if updateCounter == 0x28 && (!params.pause || !(filt.fa != 0 || filt.va != 0)) {
        cur := cur.(fc := MameInterpolate(cur.fc, params.fc), f1 := MameInterpolate(cur.f1, params.f1),
                    f2 := MameInterpolate(cur.f2, params.f2), f2q := MameInterpolate(cur.f2q, params.f2q),
                    f3 := MameInterpolate(cur.f3, params.f3));
      }
      if updateCounter % 16 == 0 {
        if ticks >= params.vd {
          cur := cur.(fa := MameInterpolate(cur.fa, params.fa));
        }
        if ticks >= params.cld {
          cur := cur.(va := MameInterpolate(cur.va, params.va));
        }
      }
    }

    method AdvanceClosure()
      modifies this`closure
      ensures closure == NextClosure(old(closure), curClosure, filt)
    {
      if !curClosure && (filt.fa != 0 || filt.va != 0) {
        closure := 0;
      } else if closure != 28 {
        closure := closure + 1;
      }
    }

    method AdvanceNoise()
      modifies this`noise, this`curNoise
      ensures Noise(noise, curNoise) == MameNoise(Noise(old(noise), old(curNoise)))
    {
      noise := noise * 2 % 0x8000 + if curNoise && noise != 0x7FFF then 1 else 0;
      curNoise := noise / 0x4000 % 2 == noise / 0x2000 % 2;
    }
  }

  /** The seven filters of the HDL model, replaced as a whole when the history is cleared. */
  class FilterBank {
    const ff1: FixedFilter
    const ff2: FixedFilter
    const ff2n: FixedFilter
    const ff3: FixedFilter
    const ff4: FixedFilter
    const ffn: FixedFilter
    const ffx: FixedFilter

    ghost function Objects(): set<FixedFilter> {
      {ff1, ff2, ff2n, ff3, ff4, ffn, ffx}
    }

    /** The seven filters are seven objects. */
    ghost predicate Separate() {
      && ff1 != ff2 && ff1 != ff2n && ff1 != ff3 && ff1 != ff4 && ff1 != ffn && ff1 != ffx
      && ff2 != ff2n && ff2 != ff3 && ff2 != ff4 && ff2 != ffn && ff2 != ffx && ff2n != ff3
      && ff2n != ff4 && ff2n != ffn && ff2n != ffx && ff3 != ff4 && ff3 != ffn && ff3 != ffx
      && ff4 != ffn && ff4 != ffx && ffn != ffx
    }

    ghost function Memories(): Filters
      reads Objects()
    {
      Filters(ff1.Memory(), ff2.Memory(), ff2n.Memory(), ff3.Memory(), ff4.Memory(), ffn.Memory(), ffx.Memory())
    }

    constructor ()
      ensures Memories() == SILENCE && Separate() && fresh(Objects())
    {
      ff1 := new FixedFilter(3, 3);
      ff2 := new FixedFilter(3, 3);
      ff2n := new FixedFilter(3, 3);
      ff3 := new FixedFilter(3, 3);
      ff4 := new FixedFilter(3, 3);
      ffn := new FixedFilter(2, 2);
      ffx := new FixedFilter(0, 1);
      new;
      hide Silent;
    }

    /** The filter chain of one sample. */
    method Run(config: HdlConfig, tables: Coefficients, s: Hdl) returns (fx: int, closed: int)
      requires tables.Shaped() && Separate() && CodesFit(s.filt) && s.closure <= 28
      modifies Objects()
      ensures var g := Flow(config, tables, s, old(Memories()));
              fx == g.fx && closed == g.closed && Memories() == NextFilters(tables, s, old(Memories()), g)
    {
      hide Output, Next, Scale4, Scale7, Scale20, ClosureGain, Power2, Sat24, Voice, NoiseLevel;
      var silent := s.timing.ticks == LAST_TICK;
      var voiceIn := if silent then 0 else Scale4(Voice(s), s.filt.va);
      var noiseIn := if silent then 0 else Sat24(Scale4(NoiseLevel(s), s.filt.fa) * Power2(config.noiseShift));
      var list2 := tables.f2[s.filt.f2][s.filt.f2q];
      var f1 := ff1.Apply(voiceIn, tables.f1[s.filt.f1]);
      var f2 := ff2.Apply(f1, list2);
      var fn := ffn.Apply(noiseIn, tables.fn);
      var f2n := ff2n.Apply(Sat24(Scale4(fn, s.filt.fc) * 8), list2);
      var f3 := ff3.Apply(Sat24(f2 + f2n), tables.f3[s.filt.f3]);
      var f4 := ff4.Apply(Sat24(f3 + Scale20(fn, 5 + (15 - s.filt.fc))), tables.f4);
      closed := Scale7(f4, ClosureGain(s));
      fx := ffx.Apply(closed, tables.fx);
    }
  }

  class HdlLikeFormant {
    const phones: Phones
    var config: HdlConfig
    const tables: Coefficients
    var chipAccum: nat
    var phone: nat
    var params: PhoneParams
    var phonetick: nat
    var ticks: nat
    var updateCounter: nat
    var curClosure: bool
    var cur: Regs
    var filt: Regs
    var closure: nat
    var pitch: nat
    var pitchGate: bool
    var noise: nat
    var curNoise: bool
    var isVotrax: bool
    var targetInflection: nat
    var activeInflection: nat
    var durationPhoneme: nat
    var currentFunction: nat
    var idleDecayCount: nat
    var bank: FilterBank
    var presenceLow: int
    var audio: int

    function Clock(): Timing
      reads this`phonetick, this`ticks, this`updateCounter, this`curClosure
    {
      Timing(phonetick, ticks, updateCounter, curClosure)
    }

    function State(): (s: Hdl)
      ensures s.timing.ticks == ticks
      reads this`phone, this`params, this`phonetick, this`ticks, this`updateCounter, this`curClosure,
            this`cur, this`filt, this`closure, this`pitch, this`pitchGate, this`noise, this`curNoise, this`isVotrax,
            this`targetInflection, this`activeInflection, this`durationPhoneme, this`currentFunction
    {
      Hdl(phone, params, Clock(), cur, filt, closure, pitch, pitchGate, Noise(noise, curNoise), isVotrax,
          targetInflection, activeInflection, durationPhoneme, currentFunction)
    }

    ghost function Sound(): AudioState
      reads this`idleDecayCount, this`bank, this`presenceLow, this`audio, bank.Objects()
    {
      AudioState(idleDecayCount, bank.Memories(), presenceLow, audio)
    }

    /** The audio state of a reachable chip: seven separate filters with 24-bit histories, a 16-bit output. */
    ghost predicate SoundValid()
      reads this`idleDecayCount, this`bank, this`presenceLow, this`audio, bank.Objects()
    {
      tables.Valid() && bank.Separate() && AudioBounded(Sound())
    }

    constructor (phones: Phones, config: HdlConfig, tables: Coefficients)
      requires config.Valid() && tables.Valid()
      ensures this.phones == phones && this.config == config && this.tables == tables
      ensures Bounded(State()) && SoundValid() && fresh(bank) && fresh(bank.Objects())
      ensures State() == HdlInit(phones, config) && Sound() == AudioState(0, SILENCE, 0, 0) && chipAccum == 0
    {
      this.phones, this.config, this.tables := phones, config, tables;
      chipAccum := 0;
      phone, params := SILENT_PHONE, phones[SILENT_PHONE];
      phonetick, ticks, updateCounter, curClosure := 0, 0, 0, true;
      cur, filt := ZERO_REGS, ZERO_REGS;
      closure, pitch, pitchGate, noise, curNoise := 0, 0, false, 0, false;
      isVotrax := config.defaultVotrax;
      targetInflection, activeInflection := config.Inflection12(), config.Inflection12();
      durationPhoneme, currentFunction, idleDecayCount := 0, 0, 0;
      bank := new FilterBank();
      presenceLow, audio := 0, 0;
      new;
      hide FiltersFit;
      Inflection12Fits(config);
      SilenceFits();
    }

    /** What the owner of a live model does when it assigns the inflection registers. */
    method SetInflection(inflection: nat, rateInflection: nat)
      modifies this`config
      ensures config == old(config).(inflection := inflection, rateInflection := rateInflection)
    {
      config := config.(inflection := inflection, rateInflection := rateInflection);
    }

    method StartPhone(phone: int, durationPhoneme: Option<int>, currentFunction: Option<int>, votrax: Option<bool>)
      modifies this`phone, this`params, this`phonetick, this`ticks, this`curClosure, this`idleDecayCount, this`isVotrax,
               this`durationPhoneme, this`currentFunction, this`targetInflection, this`activeInflection
      ensures Sound() == old(Sound()).(idle := 0)
      ensures State() == HdlStart(phones, config, old(State()), phone, durationPhoneme, currentFunction, votrax)
    {
      hide StartedClock, StartedMode;
      StartClock(phone);
      idleDecayCount := 0;
      SetMode(phone, durationPhoneme, currentFunction, votrax);
    }

    method SetMode(phone: int, durationPhoneme: Option<int>, currentFunction: Option<int>, votrax: Option<bool>)
      modifies this`isVotrax, this`durationPhoneme, this`currentFunction, this`targetInflection, this`activeInflection
      ensures State() == StartedMode(config, old(State()), phone, durationPhoneme, currentFunction, votrax)
    {
      hide StartDuration, StartFunction, WithPitchTarget, PitchTarget;
      isVotrax := if votrax.None? then config.defaultVotrax else votrax.value;
      SetFunction(phone, durationPhoneme, currentFunction);
      targetInflection := config.Inflection12();
      if !isVotrax && this.currentFunction == 3 {
        activeInflection := WithPitchTarget(targetInflection, PitchTarget(activeInflection));
      } else {
        activeInflection := targetInflection;
      }
    }

    method StartClock(phone: int)
      modifies this`phone, this`params, this`phonetick, this`ticks, this`curClosure
      ensures State() == StartedClock(phones, old(State()), phone)
    {
      this.phone := phone % 64;
      params := phones[this.phone];
      phonetick, ticks := 0, 0;
      if params.cld == 0 {
        curClosure := params.closure;
      }
    }

    method SetFunction(phone: int, durationPhoneme: Option<int>, currentFunction: Option<int>)
      modifies this`durationPhoneme, this`currentFunction
      ensures this.durationPhoneme == StartDuration(isVotrax, phone, durationPhoneme)
      ensures this.currentFunction == StartFunction(isVotrax, this.durationPhoneme, currentFunction)
    {
      if isVotrax && durationPhoneme.None? {
        this.durationPhoneme := 0;
      } else {
        this.durationPhoneme := (if durationPhoneme.None? then phone else durationPhoneme.value) % 0x100;
      }
      if isVotrax && currentFunction.None? {
        this.currentFunction := 0;
      } else if currentFunction.None? {
        this.currentFunction := this.durationPhoneme / 64 % 4;
      } else {
        this.currentFunction := currentFunction.value % 4;
      }
    }

    method Interpolate(reg: int, target: int) returns (r: int)
      ensures r == HdlInterpolate(config.articulation, reg, target)
    {
      var current, goal := reg % 0x100, target % 16 * 16;
      var divisor := ArticulationDivisor(config.articulation);
      if goal >= current {
        var delta := goal - current;
        var step := delta / divisor;
        if delta != 0 && step == 0 {
          step := 1;
        }
        return if current + step > 0xFF then 0xFF else current + step;
      }
      var delta := current - goal;
      var step := delta / divisor;
      if delta != 0 && step == 0 {
        step := 1;
      }
      r := if current - step < 0 then 0 else current - step;
    }

    method AdvanceInflection()
      modifies this`targetInflection, this`activeInflection
      ensures State() == HdlInflection(config, old(State()))
    {
      hide WithPitchTarget, PitchTarget, SlopeStep;
      targetInflection := config.Inflection12();
      var next := targetInflection % 0x1000;
      if !isVotrax && currentFunction == 3 {
        var active, target := PitchTarget(activeInflection), PitchTarget(targetInflection);
        var step := SlopeStep(targetInflection / 8 % 8);
        if active < target {
          active := active + if step < target - active then step else target - active;
        } else if active > target {
          active := active - if step < active - target then step else active - target;
        }
        next := WithPitchTarget(next, active);
      }
      activeInflection := next % 0x1000;
    }

    method ChipUpdate(speedStep: nat)
      modifies this`phonetick, this`ticks, this`updateCounter, this`curClosure, this`cur, this`closure
      ensures State() == HdlUpdate(config, old(State()), speedStep)
    {
      hide HdlTiming, HdlInterpolate, NextClosure, Interpolated;
      AdvanceClock(speedStep);
      InterpolateRegs();
      AdvanceClosure();
    }

    method AdvanceClock(speedStep: nat)
      modifies this`phonetick, this`ticks, this`updateCounter, this`curClosure
      ensures Clock() == HdlTiming(params, old(Clock()), speedStep)
    {
      if ticks != LAST_TICK {
        var next: nat, limit: nat := phonetick + speedStep, params.TickLimit();
        if next >= limit {
          phonetick := next - limit;
          ticks := (ticks + 1) % 0x20;
          if ticks == params.cld {
            curClosure := params.closure;
          }
        } else {
          phonetick := next;
        }
      }
      updateCounter := if updateCounter == 47 then 0 else updateCounter + 1;
    }

    method InterpolateRegs()
      modifies this`cur
      ensures cur == Interpolated(Interpolator(config.articulation), params, Clock(), old(cur), filt)
    {
      hide HdlInterpolate;
      var fa, fc, va, f1, f2, f2q, f3 := cur.fa, cur.fc, cur.va, cur.f1, cur.f2, cur.f2q, cur.f3;
      if Tick208(updateCounter) && (!params.pause || !(filt.fa != 0 || filt.va != 0)) {
        fc := Interpolate(fc, params.fc);
        f1 := Interpolate(f1, params.f1);
        f2 := Interpolate(f2, params.f2);
        f2q := Interpolate(f2q, params.f2q);
        f3 := Interpolate(f3, params.f3);
      }
      if Tick625(updateCounter) {
        if ticks >= params.vd {
          fa := Interpolate(fa, params.fa);
        }
        if ticks >= params.cld {
          va := Interpolate(va, params.va);
        }
      }
      cur := Regs(fa, fc, va, f1, f2, f2q, f3);
    }

    method AdvanceClosure()
      modifies this`closure
      ensures closure == NextClosure(old(closure), curClosure, filt)
    {
      if !curClosure && (filt.fa != 0 || filt.va != 0) {
        closure := 0;
      } else if closure != 28 {
        closure := closure + 1;
      }
    }

    method AdvancePitchNoise()
      modifies this`pitch, this`pitchGate, this`filt, this`noise, this`curNoise
      ensures State() == HdlPitchNoise(config, old(State()))
    {
      hide CommitsAt, Committed, HdlNoise, HdlPitchLimit, NextPitch;
      AdvancePitch(HdlPitchLimit(config, State()));
      if CommitsAt(pitch) {
        filt := Committed(cur);
      }
      AdvanceNoise();
    }

    method AdvancePitch(limit: nat)
      modifies this`pitch, this`pitchGate
      ensures pitch == NextPitch(old(pitch), limit)
      ensures pitchGate == if isVotrax then pitch / 64 % 2 == 1 else pitch >= limit / 2
    {
      var next := pitch + 1;
      pitch := if next >= limit then next - limit else next;
      pitch := pitch % 0x400;
      pitchGate := if isVotrax then pitch / 64 % 2 == 1 else pitch >= limit / 2;
    }

    method AdvanceNoise()
      modifies this`noise, this`curNoise
      ensures Noise(noise, curNoise) == HdlNoise(Noise(old(noise), old(curNoise)))
    {
      noise := noise % 0x8000 * 2 % 0x8000 + if curNoise && noise % 0x8000 != 0x7FFF then 1 else 0;
      curNoise := noise / 0x4000 % 2 == noise / 0x2000 % 2;
    }

    /** `advance_inflection`, `chip_update` and `advance_pitch_noise` in the order of the render loops. */
    method ControlStep()
      requires Bounded(State())
      modifies this`targetInflection, this`activeInflection,
               this`phonetick, this`ticks, this`updateCounter, this`curClosure,
               this`cur, this`closure, this`pitch, this`pitchGate, this`filt, this`noise, this`curNoise
      ensures Bounded(State()) && State() == HdlStep(config, old(State()))
    {
      hide Bounded, HdlInflection, HdlUpdate, HdlPitchNoise;
      InflectionStaysBounded(config, State());
      AdvanceInflection();
      UpdateStaysBounded(config, State());
      ChipUpdate(1);
      PitchNoiseStaysBounded(config, State());
      AdvancePitchNoise();
    }

    method SynthSample() returns (out: int)
      requires Bounded(State()) && SoundValid() && config.amplitude < 16
      modifies this`idleDecayCount, this`bank, this`presenceLow, this`audio, bank.Objects()
      ensures SoundValid()
      ensures (bank == old(bank) || (fresh(bank) && fresh(bank.Objects())))
      ensures Sound() == NextAudio(config, tables, State(), old(Sound())) && out == audio && Fits16(out)
    {
      hide NextAudio, AudioBounded, Bounded, CodesFit;
      BoundedCodes(State());
      SampleStaysBounded(config, tables, State(), Sound());
      NextSample();
      AudioFits(Sound());
      out := audio;
    }

    method NextSample()
      requires tables.Shaped() && CodesFit(filt) && closure <= 28 && bank.Separate() && config.amplitude < 16
      modifies this`idleDecayCount, this`bank, this`presenceLow, this`audio, bank.Objects()
      ensures bank.Separate() && (bank == old(bank) || (fresh(bank) && fresh(bank.Objects())))
      ensures Sound() == NextAudio(config, tables, State(), old(Sound()))
    {
      hide Filtered, Silent, CodesFit, FilterBank.Memories, FilterBank.Separate, Coefficients.Shaped;
      if ticks == LAST_TICK && idleDecayCount >= FORMANT_IDLE_DECAY_SAMPLES {
        ClearFilterHistory();
        audio := 0;
      } else {
        FilterSample();
      }
    }

    method FilterSample()
      requires tables.Shaped() && CodesFit(filt) && closure <= 28 && bank.Separate() && config.amplitude < 16
      modifies this`idleDecayCount, this`presenceLow, this`audio, bank.Objects()
      ensures Sound() == Filtered(config, tables, State(), old(Sound()))
    {
      hide Flow, NextFilters, Shape, CodesFit, FilterBank.Memories, FilterBank.Separate, Coefficients.Shaped;
      var s := State();
      var fx, closed := bank.Run(config, tables, s);
      idleDecayCount := if ticks == LAST_TICK then idleDecayCount + 1 else 0;
      ShapeSample(s, fx, closed);
      assert State() == s;
    }

    method ShapeSample(s: Hdl, fx: int, closed: int)
      requires config.amplitude < 16
      modifies this`presenceLow, this`audio
      ensures (presenceLow, audio) == Shape(config, s, old(presenceLow), old(audio), fx, closed)
    {
      hide AttackBoost, Enhanced, SoftLimit16, SlewLimit16, Scale4, Sat24;
      var scaled := Scale4(AttackBoost(s, Enhanced(s, fx, closed)), config.amplitude);
      var presence := PresenceBoost(scaled);
      var target := SoftLimit16(Sat24(Scale4(presence, if s.isVotrax then 4 else 10) * 2));
      audio := SlewLimit16(audio, target);
    }

    method ClearFilterHistory()
      modifies this`bank, this`presenceLow
      ensures bank.Separate() && fresh(bank) && fresh(bank.Objects())
      ensures bank.Memories() == SILENCE && presenceLow == 0
    {
      bank := new FilterBank();
      presenceLow := 0;
    }

    method PresenceBoost(sample: int) returns (boosted: int)
      modifies this`presenceLow
      ensures boosted == Sat24(sample + (sample - old(presenceLow)) / 2)
      ensures presenceLow == Sat24(old(presenceLow) + (sample - old(presenceLow)) / 8)
    {
      var delta := sample - presenceLow;
      boosted := Sat24(sample + delta / 2);
      presenceLow := Sat24(presenceLow + delta / 8);
    }
  }

  const HDL_SAMPLE_RATE: nat := 48_000
  const HDL_CONTROL_RATE := 20_000
  const MAME_SAMPLE_RATE := 40_000
}
