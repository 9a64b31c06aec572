/** The two phrase renderers, and the exact number of samples each phone takes. */
module Phrase {
  import opened Bytes
  import opened FixedPoint
  import opened Chip
  import opened ChipFacts
  import opened Synth
  import opened Models

  /** Control steps taken after `n` audio samples, when `acc` was left over before. */
  function Updates(acc: nat, n: nat): nat {
    (acc + HDL_CONTROL_RATE * n) / HDL_SAMPLE_RATE
  }

  function Remainder(acc: nat, n: nat): nat {
    (acc + HDL_CONTROL_RATE * n) % HDL_SAMPLE_RATE
  }

  /** The least number of samples after which `k` control steps have been taken. */
  function SamplesFor(acc: nat, k: nat): (n: nat)
    requires acc < HDL_SAMPLE_RATE && k >= 1
    ensures Updates(acc, n) >= k && n >= 1 && Updates(acc, n - 1) < k
  {
    (HDL_SAMPLE_RATE * k - acc + HDL_CONTROL_RATE - 1) / HDL_CONTROL_RATE
  }

  lemma SamplesForIsUnique(acc: nat, k: nat, n: nat)
    requires acc < HDL_SAMPLE_RATE && k >= 1
    requires Updates(acc, n) >= k && (n > 0 ==> Updates(acc, n - 1) < k)
    ensures n == SamplesFor(acc, k)
  {
  }

  /** The accumulator steps as the render loop writes it. */
  lemma AccumulatorStep(acc: nat, n: nat)
    ensures var now := Remainder(acc, n) + HDL_CONTROL_RATE;
            if now >= HDL_SAMPLE_RATE
            then Remainder(acc, n + 1) == now - HDL_SAMPLE_RATE && Updates(acc, n + 1) == Updates(acc, n) + 1
            else Remainder(acc, n + 1) == now && Updates(acc, n + 1) == Updates(acc, n)
  {
  }

  /** Five control steps to every twelve samples, wherever they begin. */
  lemma TwelveSamplesAreFiveSteps(acc: nat, n: nat)
    ensures Updates(acc, n + 12) == Updates(acc, n) + 5 && Remainder(acc, n + 12) == Remainder(acc, n)
  {
  }

  predicate AllFromRom(phones: Phones) {
    forall p | p in phones :: p.FromRom()
  }

  lemma LongestPhone(p: PhoneParams)
    requires p.FromRom()
    ensures 16 <= PhoneLength(p) <= 8144
  {
  }

  /** Samples rendered by the HDL phrase loop when the phrase so far took `t` samples. */
  function HdlPhraseEnd(phones: Phones, ids: seq<int>, gap: nat, t: nat): nat
    decreases ids
  {
    if ids == [] then t
    else
      var n := SamplesFor(Remainder(0, t), PhoneLength(phones[ids[0] % 64]));
      HdlPhraseEnd(phones, ids[1..], gap, t + n + gap)
  }

  lemma {:induction false} RemainderChains(acc: nat, m: nat, n: nat)
    ensures Remainder(Remainder(acc, m), n) == Remainder(acc, m + n)
  {
    if n > 0 {
      RemainderChains(acc, m, n - 1);
      AccumulatorStep(Remainder(acc, m), n - 1);
      AccumulatorStep(acc, m + n - 1);
    }
  }

  lemma StepTiming(config: HdlConfig, s: Hdl)
    ensures HdlStep(config, s).timing == HdlTiming(s.params, s.timing, 1) && HdlStep(config, s).params == s.params
  {
  }

  /** All that a rendered sample depends on: control state, audio state and the rate accumulator. */
  datatype Moment = Moment(s: Hdl, a: AudioState, acc: nat)

  ghost predicate InRange(config: HdlConfig, k: Coefficients, m: Moment) {
    config.Valid() && k.Valid() && m.acc < HDL_SAMPLE_RATE && Bounded(m.s) && AudioBounded(m.a)
  }

  /** One pass of the sample loop. */
  ghost function Next(config: HdlConfig, k: Coefficients, m: Moment): (r: Moment)
    requires InRange(config, k, m)
    ensures InRange(config, k, r)
    ensures r.s == (if m.acc + HDL_CONTROL_RATE >= HDL_SAMPLE_RATE then HdlStep(config, m.s) else m.s)
    ensures r.acc == (m.acc + HDL_CONTROL_RATE) % HDL_SAMPLE_RATE
  {
    hide HdlStep, NextAudio, Bounded, AudioBounded;
    var s := if m.acc + HDL_CONTROL_RATE >= HDL_SAMPLE_RATE then HdlStep(config, m.s) else m.s;
    StepStaysBounded(config, m.s);
    BoundedCodes(s);
    SampleStaysBounded(config, k, s, m.a);
    Moment(s, NextAudio(config, k, s, m.a), (m.acc + HDL_CONTROL_RATE) % HDL_SAMPLE_RATE)
  }

  lemma NextIs(config: HdlConfig, k: Coefficients, m: Moment)
    requires InRange(config, k, m)
    ensures var r := Next(config, k, m);
            && k.Shaped() && CodesFit(r.s.filt) && r.s.closure <= 28 && Bounded(r.s)
            && r.a == NextAudio(config, k, r.s, m.a)
            && r == if m.acc + HDL_CONTROL_RATE >= HDL_SAMPLE_RATE
                    then Moment(HdlStep(config, m.s), r.a, m.acc + HDL_CONTROL_RATE - HDL_SAMPLE_RATE)
                    else Moment(m.s, r.a, m.acc + HDL_CONTROL_RATE)
  {
    hide HdlStep, NextAudio, Bounded, AudioBounded;
    StepStaysBounded(config, m.s);
    BoundedCodes(Next(config, k, m).s);
  }

  lemma StepStaysBounded(config: HdlConfig, s: Hdl)
    requires Bounded(s)
    ensures Bounded(HdlStep(config, s))
  {
    hide Bounded, HdlInflection, HdlUpdate, HdlPitchNoise;
    InflectionStaysBounded(config, s);
    UpdateStaysBounded(config, HdlInflection(config, s));
    PitchNoiseStaysBounded(config, HdlUpdate(config, HdlInflection(config, s), 1));
  }

  /** The moment after `n` samples. */
  ghost function After(config: HdlConfig, k: Coefficients, m: Moment, n: nat): (r: Moment)
    requires InRange(config, k, m)
    ensures InRange(config, k, r)
  {
    if n == 0 then m else Next(config, k, After(config, k, m, n - 1))
  }

  /** The next `n` samples. */
  ghost function SoundOf(config: HdlConfig, k: Coefficients, m: Moment, n: nat): (out: seq<int>)
    requires InRange(config, k, m)
    ensures |out| == n
  {
    if n == 0 then [] else SoundOf(config, k, m, n - 1) + [After(config, k, m, n).a.audio]
  }

  ghost function Started(phones: Phones, config: HdlConfig, k: Coefficients, m: Moment, phone: int): (r: Moment)
    requires InRange(config, k, m)
    ensures InRange(config, k, r)
  {
    hide Bounded, AudioBounded, HdlStart;
    StartStaysBounded(phones, config, m.s, phone, None, None, None);
    AudioFits(m.a);
    Moment(HdlStart(phones, config, m.s, phone, None, None, None), m.a.(idle := 0), m.acc)
  }

  /** Samples a phone takes when started at moment `m`. */
  ghost function PhoneSamples(phones: Phones, config: HdlConfig, k: Coefficients, m: Moment, phone: int): nat
    requires InRange(config, k, m)
  {
    SamplesFor(m.acc, PhoneLength(phones[phone % 64]))
  }

  /** The sound of one phone for exactly its length and of the gap behind it, and the moment after that. */
  ghost function PhoneSound(
      phones: Phones, config: HdlConfig, k: Coefficients, m: Moment, phone: int, gap: nat): (r: (seq<int>, Moment))
    requires InRange(config, k, m)
    ensures InRange(config, k, r.1)
  {
    var start := Started(phones, config, k, m, phone);
    var n := PhoneSamples(phones, config, k, m, phone) + gap;
    (SoundOf(config, k, start, n), After(config, k, start, n))
  }

  /** The sound of a phrase, the chip running on throughout. */
  ghost function PhraseSound(
      phones: Phones, config: HdlConfig, k: Coefficients, m: Moment, ids: seq<int>, gap: nat): seq<int>
    requires InRange(config, k, m)
    decreases ids
  {
    if ids == [] then []
    else
      var (sound, next) := PhoneSound(phones, config, k, m, ids[0], gap);
      sound + PhraseSound(phones, config, k, next, ids[1..], gap)
  }

  lemma PhoneThenGap(phones: Phones, config: HdlConfig, k: Coefficients, m: Moment, phone: int, gap: nat)
    requires InRange(config, k, m)
    ensures var start := Started(phones, config, k, m, phone);
            var n := PhoneSamples(phones, config, k, m, phone);
            var end := After(config, k, start, n);
            PhoneSound(phones, config, k, m, phone, gap)
            == (SoundOf(config, k, start, n) + SoundOf(config, k, end, gap), After(config, k, end, gap))
  {
    hide InRange, Started, PhoneSamples, After, SoundOf;
    AfterAdd(config, k, Started(phones, config, k, m, phone), PhoneSamples(phones, config, k, m, phone), gap);
  }

  lemma {:induction false} AfterAdd(config: HdlConfig, k: Coefficients, m: Moment, i: nat, j: nat)
    requires InRange(config, k, m)
    ensures After(config, k, m, i + j) == After(config, k, After(config, k, m, i), j)
    ensures SoundOf(config, k, m, i + j) == SoundOf(config, k, m, i) + SoundOf(config, k, After(config, k, m, i), j)
  {
    hide Next, InRange;
    if j > 0 {
      AfterAdd(config, k, m, i, j - 1);
    }
  }

  lemma {:induction false} SoundFits(config: HdlConfig, k: Coefficients, m: Moment, n: nat)
    requires InRange(config, k, m)
    ensures forall v | v in SoundOf(config, k, m, n) :: Fits16(v)
  {
    hide Next;
    if n > 0 {
      SoundFits(config, k, m, n - 1);
      AudioFits(After(config, k, m, n).a);
    }
  }

  /** A sample differs from the one before by at most a slew step, unless the filters have just been cleared. */
  lemma NextIsSmooth(config: HdlConfig, k: Coefficients, m: Moment)
    requires InRange(config, k, m)
    ensures Smooth(m.a.audio, Next(config, k, m).a.audio)
  {
    hide Flow, NextFilters, Shape, Bounded;
    NextIs(config, k, m);
    AudioFits(m.a);
    var s := Next(config, k, m).s;
    var g := Flow(config, k, s, m.a.filters);
    ShapeIsSmooth(config, s, m.a.presenceLow, m.a.audio, g.fx, g.closed);
  }

  /** So any stretch of sound continues the sample before it without a click above the slew step. */
  lemma {:induction false} SoundIsSmooth(config: HdlConfig, k: Coefficients, m: Moment, n: nat)
    requires InRange(config, k, m)
    ensures AllSmooth([m.a.audio] + SoundOf(config, k, m, n))
    ensures ([m.a.audio] + SoundOf(config, k, m, n))[n] == After(config, k, m, n).a.audio
  {
    hide InRange, Next, Smooth;
    if n > 0 {
      SoundIsSmooth(config, k, m, n - 1);
      NextIsSmooth(config, k, After(config, k, m, n - 1));
      assert [m.a.audio] + SoundOf(config, k, m, n)
          == ([m.a.audio] + SoundOf(config, k, m, n - 1)) + [After(config, k, m, n).a.audio];
    }
  }

  lemma JoinedSmoothly(first: int, a: seq<int>, b: seq<int>)
    requires AllSmooth([first] + a) && AllSmooth([([first] + a)[|a|]] + b)
    ensures AllSmooth([first] + (a + b))
  {
    hide Smooth;
    var all, left, right := [first] + (a + b), [first] + a, [([first] + a)[|a|]] + b;
    forall i | 0 < i < |all| ensures Smooth(all[i - 1], all[i]) {
      if i <= |a| {
        assert Smooth(left[i - 1], left[i]);
      } else {
        assert Smooth(right[i - |a| - 1], right[i - |a|]);
      }
    }
  }

  predicate AllSmooth(out: seq<int>) {
    forall i | 0 < i < |out| :: Smooth(out[i - 1], out[i])
  }

  predicate Smooth(before: int, now: int) {
    -FORMANT_SLEW_STEP <= now - before <= FORMANT_SLEW_STEP || now == 0
  }

  /** Once a phone has ended the chip rests: whatever its control steps still do, it counts 512 samples and then is
      exactly silent, with all filters cleared, and stays so. */
  lemma {:induction false} DecayEndsInSilence(config: HdlConfig, k: Coefficients, m: Moment, n: nat)
    requires InRange(config, k, m) && m.s.timing.ticks == LAST_TICK
    ensures var r := After(config, k, m, n);
            && r.s.timing.ticks == LAST_TICK
            && if m.a.idle + n <= FORMANT_IDLE_DECAY_SAMPLES then r.a.idle == m.a.idle + n
               else r.a == AudioState(FORMANT_IDLE_DECAY_SAMPLES, SILENCE, 0, 0)
  {
    hide Bounded, HdlStep, Flow, NextFilters, Shape, Next;
    if n > 0 {
      var before := After(config, k, m, n - 1);
      DecayEndsInSilence(config, k, m, n - 1);
      NextIs(config, k, before);
      StepTiming(config, before.s);
    }
  }

  /** So in the sound of a resting chip every sample from the 512th idle one on is zero. */
  lemma {:induction false} RestFallsSilent(config: HdlConfig, k: Coefficients, m: Moment, n: nat)
    requires InRange(config, k, m) && m.s.timing.ticks == LAST_TICK
    ensures forall i | 0 <= i < n && m.a.idle + i >= FORMANT_IDLE_DECAY_SAMPLES :: SoundOf(config, k, m, n)[i] == 0
  {
    hide InRange, Next;
    if n > 0 {
      RestFallsSilent(config, k, m, n - 1);
      DecayEndsInSilence(config, k, m, n);
    }
  }

  ghost function MomentOf(model: HdlLikeFormant): Moment
    reads model, model.bank.Objects()
  {
    Moment(model.State(), model.Sound(), model.chipAccum)
  }

  ghost predicate Ready(model: HdlLikeFormant)
    reads model, model.bank.Objects()
  {
    model.bank.Separate() && InRange(model.config, model.tables, MomentOf(model))
  }

  /** One pass of the sample loop: perhaps a control step, then a sample. */
  method RenderSample(model: HdlLikeFormant) returns (sample: int)
    requires Ready(model)
    modifies model, model.bank.Objects()
    ensures Ready(model) && fresh(model.bank.Objects() - old(model.bank.Objects())) && model.config == old(model.config)
    ensures MomentOf(model) == Next(model.config, model.tables, old(MomentOf(model)))
    ensures sample == MomentOf(model).a.audio
  {
    hide Bounded, HdlStep, NextAudio, AudioBounded, Coefficients.Valid, FilterBank.Separate, HdlLikeFormant.State,
        HdlLikeFormant.Sound, Next;
    NextIs(model.config, model.tables, MomentOf(model));
    model.chipAccum := model.chipAccum + HDL_CONTROL_RATE;
    if model.chipAccum >= HDL_SAMPLE_RATE {
      model.chipAccum := model.chipAccum - HDL_SAMPLE_RATE;
      model.ControlStep();
    }
    sample := model.SynthSample();
    AudioOf(model);
  }

  lemma AudioOf(model: HdlLikeFormant)
    ensures MomentOf(model).a.audio == model.audio
  {
  }

  /** After `n` samples of a phone the accumulator and the phone clock stand where arithmetic puts them. */
  ghost predicate Driven(s: Hdl, chipAccum: nat, acc: nat, p: PhoneParams, start: Timing, n: nat) {
    chipAccum == Remainder(acc, n) && s.params == p && s.timing == Clock(p, start, Updates(acc, n))
  }

  lemma DrivenStep(config: HdlConfig, s: Hdl, chipAccum: nat, acc: nat, p: PhoneParams, start: Timing, n: nat)
    requires Driven(s, chipAccum, acc, p, start, n)
    ensures var s' := if chipAccum + HDL_CONTROL_RATE >= HDL_SAMPLE_RATE then HdlStep(config, s) else s;
            Driven(s', (chipAccum + HDL_CONTROL_RATE) % HDL_SAMPLE_RATE, acc, p, start, n + 1)
  {
    hide HdlStep;
    AccumulatorStep(acc, n);
    StepTiming(config, s);
  }

  /** While the phone lasts, its length has not been reached; once it has ended, it has. */
  lemma DrivenTells(s: Hdl, chipAccum: nat, acc: nat, p: PhoneParams, t: Timing, n: nat)
    requires Driven(s, chipAccum, acc, p, StartTiming(p, t), n) && t.updateCounter <= 47
    ensures s.timing.ticks == LAST_TICK <==> Updates(acc, n) >= PhoneLength(p)
    ensures chipAccum == Remainder(acc, n)
  {
    hide Clock;
    ClockAfterStart(p, t, Updates(acc, n));
  }

  lemma GuardIsFar(acc: nat, p: PhoneParams, n: int)
    requires p.FromRom()
    ensures PhoneLength(p) >= 1 && (n >= 3 * HDL_SAMPLE_RATE - 1 ==> Updates(acc, n) >= PhoneLength(p))
  {
    LongestPhone(p);
  }

  /** One phone of `render_hdl_sc01_phrase`: the loop leaves because the phone has ended, never because of its guard,
      after exactly as many samples as sixteen ticks take, and returns those samples. */
  method RenderHdlPhone(model: HdlLikeFormant, phone: int) returns (out: seq<int>)
    requires Ready(model) && AllFromRom(model.phones)
    modifies model, model.bank.Objects()
    ensures Ready(model) && fresh(model.bank.Objects() - old(model.bank.Objects())) && model.config == old(model.config)
    ensures var start := Started(model.phones, model.config, model.tables, old(MomentOf(model)), phone);
            var n := PhoneSamples(model.phones, model.config, model.tables, old(MomentOf(model)), phone);
            && n < 3 * HDL_SAMPLE_RATE && out == SoundOf(model.config, model.tables, start, n)
            && MomentOf(model) == After(model.config, model.tables, start, n)
    ensures model.ticks == LAST_TICK
  {
    hide MomentOf, InRange, Ready, Driven, Started, PhoneLength, SamplesFor, AllFromRom, StartTiming, SoundOf, After;
    var p := model.phones[phone % 64];
    ghost var m := MomentOf(model);
    ReadyIsInRange(model);
    StartedIsDriven(model.phones, model.config, model.tables, m, phone);
    PhoneFromRom(model.phones, p);
    BeginPhone(model, phone);
    out := RenderToTheEnd(model, p, m.acc, m.s.timing);
  }

  /** The loop itself, from a started phone to its end. */
  method RenderToTheEnd(model: HdlLikeFormant, p: PhoneParams, ghost acc: nat, ghost t: Timing) returns (out: seq<int>)
    requires Ready(model) && p.FromRom() && acc < HDL_SAMPLE_RATE && t.updateCounter <= 47
    requires Driven(MomentOf(model).s, MomentOf(model).acc, acc, p, StartTiming(p, t), 0)
    modifies model, model.bank.Objects()
    ensures Ready(model) && fresh(model.bank.Objects() - old(model.bank.Objects())) && model.config == old(model.config)
    ensures var n := SamplesFor(acc, PhoneLength(p));
            && n < 144_000 && out == SoundOf(model.config, model.tables, old(MomentOf(model)), n)
            && MomentOf(model) == After(model.config, model.tables, old(MomentOf(model)), n)
    ensures model.ticks == LAST_TICK
  {
    hide MomentOf, InRange, Ready, Driven, After, SoundOf, SamplesFor, PhoneLength, Rendering, StartTiming;
    ghost var c, k, start, owned := model.config, model.tables, MomentOf(model), model.bank.Objects();
    out := [];
    RenderingStarts(model, acc, p, t);
    while model.ticks != LAST_TICK && |out| < 3 * HDL_SAMPLE_RATE
      invariant Rendering(model, c, k, start, acc, p, t, out)
      invariant fresh(model.bank.Objects() - owned)
      decreases 3 * HDL_SAMPLE_RATE - |out|
    {
      out := RenderOne(model, c, k, start, acc, p, t, out);
    }
    RenderingEnds(model, c, k, start, acc, p, t, out);
  }

  /** The loop's state after the samples `out`. */
  ghost predicate Rendering(
      model: HdlLikeFormant, c: HdlConfig, k: Coefficients, start: Moment, acc: nat, p: PhoneParams, t: Timing,
      out: seq<int>)
    reads model, model.bank.Objects()
  {
    && Ready(model) && model.config == c && model.tables == k && InRange(c, k, start)
    && MomentOf(model) == After(c, k, start, |out|) && out == SoundOf(c, k, start, |out|)
    && Driven(MomentOf(model).s, MomentOf(model).acc, acc, p, StartTiming(p, t), |out|)
    && (|out| > 0 ==> Updates(acc, |out| - 1) < PhoneLength(p))
  }

  lemma RenderingStarts(model: HdlLikeFormant, acc: nat, p: PhoneParams, t: Timing)
    requires Ready(model) && Driven(MomentOf(model).s, MomentOf(model).acc, acc, p, StartTiming(p, t), 0)
    ensures Rendering(model, model.config, model.tables, MomentOf(model), acc, p, t, [])
  {
    hide MomentOf, Driven, After, SoundOf, Ready, InRange;
    ReadyIsInRange(model);
    SoundStarts(model.config, model.tables, MomentOf(model));
  }

  method RenderOne(
      model: HdlLikeFormant, ghost c: HdlConfig, ghost k: Coefficients, ghost start: Moment, ghost acc: nat,
      ghost p: PhoneParams, ghost t: Timing, out: seq<int>)
    returns (next: seq<int>)
    requires Rendering(model, c, k, start, acc, p, t, out) && model.ticks != LAST_TICK && t.updateCounter <= 47
    modifies model, model.bank.Objects()
    ensures Rendering(model, c, k, start, acc, p, t, next) && |next| == |out| + 1
    ensures fresh(model.bank.Objects() - old(model.bank.Objects()))
  {
    hide MomentOf, InRange, Ready, Driven, Next, PhoneLength, Updates, StartTiming, After, SoundOf;
    TicksOf(model);
    ReadyIsInRange(model);
    DrivenTells(MomentOf(model).s, MomentOf(model).acc, acc, p, t, |out|);
    DrivenNext(c, k, MomentOf(model), acc, p, StartTiming(p, t), |out|);
    SoundGoesOn(c, k, start, |out|);
    var sample := RenderSample(model);
    next := out + [sample];
  }

  lemma RenderingEnds(
      model: HdlLikeFormant, c: HdlConfig, k: Coefficients, start: Moment, acc: nat, p: PhoneParams, t: Timing,
      out: seq<int>)
    requires Rendering(model, c, k, start, acc, p, t, out)
    requires p.FromRom() && acc < HDL_SAMPLE_RATE && t.updateCounter <= 47
    requires model.ticks == LAST_TICK || |out| >= 3 * HDL_SAMPLE_RATE
    ensures Ready(model) && model.config == c && model.tables == k && InRange(c, k, start) && model.ticks == LAST_TICK
    ensures PhoneLength(p) >= 1
    ensures var n := SamplesFor(acc, PhoneLength(p));
            n < 3 * HDL_SAMPLE_RATE && out == SoundOf(c, k, start, n) && MomentOf(model) == After(c, k, start, n)
  {
    hide MomentOf, InRange, Ready, Driven, Next, PhoneLength, Updates, StartTiming, After, SoundOf, SamplesFor;
    TicksOf(model);
    PhoneHasEnded(MomentOf(model), acc, p, t, |out|);
  }

  lemma SoundStarts(config: HdlConfig, k: Coefficients, m: Moment)
    requires InRange(config, k, m)
    ensures After(config, k, m, 0) == m && SoundOf(config, k, m, 0) == []
  {
  }

  lemma SoundGoesOn(config: HdlConfig, k: Coefficients, m: Moment, n: nat)
    requires InRange(config, k, m)
    ensures InRange(config, k, After(config, k, m, n))
    ensures After(config, k, m, n + 1) == Next(config, k, After(config, k, m, n))
    ensures SoundOf(config, k, m, n + 1) == SoundOf(config, k, m, n) + [After(config, k, m, n + 1).a.audio]
  {
    hide Next, InRange;
  }

  /** Whichever way the loop stops, the phone has ended, and not a sample earlier. */
  lemma PhoneHasEnded(m: Moment, acc: nat, p: PhoneParams, t: Timing, n: nat)
    requires p.FromRom() && acc < HDL_SAMPLE_RATE && t.updateCounter <= 47
    requires Driven(m.s, m.acc, acc, p, StartTiming(p, t), n)
    requires n > 0 ==> Updates(acc, n - 1) < PhoneLength(p)
    requires m.s.timing.ticks == LAST_TICK || n >= 3 * HDL_SAMPLE_RATE
    ensures PhoneLength(p) >= 1 && n == SamplesFor(acc, PhoneLength(p)) < 3 * HDL_SAMPLE_RATE
    ensures m.s.timing.ticks == LAST_TICK
  {
    hide Driven, PhoneLength, Updates, SamplesFor;
    DrivenTells(m.s, m.acc, acc, p, t, n);
    GuardIsFar(acc, p, n - 1);
    SamplesForIsUnique(acc, PhoneLength(p), n);
  }

  lemma PhoneFromRom(phones: Phones, p: PhoneParams)
    requires AllFromRom(phones) && p in phones
    ensures p.FromRom()
  {
  }

  lemma StartedIsDriven(phones: Phones, config: HdlConfig, k: Coefficients, m: Moment, phone: int)
    requires InRange(config, k, m)
    ensures var start, p := Started(phones, config, k, m, phone), phones[phone % 64];
            && m.s.timing.updateCounter <= 47 && m.acc < HDL_SAMPLE_RATE
            && Driven(start.s, start.acc, m.acc, p, StartTiming(p, m.s.timing), 0)
  {
    hide Driven, HdlStart;
    StartIsDriven(phones, config, m.s, phone, m.acc);
  }

  lemma TicksOf(model: HdlLikeFormant)
    ensures MomentOf(model).s.timing.ticks == model.ticks
  {
  }

  lemma DrivenNext(config: HdlConfig, k: Coefficients, m: Moment, acc: nat, p: PhoneParams, start: Timing, n: nat)
    requires InRange(config, k, m) && Driven(m.s, m.acc, acc, p, start, n)
    ensures Driven(Next(config, k, m).s, Next(config, k, m).acc, acc, p, start, n + 1)
  {
    hide InRange, Driven, Next, HdlStep;
    DrivenStep(config, m.s, m.acc, acc, p, start, n);
  }

  /** Starting a phone on the object is starting it at its moment. */
  method BeginPhone(model: HdlLikeFormant, phone: int)
    requires Ready(model)
    modifies model
    ensures Ready(model) && model.config == old(model.config) && model.bank == old(model.bank)
    ensures InRange(model.config, model.tables, old(MomentOf(model)))
    ensures MomentOf(model) == Started(model.phones, model.config, model.tables, old(MomentOf(model)), phone)
  {
    hide HdlLikeFormant.State, HdlLikeFormant.Sound, FilterBank.Separate, Bounded, AudioBounded, Coefficients.Valid;
    hide HdlStart;
    ghost var start := Started(model.phones, model.config, model.tables, MomentOf(model), phone);
    model.StartPhone(phone, None, None, None);
  }

  lemma StartIsDriven(phones: Phones, config: HdlConfig, s: Hdl, phone: int, acc: nat)
    requires Bounded(s) && acc < HDL_SAMPLE_RATE
    ensures s.timing.updateCounter <= 47
    ensures var p := phones[phone % 64];
            Driven(HdlStart(phones, config, s, phone, None, None, None), acc, acc, p, StartTiming(p, s.timing), 0)
  {
    assert Updates(acc, 0) == 0;
  }

  method RenderGap(model: HdlLikeFormant, gap: nat) returns (out: seq<int>)
    requires Ready(model)
    modifies model, model.bank.Objects()
    ensures Ready(model) && fresh(model.bank.Objects() - old(model.bank.Objects())) && model.config == old(model.config)
    ensures out == SoundOf(model.config, model.tables, old(MomentOf(model)), gap)
    ensures MomentOf(model) == After(model.config, model.tables, old(MomentOf(model)), gap)
  {
    hide MomentOf, InRange, Next, Ready;
    ghost var c, k, m, owned := model.config, model.tables, MomentOf(model), model.bank.Objects();
    ReadyIsInRange(model);
    out := [];
    for i := 0 to gap
      invariant Ready(model) && model.config == c
      invariant fresh(model.bank.Objects() - owned)
      invariant out == SoundOf(c, k, m, i) && MomentOf(model) == After(c, k, m, i)
    {
      ReadyIsInRange(model);
      var sample := RenderSample(model);
      out := out + [sample];
    }
  }

  lemma ReadyIsInRange(model: HdlLikeFormant)
    requires Ready(model)
    ensures InRange(model.config, model.tables, MomentOf(model))
  {
  }

  /** A phone and the gap behind it. */
  method RenderPhoneAndGap(model: HdlLikeFormant, phone: int, gap: nat) returns (out: seq<int>)
    requires Ready(model) && AllFromRom(model.phones)
    modifies model, model.bank.Objects()
    ensures Ready(model) && fresh(model.bank.Objects() - old(model.bank.Objects())) && model.config == old(model.config)
    ensures (out, MomentOf(model))
        == PhoneSound(model.phones, model.config, model.tables, old(MomentOf(model)), phone, gap)
  {
    hide MomentOf, InRange, Started, PhoneSamples, After, SoundOf, PhoneSound;
    PhoneThenGap(model.phones, model.config, model.tables, MomentOf(model), phone, gap);
    var rendered := RenderHdlPhone(model, phone);
    var silence := RenderGap(model, gap);
    out := rendered + silence;
  }

  /** The moment a new chip starts from. */
  ghost function Fresh(phones: Phones, config: HdlConfig): Moment {
    Moment(HdlInit(phones, config), AudioState(0, SILENCE, 0, 0), 0)
  }

  method NewModel(phones: Phones, config: HdlConfig, tables: Coefficients) returns (model: HdlLikeFormant)
    requires config.Valid() && tables.Valid()
    ensures fresh(model) && fresh(model.bank.Objects()) && Ready(model)
    ensures model.phones == phones && model.config == config && model.tables == tables
    ensures InRange(config, tables, Fresh(phones, config)) && MomentOf(model) == Fresh(phones, config)
  {
    hide Coefficients.Valid, AudioBounded, Bounded, HdlInit, FilterBank.Separate, HdlLikeFormant.State,
        HdlLikeFormant.Sound;
    model := new HdlLikeFormant(phones, config, tables);
  }

  lemma PhraseFrom(phones: Phones, config: HdlConfig, k: Coefficients, m: Moment, ids: seq<int>, gap: nat, i: nat)
    requires InRange(config, k, m) && i <= |ids|
    ensures PhraseSound(phones, config, k, m, ids[i..], gap)
            == if i == |ids| then []
               else PhoneSound(phones, config, k, m, ids[i], gap).0
                    + PhraseSound(phones, config, k, PhoneSound(phones, config, k, m, ids[i], gap).1, ids[i + 1..], gap)
  {
    hide PhoneSound, InRange;
    if i < |ids| {
      assert ids[i..][1..] == ids[i + 1..];
    }
  }

  /** `render_hdl_sc01_phrase`: exactly the sound of the phrase, every phone rendered to its end. */
  method RenderHdlPhrase(phones: Phones, config: HdlConfig, tables: Coefficients, ids: seq<int>, gap: nat)
    returns (out: seq<int>)
    requires AllFromRom(phones) && config.Valid() && tables.Valid()
    ensures InRange(config, tables, Fresh(phones, config))
    ensures out == PhraseSound(phones, config, tables, Fresh(phones, config), ids, gap)
  {
    hide PhoneSound, Ready, MomentOf, Fresh, PhraseSound, InRange, AllFromRom, Coefficients.Valid;
    var model := NewModel(phones, config, tables);
    out := [];
    ghost var all, m := PhraseSound(phones, config, tables, MomentOf(model), ids, gap), MomentOf(model);
    assert ids[0..] == ids;
    for i := 0 to |ids|
      invariant Ready(model) && model.phones == phones && model.config == config && model.tables == tables
      invariant fresh(model) && fresh(model.bank.Objects())
      invariant m == MomentOf(model) && InRange(config, tables, m)
      invariant all == out + PhraseSound(phones, config, tables, m, ids[i..], gap)
    {
      PhraseFrom(phones, config, tables, m, ids, gap, i);
      var rendered := RenderPhoneAndGap(model, ids[i], gap);
      m := MomentOf(model);
      out := out + rendered;
    }
    PhraseFrom(phones, config, tables, m, ids, gap, |ids|);
  }

  /** So the length of a phrase is known from the durations alone, and all its samples are 16-bit. */
  lemma {:induction false} PhraseLength(
      phones: Phones, config: HdlConfig, k: Coefficients, m: Moment, ids: seq<int>, gap: nat, t: nat)
    requires InRange(config, k, m) && m.acc == Remainder(0, t)
    ensures t + |PhraseSound(phones, config, k, m, ids, gap)| == HdlPhraseEnd(phones, ids, gap, t)
    ensures forall v | v in PhraseSound(phones, config, k, m, ids, gap) :: Fits16(v)
    decreases ids
  {
    hide InRange, Next, SamplesFor, PhoneLength, Remainder, HdlStart;
    if ids != [] {
      var start := Started(phones, config, k, m, ids[0]);
      var n := PhoneSamples(phones, config, k, m, ids[0]) + gap;
      SoundFits(config, k, start, n);
      AccumulatorAfter(config, k, start, n);
      RemainderChains(0, t, n);
      PhraseLength(phones, config, k, After(config, k, start, n), ids[1..], gap, t + n);
    }
  }

  /** A whole phrase is smooth too: starting a phone leaves the output where it was. */
  lemma {:induction false} PhraseIsSmooth(
      phones: Phones, config: HdlConfig, k: Coefficients, m: Moment, ids: seq<int>, gap: nat)
    requires InRange(config, k, m)
    ensures AllSmooth([m.a.audio] + PhraseSound(phones, config, k, m, ids, gap))
    decreases ids
  {
    hide InRange, Next, Smooth, SoundOf, After, PhoneSamples, HdlStart;
    if ids != [] {
      var start := Started(phones, config, k, m, ids[0]);
      var n := PhoneSamples(phones, config, k, m, ids[0]) + gap;
      var next := After(config, k, start, n);
      SoundIsSmooth(config, k, start, n);
      PhraseIsSmooth(phones, config, k, next, ids[1..], gap);
      JoinedSmoothly(m.a.audio, SoundOf(config, k, start, n), PhraseSound(phones, config, k, next, ids[1..], gap));
    }
  }

  lemma {:induction false} AccumulatorAfter(config: HdlConfig, k: Coefficients, m: Moment, n: nat)
    requires InRange(config, k, m)
    ensures After(config, k, m, n).acc == Remainder(m.acc, n)
  {
    hide Next, InRange, Remainder;
    if n == 0 {
      NoRemainder(config, k, m);
    } else {
      AccumulatorAfter(config, k, m, n - 1);
      RemainderStep(m.acc, n - 1);
    }
  }

  lemma RemainderStep(acc: nat, n: nat)
    ensures Remainder(acc, n + 1) == (Remainder(acc, n) + HDL_CONTROL_RATE) % HDL_SAMPLE_RATE
  {
    AccumulatorStep(acc, n);
  }

  lemma NoRemainder(config: HdlConfig, k: Coefficients, m: Moment)
    requires InRange(config, k, m)
    ensures Remainder(m.acc, 0) == m.acc
  {
  }

  /** What `analog_calc` reads for one sample; `None` stands for the silence between phones. */
  type MameSample = Option<Mame>

  function MameAfter(inflection: nat, s: Mame, n: nat): Mame
    requires inflection < 4
  {
    if n == 0 then s else MameUpdate(inflection, MameAfter(inflection, s, n - 1))
  }

  /** The first `n` samples from state `s`: the chip is updated before every second one. */
  function MameSamples(inflection: nat, s: Mame, n: nat): (out: seq<MameSample>)
    requires inflection < 4
    ensures |out| == n
  {
    if n == 0 then [] else MameSamples(inflection, s, n - 1) + [Some(MameAfter(inflection, s, n / 2))]
  }

  /** The samples of a phrase from state `s`: every phone to its end, each followed by silence. */
  function MameSound(phones: Phones, inflection: nat, s: Mame, ids: seq<int>, gap: nat): seq<MameSample>
    requires inflection < 4
    decreases ids
  {
    if ids == [] then []
    else
      var start, n := MameStart(phones, s, ids[0]), 2 * PhoneLength(phones[ids[0] % 64]);
      MameSamples(inflection, start, n) + seq(gap, _ => None)
      + MameSound(phones, inflection, MameAfter(inflection, start, n / 2), ids[1..], gap)
  }

  function MamePhraseLength(phones: Phones, ids: seq<int>, gap: nat): nat {
    if ids == [] then 0 else 2 * PhoneLength(phones[ids[0] % 64]) + gap + MamePhraseLength(phones, ids[1..], gap)
  }

  lemma {:induction false} MameSoundLength(phones: Phones, inflection: nat, s: Mame, ids: seq<int>, gap: nat)
    requires inflection < 4
    ensures |MameSound(phones, inflection, s, ids, gap)| == MamePhraseLength(phones, ids, gap)
    decreases ids
  {
    hide MameStart, MameAfter, PhoneLength;
    if ids != [] {
      var start, n := MameStart(phones, s, ids[0]), 2 * PhoneLength(phones[ids[0] % 64]);
      MameSoundLength(phones, inflection, MameAfter(inflection, start, n / 2), ids[1..], gap);
    }
  }

  ghost predicate MameReady(model: MameLikeVotrax)
    reads model
  {
    model.inflection < 4 && ClockBounds(model.params, model.Clock())
  }

  /** One phone of `render_mame_sc01_phrase`: two samples a control step, and again the guard never acts. */
  method RenderMamePhone(model: MameLikeVotrax, phone: int) returns (out: seq<MameSample>)
    requires MameReady(model) && AllFromRom(model.phones)
    modifies model
    ensures MameReady(model) && model.ticks == LAST_TICK
    ensures |out| == 2 * PhoneLength(model.phones[phone % 64]) < 120_000
    ensures out == MameSamples(model.inflection, MameStart(model.phones, old(model.State()), phone), |out|)
    ensures model.State() == MameAfter(model.inflection, MameStart(model.phones, old(model.State()), phone), |out| / 2)
  {
    hide PhoneLength, MameUpdate, MameTiming, HdlTiming, Progress;
    var p := model.phones[phone % 64];
    ghost var t := model.Clock();
    model.StartPhone(phone);
    ghost var start := model.State();
    LongestPhone(p);
    out := [];
    while model.ticks != LAST_TICK && |out| < 3 * MAME_SAMPLE_RATE
      invariant model.inflection < 4 && model.params == p
      invariant model.State() == MameAfter(model.inflection, start, |out| / 2)
      invariant out == MameSamples(model.inflection, start, |out|)
      invariant model.Clock() == Clock(p, StartTiming(p, t), |out| / 2)
      invariant |out| > 0 ==> (|out| - 1) / 2 < PhoneLength(p)
      decreases 3 * MAME_SAMPLE_RATE - |out|
    {
      ClockAfterStart(p, t, |out| / 2);
      ClocksAgree(p, model.Clock());
      if |out| % 2 == 1 {
        UpdatedClock(model.inflection, model.State());
        model.ChipUpdate();
      }
      out := out + [Some(model.State())];
    }
    ClockAfterStart(p, t, |out| / 2);
  }

  lemma UpdatedClock(inflection: nat, s: Mame)
    requires inflection < 4
    ensures MameUpdate(inflection, s).timing == MameTiming(s.params, s.timing)
    ensures MameUpdate(inflection, s).params == s.params
  {
  }

  /** `render_mame_sc01_phrase`: exactly the samples of the phrase, whose number the durations tell. */
  method RenderMamePhrase(phones: Phones, inflection: int, ids: seq<int>, gap: nat) returns (out: seq<MameSample>)
    requires AllFromRom(phones)
    ensures out == MameSound(phones, inflection % 4, MameInit(phones), ids, gap)
    ensures |out| == MamePhraseLength(phones, ids, gap)
  {
    hide PhoneLength, MameAfter, MameSamples, MameStart;
    var model := new MameLikeVotrax(phones, inflection);
    out := [];
    ghost var all := MameSound(phones, inflection % 4, MameInit(phones), ids, gap);
    MameSoundLength(phones, inflection % 4, MameInit(phones), ids, gap);
    for i := 0 to |ids|
      invariant MameReady(model) && model.phones == phones && model.inflection == inflection % 4
      invariant all == out + MameSound(phones, inflection % 4, model.State(), ids[i..], gap)
    {
      assert ids[i..][1..] == ids[i + 1..];
      var rendered := RenderMamePhone(model, ids[i]);
      out := out + rendered + seq(gap, _ => None);
    }
  }
}
