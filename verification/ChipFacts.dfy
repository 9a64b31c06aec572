/** Whole-run facts about the two chip models: simulation, bounds, exact lengths and convergence. */
module ChipFacts {
  import opened Bytes
  import opened Chip

  /** What may happen to a chip: a phone is started, a control step passes, or its owner writes the inflection registers
      of the HDL model. */
  datatype Event =
    | Start(phone: int, durationPhoneme: Option<int>, currentFunction: Option<int>, votrax: Option<bool>)
    | Control
    | Configure(inflection: nat, rateInflection: nat)

  function MameRun(phones: Phones, inflection: nat, s: Mame, events: seq<Event>): Mame
    requires inflection < 4
    decreases events
  {
    if events == [] then s
    else
      var next := match events[0]
        case Start(phone, _, _, _) => MameStart(phones, s, phone)
        case Control => MameUpdate(inflection, s)
        case Configure(_, _) => s;
      MameRun(phones, inflection, next, events[1..])
  }

  function HdlReact(phones: Phones, config: HdlConfig, s: Hdl, event: Event): Hdl {
    match event
    case Start(phone, duration, function', votrax) => HdlStart(phones, config, s, phone, duration, function', votrax)
    case Control => HdlStep(config, s)
    case Configure(_, _) => s
  }

  function Configured(config: HdlConfig, event: Event): HdlConfig {
    match event
    case Configure(inflection, rate) => config.(inflection := inflection, rateInflection := rate)
    case _ => config
  }

  function HdlRun(phones: Phones, config: HdlConfig, s: Hdl, events: seq<Event>): Hdl
    decreases events
  {
    if events == [] then s
    else HdlRun(phones, Configured(config, events[0]), HdlReact(phones, config, s, events[0]), events[1..])
  }

  /** The registers after these events. */
  function ConfigAfter(config: HdlConfig, events: seq<Event>): HdlConfig
    decreases events
  {
    if events == [] then config else ConfigAfter(Configured(config, events[0]), events[1..])
  }

  /** The clock part that both models must share. */
  predicate ClockBounds(p: PhoneParams, t: Timing) {
    t.phonetick < p.TickLimit() && t.ticks <= LAST_TICK && t.updateCounter <= 47
  }

  predicate Agree(m: Mame, h: Hdl) {
    && m.phone == h.phone && m.params == h.params && m.timing == h.timing && m.noise == h.noise
    && ClockBounds(m.params, m.timing) && m.noise.state < 0x8000
  }

  /** Equality against reached-or-passed, restart against carry-over: within the bounds the two clocks are one. */
  lemma ClocksAgree(p: PhoneParams, t: Timing)
    requires ClockBounds(p, t)
    ensures MameTiming(p, t) == HdlTiming(p, t, 1) && ClockBounds(p, MameTiming(p, t))
  {
  }

  lemma NoisesAgree(n: Noise)
    requires n.state < 0x8000
    ensures MameNoise(n) == HdlNoise(n) && MameNoise(n).state < 0x8000
  {
  }

  /** For every phone table, every setting of either model and every interleaving of phone starts, control steps and
      register writes, the two models agree on the phone clock, the update counter, the closure state and the noise. */
  lemma {:induction false} ModelsSimulateEachOther(
      phones: Phones, inflection: nat, config: HdlConfig, m: Mame, h: Hdl, events: seq<Event>)
    requires inflection < 4 && Agree(m, h)
    ensures Agree(MameRun(phones, inflection, m, events), HdlRun(phones, config, h, events))
    decreases events
  {
    if events != [] {
      var config' := Configured(config, events[0]);
      match events[0]
      case Start(phone, duration, function', votrax) =>
        ModelsSimulateEachOther(phones, inflection, config', MameStart(phones, m, phone),
                                HdlStart(phones, config, h, phone, duration, function', votrax), events[1..]);
      case Control =>
        ClocksAgree(m.params, m.timing);
        NoisesAgree(m.noise);
        ModelsSimulateEachOther(
          phones, inflection, config', MameUpdate(inflection, m), HdlStep(config, h), events[1..]);
      case Configure(_, _) =>
        ModelsSimulateEachOther(phones, inflection, config', m, h, events[1..]);
    }
  }

  lemma FreshModelsAgree(phones: Phones, config: HdlConfig)
    ensures Agree(MameInit(phones), HdlInit(phones, config))
  {
  }

  predicate IsByte(v: int) {
    0 <= v < 0x100
  }

  predicate RegsFit(r: Regs) {
    IsByte(r.fa) && IsByte(r.fc) && IsByte(r.va) && IsByte(r.f1) && IsByte(r.f2) && IsByte(r.f2q) && IsByte(r.f3)
  }

  /** Committed codes index the coefficient tables: sixteen entries each, thirty-two for F2. */
  predicate CodesFit(r: Regs) {
    && 0 <= r.fa < 16 && 0 <= r.fc < 16 && 0 <= r.va < 16 && 0 <= r.f1 < 16
    && 0 <= r.f2 < 32 && 0 <= r.f2q < 16 && 0 <= r.f3 < 16
  }

  /** What holds of the HDL model's control state in every run. */
  predicate Bounded(s: Hdl) {
    && s.phone < 64 && ClockBounds(s.params, s.timing)
    && RegsFit(s.cur) && CodesFit(s.filt) && s.closure <= 28
    && s.pitch < 640 && s.noise.state < 0x8000
    && s.targetInflection < 0x1000 && s.activeInflection < 0x1000 && s.durationPhoneme < 0x100 && s.currentFunction < 4
  }

  lemma BoundedCodes(s: Hdl)
    requires Bounded(s)
    ensures CodesFit(s.filt) && s.closure <= 28
  {
  }

  lemma InterpolatedFits(articulation: nat, reg: int, target: int)
    ensures IsByte(HdlInterpolate(articulation, reg, target))
  {
    var d := ArticulationDivisor(articulation);
    assert d in {2, 4, 8, 16, 32};
  }

  lemma Inflection12Fits(config: HdlConfig)
    ensures config.Inflection12() < 0x1000
  {
  }

  lemma PitchLimitFits(config: HdlConfig, s: Hdl)
    requires s.activeInflection < 0x1000
    ensures 1 <= HdlPitchLimit(config, s) <= 640
  {
  }

  /** The ten-bit mask on the pitch counter never removes a bit. */
  lemma PitchMaskIsIdle(pitch: nat, limit: nat)
    requires pitch < 640 && 1 <= limit <= 640
    ensures NextPitch(pitch, limit) == if pitch + 1 >= limit then pitch + 1 - limit else pitch + 1
    ensures NextPitch(pitch, limit) < 640
  {
  }

  lemma InflectionStaysBounded(config: HdlConfig, s: Hdl)
    requires Bounded(s)
    ensures Bounded(HdlInflection(config, s))
  {
    Inflection12Fits(config);
  }

  lemma UpdateStaysBounded(config: HdlConfig, s: Hdl)
    requires Bounded(s)
    ensures Bounded(HdlUpdate(config, s, 1))
  {
    ClocksAgree(s.params, s.timing);
    var a, c, p := config.articulation, s.cur, s.params;
    InterpolatedFits(a, c.fa, p.fa);
    InterpolatedFits(a, c.fc, p.fc);
    InterpolatedFits(a, c.va, p.va);
    InterpolatedFits(a, c.f1, p.f1);
    InterpolatedFits(a, c.f2, p.f2);
    InterpolatedFits(a, c.f2q, p.f2q);
    InterpolatedFits(a, c.f3, p.f3);
  }

  lemma PitchNoiseStaysBounded(config: HdlConfig, s: Hdl)
    requires Bounded(s)
    ensures Bounded(HdlPitchNoise(config, s))
  {
    PitchLimitFits(config, s);
    PitchMaskIsIdle(s.pitch, HdlPitchLimit(config, s));
    NoisesAgree(s.noise);
  }

  lemma StartStaysBounded(
      phones: Phones, config: HdlConfig, s: Hdl, phone: int,
      durationPhoneme: Option<int>, currentFunction: Option<int>, votrax: Option<bool>)
    requires Bounded(s)
    ensures Bounded(HdlStart(phones, config, s, phone, durationPhoneme, currentFunction, votrax))
  {
    Inflection12Fits(config);
  }

  /** Every state the HDL model can reach is bounded, for every phone table, configuration and sequence of events. */
  lemma {:induction false} RunsStayBounded(phones: Phones, config: HdlConfig, s: Hdl, events: seq<Event>)
    requires Bounded(s)
    ensures Bounded(HdlRun(phones, config, s, events))
    decreases events
  {
    if events != [] {
      var config' := Configured(config, events[0]);
      match events[0]
      case Start(phone, duration, function', votrax) =>
        StartStaysBounded(phones, config, s, phone, duration, function', votrax);
        RunsStayBounded(phones, config', HdlStart(phones, config, s, phone, duration, function', votrax), events[1..]);
      case Control =>
        InflectionStaysBounded(config, s);
        UpdateStaysBounded(config, HdlInflection(config, s));
        PitchNoiseStaysBounded(config, HdlUpdate(config, HdlInflection(config, s), 1));
        RunsStayBounded(phones, config', HdlStep(config, s), events[1..]);
      case Configure(_, _) =>
        RunsStayBounded(phones, config', s, events[1..]);
    }
  }

  // ----- interpolation -----

  function Distance(a: int, b: int): nat {
    if a < b then b - a else a - b
  }

  function MameSettled(reg: int, target: int, n: nat): int {
    if n == 0 then reg else MameInterpolate(MameSettled(reg, target, n - 1), target)
  }

  function HdlSettled(articulation: nat, reg: int, target: int, n: nat): int {
    if n == 0 then reg else HdlInterpolate(articulation, HdlSettled(articulation, reg, target, n - 1), target)
  }

  /** One HDL step moves strictly towards sixteen times the target, and stops exactly there. */
  lemma HdlMovesTowards(articulation: nat, reg: int, target: int)
    requires IsByte(reg) && 0 <= target < 16
    ensures var next := HdlInterpolate(articulation, reg, target);
            && (reg < 16 * target ==> reg < next <= 16 * target)
            && (reg > 16 * target ==> 16 * target <= next < reg)
            && (reg == 16 * target ==> next == reg)
  {
    hide HdlInterpolate, Towards, ArticulationDivisor;
    Unmasked(articulation, reg, target);
    DivisorIsPower(articulation);
    TowardsMoves(reg, 16 * target, ArticulationDivisor(articulation));
  }

  lemma Unmasked(articulation: nat, reg: int, target: int)
    requires IsByte(reg) && 0 <= target < 16
    ensures HdlInterpolate(articulation, reg, target) == Towards(reg, 16 * target, ArticulationDivisor(articulation))
  {
    hide Towards, ArticulationDivisor;
  }

  lemma DivisorIsPower(articulation: nat)
    ensures ArticulationDivisor(articulation) in {2, 4, 8, 16, 32}
  {
  }

  lemma TowardsMoves(current: nat, goal: nat, d: nat)
    requires current < 0x100 && goal < 0x100 && d in {2, 4, 8, 16, 32}
    ensures var next := Towards(current, goal, d);
            && (current < goal ==> current < next <= goal)
            && (current > goal ==> goal <= next < current)
            && (current == goal ==> next == current)
  {
    hide Share;
    ShareIsShort(if goal >= current then goal - current else current - goal, d);
  }

  /** A share of a distance, but at least one, is no more than the distance. */
  lemma ShareIsShort(delta: nat, d: nat)
    requires d in {2, 4, 8, 16, 32}
    ensures if delta == 0 then Share(delta, d) == 0 else 1 <= Share(delta, d) <= delta
  {
    if d == 2 {
    } else if d == 4 {
    } else if d == 8 {
    } else if d == 16 {
    } else {
    }
  }

  /** One MAME step moves strictly towards the band [16t, 16t + 7], stops inside it, and its mask removes nothing. */
  lemma MameMovesTowards(reg: int, target: int)
    requires IsByte(reg) && 0 <= target < 16
    ensures var next := MameInterpolate(reg, target);
            && next == reg - reg / 8 + target * 2
            && (reg < 16 * target ==> reg < next <= 16 * target)
            && (reg > 16 * target + 7 ==> 16 * target + 7 <= next < reg)
            && (16 * target <= reg <= 16 * target + 7 ==> next == reg)
  {
  }

  lemma {:induction false} HdlSettles(articulation: nat, reg: int, target: int, n: nat)
    requires IsByte(reg) && 0 <= target < 16
    ensures var r := HdlSettled(articulation, reg, target, n);
            && IsByte(r) && (r <= 16 * target <==> reg <= 16 * target || r == 16 * target)
            && Distance(r, 16 * target) <=
               if n < Distance(reg, 16 * target) then Distance(reg, 16 * target) - n else 0
  {
    hide HdlInterpolate;
    if n > 0 {
      HdlSettles(articulation, reg, target, n - 1);
      HdlMovesTowards(articulation, HdlSettled(articulation, reg, target, n - 1), target);
      InterpolatedFits(articulation, HdlSettled(articulation, reg, target, n - 1), target);
    }
  }

  lemma {:induction false} MameSettles(reg: int, target: int, n: nat)
    requires IsByte(reg) && 0 <= target < 16
    ensures var r := MameSettled(reg, target, n);
            && IsByte(r)
            && (n >= Distance(reg, 16 * target) ==> 16 * target <= r <= 16 * target + 7)
            && (r < 16 * target ==>
                  && reg < 16 * target && n < Distance(reg, 16 * target)
                  && 16 * target - r <= Distance(reg, 16 * target) - n)
            && (r > 16 * target + 7 ==>
                  n < Distance(reg, 16 * target) && r - 16 * target <= Distance(reg, 16 * target) - n)
  {
    hide MameInterpolate;
    if n > 0 {
      MameSettles(reg, target, n - 1);
      MameMovesTowards(MameSettled(reg, target, n - 1), target);
    }
  }

  /** Under a steady target the two interpolators reach different registers but commit the same code, from every
      starting pair and for every articulation, and they stay there. */
  lemma BothInterpolatorsCommitTheTarget(articulation: nat, reg: int, reg': int, target: int, n: nat)
    requires IsByte(reg) && IsByte(reg') && 0 <= target < 16 && n >= 255
    ensures HdlSettled(articulation, reg, target, n) == 16 * target
    ensures 16 * target <= MameSettled(reg', target, n) <= 16 * target + 7
    ensures HdlSettled(articulation, reg, target, n) / 16 == MameSettled(reg', target, n) / 16 == target
    ensures HdlSettled(articulation, reg, target, n) / 8 == MameSettled(reg', target, n) / 8 == 2 * target
  {
    hide HdlSettled, MameSettled;
    HdlSettles(articulation, reg, target, n);
    MameSettles(reg', target, n);
    assert Distance(reg, 16 * target) <= 255 && Distance(reg', 16 * target) <= 255;
  }

  // ----- phone length -----

  /** The HDL phone clock after `n` control steps. */
  function Clock(p: PhoneParams, t: Timing, n: nat): Timing {
    if n == 0 then t else HdlTiming(p, Clock(p, t, n - 1), 1)
  }

  function PhoneLength(p: PhoneParams): nat {
    16 * p.TickLimit()
  }

  /** Control steps spent on the current phone, at `TickLimit` steps a tick. */
  function Progress(p: PhoneParams, t: Timing): nat {
    t.ticks * p.TickLimit() + t.phonetick
  }

  lemma ProgressStep(p: PhoneParams, t: Timing)
    requires ClockBounds(p, t) && t.ticks < LAST_TICK
    ensures var next := HdlTiming(p, t, 1);
            Progress(p, next) == Progress(p, t) + 1 && (next.ticks == LAST_TICK ==> next.phonetick == 0)
  {
    assert (t.ticks + 1) * p.TickLimit() == t.ticks * p.TickLimit() + p.TickLimit();
  }

  lemma ProgressTellsTheTick(p: PhoneParams, t: Timing)
    requires ClockBounds(p, t)
    ensures t.ticks == LAST_TICK <==> Progress(p, t) >= PhoneLength(p)
    ensures t.ticks == LAST_TICK && t.phonetick == 0 ==> Progress(p, t) == PhoneLength(p)
  {
    if t.ticks < LAST_TICK {
      ProductGrows(t.ticks, 16, p.TickLimit());
    }
  }

  lemma {:induction false} ProductGrows(a: nat, b: nat, d: nat)
    requires a < b
    ensures a * d + d <= b * d
  {
    var c := b - 1;
    assert (c + 1) * d == c * d + d;
    if a < c {
      ProductGrows(a, c, d);
    }
  }

  /** From its start a phone advances one tick every `4 * duration + 1` control steps, and rests at tick sixteen
      after exactly sixteen ticks' worth of steps. */
  lemma {:induction false} ClockAfterStart(p: PhoneParams, t: Timing, n: nat)
    requires t.updateCounter <= 47
    ensures var now := Clock(p, StartTiming(p, t), n);
            && ClockBounds(p, now)
            && (now.ticks == LAST_TICK <==> n >= PhoneLength(p))
            && Progress(p, now) == (if n < PhoneLength(p) then n else PhoneLength(p))
            && (now.ticks == LAST_TICK ==> now.phonetick == 0)
  {
    hide Progress, PhoneLength;
    if n > 0 {
      ClockAfterStart(p, t, n - 1);
      var before := Clock(p, StartTiming(p, t), n - 1);
      ClocksAgree(p, before);
      if before.ticks < LAST_TICK {
        ProgressStep(p, before);
      }
      ProgressTellsTheTick(p, Clock(p, StartTiming(p, t), n));
    } else {
      StartHasNoProgress(p, t);
      ProgressTellsTheTick(p, StartTiming(p, t));
    }
  }

  lemma StartHasNoProgress(p: PhoneParams, t: Timing)
    ensures Progress(p, StartTiming(p, t)) == 0 < PhoneLength(p)
  {
  }

  /** A phone takes over its closure exactly when it reaches its closure delay; the update counter runs on modulo 48. */
  lemma {:induction false} ClosureAfterStart(p: PhoneParams, t: Timing, n: nat)
    requires t.updateCounter <= 47 && p.cld <= LAST_TICK
    ensures var now := Clock(p, StartTiming(p, t), n);
            && ClockBounds(p, now)
            && now.curClosure == (if now.ticks >= p.cld then p.closure else t.curClosure)
            && now.updateCounter == (t.updateCounter + n) % 48
  {
    hide HdlTiming;
    if n > 0 {
      var before := Clock(p, StartTiming(p, t), n - 1);
      ClosureAfterStart(p, t, n - 1);
      ClosureStep(p, before);
      CounterStep(p, before);
      RoundStep(t.updateCounter + n - 1);
    }
  }

  lemma ClosureStep(p: PhoneParams, t: Timing)
    requires ClockBounds(p, t)
    ensures var now := HdlTiming(p, t, 1);
            && ClockBounds(p, now) && t.ticks <= now.ticks <= t.ticks + 1
            && now.curClosure == if now.ticks == t.ticks + 1 && now.ticks == p.cld then p.closure else t.curClosure
  {
    ClocksAgree(p, t);
  }

  /** The update counter runs on modulo 48. */
  lemma CounterStep(p: PhoneParams, t: Timing)
    requires t.updateCounter <= 47
    ensures HdlTiming(p, t, 1).updateCounter == (t.updateCounter + 1) % 48
  {
  }

  lemma RoundStep(v: nat)
    ensures (v + 1) % 48 == (v % 48 + 1) % 48
  {
  }

  // ----- pitch -----

  function PitchAfter(pitch: nat, limit: nat, n: nat): nat {
    if n == 0 then pitch else NextPitch(PitchAfter(pitch, limit, n - 1), limit)
  }

  /** Under a steady limit of at least two, any ten-bit pitch falls below the limit in at most `pitch` steps. */
  lemma {:induction false} PitchFallsIntoRange(pitch: nat, limit: nat, n: nat)
    requires pitch < 0x400 && 2 <= limit && n >= pitch
    ensures PitchAfter(pitch, limit, n) < limit
  {
    PitchFalls(pitch, limit, n);
  }

  lemma {:induction false} PitchFalls(pitch: nat, limit: nat, n: nat)
    requires pitch < 0x400 && 2 <= limit
    ensures PitchAfter(pitch, limit, n) < 0x400
    ensures PitchAfter(pitch, limit, n) < limit || PitchAfter(pitch, limit, n) + n <= pitch
  {
    if n > 0 {
      PitchFalls(pitch, limit, n - 1);
    }
  }

  /** Inside the range it counts up to the limit and restarts from zero. */
  lemma {:induction false} PitchClimbs(pitch: nat, limit: nat, n: nat)
    requires pitch < limit <= 640 && n <= limit - pitch
    ensures PitchAfter(pitch, limit, n) == if pitch + n < limit then pitch + n else 0
  {
    if n > 0 {
      PitchClimbs(pitch, limit, n - 1);
    }
  }

  /** Inside the range it is an exact counter modulo the limit. */
  lemma {:induction false} PitchCounts(pitch: nat, limit: nat, n: nat)
    requires pitch < limit <= 640
    ensures PitchAfter(pitch, limit, n) == (pitch + n) % limit
  {
    hide NextPitch;
    if n == 0 {
      ModIsUnique(pitch, 0, pitch, limit);
    } else {
      PitchCounts(pitch, limit, n - 1);
      ModStep(pitch + n - 1, limit);
      PitchStep((pitch + n - 1) % limit, limit);
    }
  }

  lemma PitchStep(pitch: nat, limit: nat)
    requires pitch < limit <= 640
    ensures NextPitch(pitch, limit) == if pitch + 1 == limit then 0 else pitch + 1
  {
  }

  lemma ModStep(v: nat, limit: nat)
    requires limit > 0
    ensures (v + 1) % limit == if v % limit + 1 == limit then 0 else v % limit + 1
  {
    var q, r := v / limit, v % limit;
    if r + 1 == limit {
      assert v + 1 == (q + 1) * limit + 0;
      ModIsUnique(v + 1, q + 1, 0, limit);
    } else {
      ModIsUnique(v + 1, q, r + 1, limit);
    }
  }

  lemma ModIsUnique(v: nat, q: nat, r: nat, limit: nat)
    requires r < limit && v == q * limit + r
    ensures v % limit == r
  {
    QuotientIsUnique(v / limit, v % limit, q, r, limit);
  }

  lemma QuotientIsUnique(k: nat, s: nat, q: nat, r: nat, d: nat)
    requires s < d && r < d && k * d + s == q * d + r
    ensures k == q && s == r
  {
    if k < q {
      ProductGrows(k, q, d);
    } else if q < k {
      ProductGrows(q, k, d);
    }
  }

  /** A limit of one freezes the counter instead: it reaches the range exactly when it starts at zero. */
  lemma {:induction false} PitchFreezesAtLimitOne(pitch: nat, n: nat)
    requires pitch < 0x400
    ensures PitchAfter(pitch, 1, n) == pitch
  {
    if n > 0 {
      PitchFreezesAtLimitOne(pitch, n - 1);
    }
  }

  /** A steady period is eventually counted through exactly when the limit is at least two or the pitch is zero. */
  lemma PitchReachesRangeIff(pitch: nat, limit: nat)
    requires pitch < 0x400 && limit >= 1
    ensures (exists n: nat :: PitchAfter(pitch, limit, n) < limit) <==> limit >= 2 || pitch == 0
  {
    if limit >= 2 {
      PitchFallsIntoRange(pitch, limit, pitch);
    } else if pitch == 0 {
      assert PitchAfter(0, limit, 0) < limit;
    } else {
      forall n: nat
        ensures PitchAfter(pitch, limit, n) >= limit
      {
        PitchFreezesAtLimitOne(pitch, n);
      }
    }
  }

  /** In the SSI-263 mode the limit is one exactly for the twelve highest inflections. */
  lemma LimitOneIff(config: HdlConfig, s: Hdl)
    requires Bounded(s)
    ensures HdlPitchLimit(config, s) == 1 <==> !s.isVotrax && s.activeInflection >= 0xFF4
  {
  }

  /** Filter commits during the next `n` steps. */
  function Commits(pitch: nat, limit: nat, n: nat): nat {
    if n == 0 then 0
    else Commits(pitch, limit, n - 1) + if CommitsAt(PitchAfter(pitch, limit, n)) then 1 else 0
  }

  lemma {:induction false} PitchAfterAdd(pitch: nat, limit: nat, m: nat, n: nat)
    ensures PitchAfter(pitch, limit, m + n) == PitchAfter(PitchAfter(pitch, limit, m), limit, n)
  {
    if n > 0 {
      PitchAfterAdd(pitch, limit, m, n - 1);
      assert m + n - 1 == m + (n - 1);
    }
  }

  lemma {:induction false} CommitsAdd(pitch: nat, limit: nat, m: nat, n: nat)
    ensures Commits(pitch, limit, m + n) == Commits(pitch, limit, m) + Commits(PitchAfter(pitch, limit, m), limit, n)
  {
    if n > 0 {
      CommitsAdd(pitch, limit, m, n - 1);
      PitchAfterAdd(pitch, limit, m, n);
      assert m + n - 1 == m + (n - 1);
    }
  }

  /** How many of the four committing counts lie at or below `top`. */
  function CommitCountsUpTo(top: int): nat {
    (if top >= 8 then 1 else 0) + (if top >= 10 then 1 else 0) + (if top >= 12 then 1 else 0)
        + (if top >= 14 then 1 else 0)
  }

  lemma {:induction false} CommitsFromZero(limit: nat, n: nat)
    requires 1 <= limit <= 640 && n <= limit
    ensures Commits(0, limit, n) == CommitCountsUpTo(if n < limit then n else limit - 1)
  {
    hide PitchAfter;
    if n > 0 {
      CommitsFromZero(limit, n - 1);
      PitchClimbs(0, limit, n);
    }
  }

  lemma NoCommits(pitch: nat, limit: nat)
    ensures Commits(pitch, limit, 0) == 0 && PitchAfter(pitch, limit, 0) == pitch
  {
  }

  /** Over any full period the filters are committed once for each of the counts 8, 10, 12 and 14 below the limit:
      exactly four times when the limit is at least fifteen. */
  lemma CommitsPerPeriod(pitch: nat, limit: nat)
    requires pitch < limit <= 640
    ensures Commits(pitch, limit, limit) == CommitCountsUpTo(limit - 1)
    ensures Commits(pitch, limit, limit) == 4 <==> limit >= 15
  {
    hide Commits, PitchAfter;
    PitchClimbs(pitch, limit, limit - pitch);
    CommitsAdd(pitch, limit, limit - pitch, pitch);
    PitchClimbs(0, limit, pitch);
    CommitsAdd(0, limit, pitch, limit - pitch);
    CommitsFromZero(limit, limit);
    if pitch == 0 {
      NoCommits(0, limit);
    }
  }
}
