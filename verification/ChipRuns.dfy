/** What happens over runs of the chip models while nothing but control steps passes: registers settle and are
    committed, a transitioned inflection ramps to its target, and the pitch counter may freeze. */
module ChipRuns {
  import opened Bytes
  import opened Chip
  import opened ChipFacts

  function Steps(config: HdlConfig, s: Hdl, n: nat): Hdl {
    if n == 0 then s else HdlStep(config, Steps(config, s, n - 1))
  }

  function Controls(n: nat): seq<Event> {
    seq(n, _ => Control)
  }

  lemma {:induction false} OneStepEarlier(config: HdlConfig, s: Hdl, n: nat)
    ensures Steps(config, HdlStep(config, s), n) == Steps(config, s, n + 1)
  {
    hide HdlStep;
    if n > 0 {
      OneStepEarlier(config, s, n - 1);
    }
  }

  /** A run of control steps alone. */
  lemma {:induction false} RunOfControls(phones: Phones, config: HdlConfig, s: Hdl, n: nat)
    ensures HdlRun(phones, config, s, Controls(n)) == Steps(config, s, n)
    decreases n
  {
    hide HdlStep;
    if n > 0 {
      assert Controls(n)[1..] == Controls(n - 1);
      RunOfControls(phones, config, HdlStep(config, s), n - 1);
      OneStepEarlier(config, s, n - 1);
    }
  }

  lemma {:induction false} RunThenRun(phones: Phones, config: HdlConfig, s: Hdl, a: seq<Event>, b: seq<Event>)
    ensures HdlRun(phones, config, s, a + b) == HdlRun(phones, ConfigAfter(config, a), HdlRun(phones, config, s, a), b)
    decreases a
  {
    hide HdlReact, Configured;
    if a == [] {
      assert a + b == b;
    } else {
      assert (a + b)[0] == a[0] && (a + b)[1..] == a[1..] + b;
      RunThenRun(phones, Configured(config, a[0]), HdlReact(phones, config, s, a[0]), a[1..], b);
    }
  }

  // ----- the noise register -----

  /** The register never fills with ones, because its feedback follows from its two top bits. */
  predicate NoiseSound(n: Noise) {
    n.state < 0x7FFF && (n.state != 0 ==> n.out == (n.state / 0x4000 % 2 == n.state / 0x2000 % 2))
  }

  /** So the guard against that state never acts. */
  lemma NoiseStaysSound(n: Noise)
    requires NoiseSound(n)
    ensures NoiseSound(HdlNoise(n))
    ensures HdlNoise(n).state == n.state * 2 % 0x8000 + if n.out then 1 else 0
  {
  }

  /** In every run from reset, for either model, the guard is idle. */
  lemma {:induction false} NoiseGuardIsIdle(phones: Phones, config: HdlConfig, s: Hdl, events: seq<Event>)
    requires NoiseSound(s.noise)
    ensures NoiseSound(HdlRun(phones, config, s, events).noise)
    decreases events
  {
    hide NoiseSound, HdlNoise;
    if events != [] {
      var config' := Configured(config, events[0]);
      match events[0]
      case Start(phone, duration, function', votrax) =>
        NoiseGuardIsIdle(phones, config', HdlStart(phones, config, s, phone, duration, function', votrax), events[1..]);
      case Control =>
        NoiseStaysSound(s.noise);
        NoiseGuardIsIdle(phones, config', HdlStep(config, s), events[1..]);
      case Configure(_, _) =>
        NoiseGuardIsIdle(phones, config', s, events[1..]);
    }
  }

  lemma ResetNoiseIsSound(phones: Phones, config: HdlConfig)
    ensures NoiseSound(HdlInit(phones, config).noise)
  {
  }

  // ----- the frozen pitch counter -----

  /** A chip at the highest inflection, sounding as an SSI-263 and not in transition. */
  predicate AtTheTop(config: HdlConfig, s: Hdl) {
    !s.isVotrax && s.currentFunction != 3 && config.Inflection12() == 0xFFF && s.activeInflection == 0xFFF
  }

  lemma TopFreezes(config: HdlConfig, s: Hdl)
    requires AtTheTop(config, s) && s.pitch < 0x400
    ensures HdlPitchLimit(config, s) == 1
    ensures AtTheTop(config, HdlStep(config, s)) && HdlStep(config, s).pitch == s.pitch
  {
  }

  lemma {:induction false} PitchStaysFrozen(config: HdlConfig, s: Hdl, n: nat)
    requires AtTheTop(config, s) && s.pitch < 0x400
    ensures AtTheTop(config, Steps(config, s, n)) && Steps(config, s, n).pitch == s.pitch
  {
    hide AtTheTop, HdlStep;
    if n > 0 {
      PitchStaysFrozen(config, s, n - 1);
      TopFreezes(config, Steps(config, s, n - 1));
    }
  }

  const TOP_CONFIG := HdlConfig(0xFF, 0x0F, 5, 15, 6, true)

  /** Such a chip is reached: an SC-01 phone, one control step, then an SSI-263 phone, all at the highest inflection.
      Its pitch stands at one, the limit is one, and no number of control steps moves it again. */
  lemma FrozenPitchIsReached(phones: Phones, n: nat)
    ensures var events := [Start(0, None, None, None), Control, Start(0, None, None, Some(false))];
            var s := HdlRun(phones, TOP_CONFIG, HdlInit(phones, TOP_CONFIG), events);
            && s.pitch == 1 && HdlPitchLimit(TOP_CONFIG, s) == 1 && !s.isVotrax
            && HdlRun(phones, TOP_CONFIG, HdlInit(phones, TOP_CONFIG), events + Controls(n)).pitch == 1
  {
    hide HdlStep, HdlStart, HdlInit, AtTheTop, HdlPitchLimit;
    var events := [Start(0, None, None, None), Control, Start(0, None, None, Some(false))];
    var s0 := HdlInit(phones, TOP_CONFIG);
    var s1, s2, s3 := ClimbToTheTop(phones);
    ThreeEvents(phones, events, s0, s1, s2, s3);
    TopFreezes(TOP_CONFIG, s3);
    PitchStaysFrozen(TOP_CONFIG, s3, n);
    RunOfControls(phones, TOP_CONFIG, s3, n);
    RunThenRun(phones, TOP_CONFIG, s0, events, Controls(n));
  }

  lemma ClimbToTheTop(phones: Phones) returns (s1: Hdl, s2: Hdl, s3: Hdl)
    ensures s1 == HdlStart(phones, TOP_CONFIG, HdlInit(phones, TOP_CONFIG), 0, None, None, None)
    ensures s2 == HdlStep(TOP_CONFIG, s1) && s3 == HdlStart(phones, TOP_CONFIG, s2, 0, None, None, Some(false))
    ensures s3.pitch == 1 && AtTheTop(TOP_CONFIG, s3) && !s3.isVotrax
  {
    hide HdlStep, HdlStart, HdlInit, AtTheTop;
    s1 := HdlStart(phones, TOP_CONFIG, HdlInit(phones, TOP_CONFIG), 0, None, None, None);
    s2 := HdlStep(TOP_CONFIG, s1);
    s3 := HdlStart(phones, TOP_CONFIG, s2, 0, None, None, Some(false));
    FirstPhone(phones);
    FirstPitchStep(phones, s1);
    StartsAtTheTop(phones, s2);
  }

  lemma FirstPhone(phones: Phones)
    ensures var s := HdlStart(phones, TOP_CONFIG, HdlInit(phones, TOP_CONFIG), 0, None, None, None);
            s.pitch == 0 && s.isVotrax && s.filt == ZERO_REGS
  {
    hide StartInflection, StartTiming, HdlConfig.Inflection12;
  }

  lemma StartsAtTheTop(phones: Phones, s: Hdl)
    ensures var r := HdlStart(phones, TOP_CONFIG, s, 0, None, None, Some(false));
            AtTheTop(TOP_CONFIG, r) && r.pitch == s.pitch && !r.isVotrax
  {
    TopInflection();
    hide HdlConfig.Inflection12, WithPitchTarget, PitchTarget, StartTiming;
  }

  lemma TopInflection()
    ensures TOP_CONFIG.Inflection12() == 0xFFF
  {
  }

  lemma FirstPitchStep(phones: Phones, s: Hdl)
    requires s.pitch == 0 && s.isVotrax && s.filt == ZERO_REGS
    ensures HdlStep(TOP_CONFIG, s).pitch == 1
  {
    TopInflection();
    hide Interpolated, HdlTiming, NextClosure, HdlNoise, Approach, WithPitchTarget, PitchTarget, HdlConfig.Inflection12;
  }

  lemma ThreeEvents(phones: Phones, events: seq<Event>, s0: Hdl, s1: Hdl, s2: Hdl, s3: Hdl)
    requires events == [Start(0, None, None, None), Control, Start(0, None, None, Some(false))]
    requires s1 == HdlStart(phones, TOP_CONFIG, s0, 0, None, None, None) && s2 == HdlStep(TOP_CONFIG, s1)
    requires s3 == HdlStart(phones, TOP_CONFIG, s2, 0, None, None, Some(false))
    ensures HdlRun(phones, TOP_CONFIG, s0, events) == s3 && ConfigAfter(TOP_CONFIG, events) == TOP_CONFIG
  {
    hide HdlStep, HdlStart;
    assert events[1..] == [Control, events[2]] && events[1..][1..] == [events[2]] && events[1..][1..][1..] == [];
    assert HdlRun(phones, TOP_CONFIG, s3, []) == s3 && ConfigAfter(TOP_CONFIG, []) == TOP_CONFIG;
    assert HdlRun(phones, TOP_CONFIG, s2, [events[2]]) == s3 && ConfigAfter(TOP_CONFIG, [events[2]]) == TOP_CONFIG;
    assert HdlRun(phones, TOP_CONFIG, s1, events[1..]) == s3 && ConfigAfter(TOP_CONFIG, events[1..]) == TOP_CONFIG;
  }

  // ----- the transitioned inflection -----

  /** Control steps a ramp over this distance takes: the distance divided by the slope step, rounded up. */
  function RampLength(distance: nat, step: nat): nat
    requires step > 0
  {
    (distance + step - 1) / step
  }

  function SlopeOf(config: HdlConfig): (step: nat)
    ensures step in {1, 2, 3, 4, 6, 8, 12, 16}
  {
    SlopeStep(config.Inflection12() / 8 % 8)
  }

  /** What is left of a distance after `n` steps. */
  function Remaining(distance: nat, step: nat, n: nat): nat {
    if n == 0 then distance
    else
      var left := Remaining(distance, step, n - 1);
      if left <= step then 0 else left - step
  }

  lemma {:induction false} RemainingIs(distance: nat, step: nat, n: nat)
    ensures Remaining(distance, step, n) == if n * step >= distance then 0 else distance - n * step
  {
    if n > 0 {
      RemainingIs(distance, step, n - 1);
      assert n * step == (n - 1) * step + step;
    }
  }

  lemma RampEnds(distance: nat, step: nat, n: nat)
    requires step in {1, 2, 3, 4, 6, 8, 12, 16}
    ensures Remaining(distance, step, n) == 0 <==> n >= RampLength(distance, step)
  {
    RemainingIs(distance, step, n);
    hide Remaining;
    if step == 1 {
    } else if step == 2 {
    } else if step == 3 {
    } else if step == 4 {
    } else if step == 6 {
    } else if step == 8 {
    } else if step == 12 {
    } else {
    }
  }

  /** One control step of a transitioned chip: its pitch target closes in by a slope step, and all other bits of the
      inflection are the requested ones. */
  lemma TransitionedStep(config: HdlConfig, s: Hdl)
    requires s.Transitioned()
    ensures var r, t := HdlStep(config, s), config.Inflection12();
            var moved := Approach(PitchTarget(s.activeInflection), PitchTarget(t), SlopeOf(config));
            && r.Transitioned() && t < 0x1000 && moved < 32
            && r.activeInflection == WithPitchTarget(t, moved) && PitchTarget(r.activeInflection) == moved
            && (PitchTarget(r.activeInflection) == PitchTarget(t) <==> r.activeInflection == t)
  {
    InflectionPasses(config, s);
    InflectionMoves(config, s);
    hide HdlStep, HdlInflection, PitchTarget, WithPitchTarget, Approach, SlopeOf, HdlConfig.Inflection12;
    Inflection12Fits(config);
    var t := config.Inflection12();
    TargetBits(t, Approach(PitchTarget(s.activeInflection), PitchTarget(t), SlopeOf(config)));
  }

  lemma InflectionMoves(config: HdlConfig, s: Hdl)
    requires s.Transitioned()
    ensures var t := config.Inflection12();
            var moved := Approach(PitchTarget(s.activeInflection), PitchTarget(t), SlopeOf(config));
            moved < 32 && HdlInflection(config, s).activeInflection == WithPitchTarget(t, moved)
  {
    hide PitchTarget, WithPitchTarget;
    Inflection12Fits(config);
    var moved := Approach(PitchTarget(s.activeInflection), PitchTarget(config.Inflection12()), SlopeOf(config));
    TargetBits(config.Inflection12(), moved);
  }

  lemma InflectionPasses(config: HdlConfig, s: Hdl)
    ensures var r, h := HdlStep(config, s), HdlInflection(config, s);
            && r.activeInflection == h.activeInflection
            && r.isVotrax == s.isVotrax && r.currentFunction == s.currentFunction
  {
  }

  lemma TargetBits(t: nat, moved: nat)
    requires t < 0x1000 && moved < 32
    ensures WithPitchTarget(t, moved) < 0x1000 && PitchTarget(WithPitchTarget(t, moved)) == moved
    ensures moved == PitchTarget(t) <==> WithPitchTarget(t, moved) == t
  {
    var high, low := t / 0x800, t % 64;
    var w := WithPitchTarget(t, moved);
    assert t == high * 0x800 + PitchTarget(t) * 64 + low by {
      assert t / 64 == high * 32 + PitchTarget(t);
    }
    assert w / 64 == high * 32 + moved;
  }

  /** How far the sounding pitch target is from the requested one. */
  function ToTarget(config: HdlConfig, s: Hdl): nat {
    Distance(PitchTarget(s.activeInflection), PitchTarget(config.Inflection12()))
  }

  lemma {:induction false} RampAfter(config: HdlConfig, s: Hdl, n: nat)
    requires s.Transitioned()
    ensures Steps(config, s, n).Transitioned()
    ensures ToTarget(config, Steps(config, s, n)) == Remaining(ToTarget(config, s), SlopeOf(config), n)
  {
    hide HdlStep, SlopeOf, WithPitchTarget, PitchTarget, HdlConfig.Inflection12;
    if n > 0 {
      RampAfter(config, s, n - 1);
      TransitionedStep(config, Steps(config, s, n - 1));
    }
  }

  /** The ramp reaches its target after exactly the distance divided by the slope step, rounded up, and stays there. */
  lemma RampReachesIff(config: HdlConfig, s: Hdl, n: nat)
    requires s.Transitioned() && n >= 1
    ensures Steps(config, s, n).activeInflection == config.Inflection12()
            <==> n >= RampLength(ToTarget(config, s), SlopeOf(config))
  {
    hide HdlStep, SlopeOf, WithPitchTarget, PitchTarget, HdlConfig.Inflection12, RampLength, Remaining, Approach;
    RampAfter(config, s, n);
    RampAfter(config, s, n - 1);
    TransitionedStep(config, Steps(config, s, n - 1));
    RampEnds(ToTarget(config, s), SlopeOf(config), n);
  }

  /** On a live chip: the registers are written, a phone is started in transition, and the old pitch target ramps to the
      written one. */
  lemma WrittenInflectionRamps(
      phones: Phones, config: HdlConfig, s: Hdl, inflection: nat, rate: nat, phone: int, n: nat)
    requires n >= 1
    ensures var written := config.(inflection := inflection, rateInflection := rate);
            var events := [Configure(inflection, rate), Start(phone, None, Some(3), Some(false))];
            HdlRun(phones, config, s, events + Controls(n)).activeInflection == written.Inflection12()
            <==> n >= RampLength(ToTarget(written, s), SlopeOf(written))
  {
    var written := config.(inflection := inflection, rateInflection := rate);
    var events := [Configure(inflection, rate), Start(phone, None, Some(3), Some(false))];
    hide HdlStart, HdlStep, SlopeOf, PitchTarget, WithPitchTarget, RampLength, HdlConfig.Inflection12;
    var start := HdlStart(phones, written, s, phone, None, Some(3), Some(false));
    StartInTransition(phones, written, s, phone);
    WriteThenStart(phones, config, s, inflection, rate, events[1]);
    RunThenRun(phones, config, s, events, Controls(n));
    RunOfControls(phones, written, start, n);
    RampReachesIff(written, start, n);
  }

  lemma StartInTransition(phones: Phones, config: HdlConfig, s: Hdl, phone: int)
    ensures var start := HdlStart(phones, config, s, phone, None, Some(3), Some(false));
            start.Transitioned() && PitchTarget(start.activeInflection) == PitchTarget(s.activeInflection)
  {
    hide PitchTarget, WithPitchTarget, HdlConfig.Inflection12;
    Inflection12Fits(config);
    TargetBits(config.Inflection12(), PitchTarget(s.activeInflection));
  }

  lemma WriteThenStart(phones: Phones, config: HdlConfig, s: Hdl, inflection: nat, rate: nat, start: Event)
    requires start.Start?
    ensures var written := config.(inflection := inflection, rateInflection := rate);
            && HdlRun(phones, config, s, [Configure(inflection, rate), start]) == HdlReact(phones, written, s, start)
            && ConfigAfter(config, [Configure(inflection, rate), start]) == written
  {
    hide HdlReact;
    var events := [Configure(inflection, rate), start];
    var written := config.(inflection := inflection, rateInflection := rate);
    assert events[1..] == [start] && events[1..][1..] == [];
    ConfigureKeepsTheChip(phones, config, s, inflection, rate);
    assert HdlRun(phones, written, s, [start]) == HdlReact(phones, written, s, start);
    assert ConfigAfter(written, [start]) == written;
  }

  lemma ConfigureKeepsTheChip(phones: Phones, config: HdlConfig, s: Hdl, inflection: nat, rate: nat)
    ensures HdlReact(phones, config, s, Configure(inflection, rate)) == s
  {
  }

  // ----- registers under a steady phone -----

  /** How often in the next `n` control steps the slow registers are due, when the update counter stands at `u`. */
  function SlowUpdates(u: nat, n: nat): nat {
    if n == 0 then 0 else SlowUpdates(u, n - 1) + if Due(u + n) then 1 else 0
  }

  /** The slow registers are due when the counter comes to 40. */
  predicate Due(count: nat) {
    Tick208(count % 48)
  }

  lemma RoundsDoNotMatter(u: nat, m: nat, n: nat)
    ensures (u + (m + n)) % 48 == ((u + m) % 48 + n) % 48
    ensures Due(u + (m + n)) == Due((u + m) % 48 + n)
    ensures (u + 48 * m) % 48 == u % 48
  {
    var q, r := (u + m) / 48, (u + m) % 48;
    assert u + (m + n) == 48 * q + (r + n);
    Wholes(q, r + n);
    Wholes(m, u);
  }

  lemma Wholes(q: nat, v: nat)
    ensures (48 * q + v) % 48 == v % 48
  {
  }

  /** They are due once in any 48 steps. */
  lemma SlowUpdatesInRound(u: nat)
    requires u < 48
    ensures SlowUpdates(u, 48) == 1
  {
    SlowUpdatesUpTo(u, 48);
  }

  lemma {:induction false} SlowUpdatesUpTo(u: nat, n: nat)
    requires u < 48 && n <= 48
    ensures SlowUpdates(u, n) == if u < 40 <= u + n || 88 <= u + n then 1 else 0
  {
    if n > 0 {
      SlowUpdatesUpTo(u, n - 1);
    }
  }

  lemma {:induction false} SlowUpdatesAdd(u: nat, m: nat, n: nat)
    ensures SlowUpdates(u, m + n) == SlowUpdates(u, m) + SlowUpdates((u + m) % 48, n)
  {
    hide Due;
    if n > 0 {
      SlowUpdatesAdd(u, m, n - 1);
      RoundsDoNotMatter(u, m, n);
      assert m + n - 1 == m + (n - 1);
    }
  }

  lemma {:induction false} SlowUpdatesInRounds(u: nat, rounds: nat)
    requires u < 48
    ensures SlowUpdates(u, 48 * rounds) == rounds
  {
    hide Due, SlowUpdates;
    if rounds == 0 {
      NoSlowUpdates(u);
    } else {
      SlowUpdatesInRounds(u, rounds - 1);
      SlowUpdatesAdd(u, 48 * (rounds - 1), 48);
      RoundsDoNotMatter(u, rounds - 1, 0);
      SlowUpdatesInRound(u);
      assert 48 * (rounds - 1) + 48 == 48 * rounds;
    }
  }

  lemma NoSlowUpdates(u: nat)
    ensures SlowUpdates(u, 0) == 0
  {
  }

  /** The five slow registers, each moved `n` times towards its target. */
  ghost predicate HdlSlowAfter(articulation: nat, p: PhoneParams, before: Regs, now: Regs, n: nat) {
    && now.fc == HdlSettled(articulation, before.fc, p.fc, n) && now.f1 == HdlSettled(articulation, before.f1, p.f1, n)
    && now.f2 == HdlSettled(articulation, before.f2, p.f2, n)
    && now.f2q == HdlSettled(articulation, before.f2q, p.f2q, n)
    && now.f3 == HdlSettled(articulation, before.f3, p.f3, n)
  }

  ghost predicate MameSlowAfter(p: PhoneParams, before: Regs, now: Regs, n: nat) {
    && now.fc == MameSettled(before.fc, p.fc, n) && now.f1 == MameSettled(before.f1, p.f1, n)
    && now.f2 == MameSettled(before.f2, p.f2, n) && now.f2q == MameSettled(before.f2q, p.f2q, n)
    && now.f3 == MameSettled(before.f3, p.f3, n)
  }

  /** The codes of the five slow registers are the phone's own. */
  predicate SlowCommitted(p: PhoneParams, filt: Regs) {
    filt.fc == p.fc && filt.f1 == p.f1 && filt.f2 == 2 * p.f2 && filt.f2q == p.f2q && filt.f3 == p.f3
  }

  lemma StepMovesRegisters(config: HdlConfig, s: Hdl)
    ensures var r := HdlStep(config, s);
            && r.params == s.params && r.timing == HdlTiming(s.params, s.timing, 1)
            && r.cur == Interpolated(Interpolator(config.articulation), s.params, r.timing, s.cur, s.filt)
            && r.filt == if CommitsAt(r.pitch) then Committed(r.cur) else s.filt
  {
  }

  lemma OneSlowStep(articulation: nat, p: PhoneParams, t: Timing, before: Regs, cur: Regs, filt: Regs, n: nat)
    requires !p.pause && HdlSlowAfter(articulation, p, before, cur, n)
    ensures HdlSlowAfter(articulation, p, before, Interpolated(Interpolator(articulation), p, t, cur, filt),
                         if Tick208(t.updateCounter) then n + 1 else n)
  {
    hide HdlInterpolate;
  }

  /** Over a run: after `n` control steps of a phone that is no pause, each slow register has moved once for each time
      it was due. */
  lemma {:induction false} SlowRegistersAfter(config: HdlConfig, s: Hdl, n: nat)
    requires !s.params.pause && s.timing.updateCounter <= 47
    ensures var r, u := Steps(config, s, n), s.timing.updateCounter;
            && r.params == s.params && r.timing.updateCounter == (u + n) % 48
            && HdlSlowAfter(config.articulation, s.params, s.cur, r.cur, SlowUpdates(u, n))
  {
    hide HdlStep, HdlSlowAfter, Interpolated, HdlTiming, Tick208;
    if n == 0 {
      NotYetMoved(config.articulation, s.params, s.cur);
    } else {
      var before := Steps(config, s, n - 1);
      SlowRegistersAfter(config, s, n - 1);
      StepMovesRegisters(config, before);
      CounterStep(s.params, before.timing);
      RoundsDoNotMatter(s.timing.updateCounter, n - 1, 1);
      OneSlowStep(config.articulation, s.params, Steps(config, s, n).timing, s.cur, before.cur, before.filt,
                  SlowUpdates(s.timing.updateCounter, n - 1));
    }
  }

  lemma NotYetMoved(articulation: nat, p: PhoneParams, cur: Regs)
    ensures HdlSlowAfter(articulation, p, cur, cur, 0) && MameSlowAfter(p, cur, cur, 0)
  {
  }

  lemma SettledRegistersCommit(articulation: nat, p: PhoneParams, before: Regs, now: Regs, n: nat)
    requires p.FromRom() && RegsFit(before) && n >= 255 && HdlSlowAfter(articulation, p, before, now, n)
    ensures SlowCommitted(p, Committed(now))
  {
    hide HdlSettled, MameSettled;
    BothInterpolatorsCommitTheTarget(articulation, before.fc, 0, p.fc, n);
    BothInterpolatorsCommitTheTarget(articulation, before.f1, 0, p.f1, n);
    BothInterpolatorsCommitTheTarget(articulation, before.f2, 0, p.f2, n);
    BothInterpolatorsCommitTheTarget(articulation, before.f2q, 0, p.f2q, n);
    BothInterpolatorsCommitTheTarget(articulation, before.f3, 0, p.f3, n);
  }

  lemma {:induction false} SlowUpdatesGrow(u: nat, m: nat, n: nat)
    requires m <= n
    ensures SlowUpdates(u, m) <= SlowUpdates(u, n)
    decreases n
  {
    if m < n {
      SlowUpdatesGrow(u, m, n - 1);
    }
  }

  /** Once they have moved 255 times, the next commit makes the phone's own codes sound, and they stay. */
  lemma {:induction false} CommittedFromThenOn(config: HdlConfig, s: Hdl, k: nat, n: nat)
    requires Bounded(s) && s.params.FromRom() && !s.params.pause
    requires 0 < k <= n && SlowUpdates(s.timing.updateCounter, k) >= 255 && CommitsAt(Steps(config, s, k).pitch)
    ensures SlowCommitted(s.params, Steps(config, s, n).filt)
    decreases n
  {
    hide HdlStep, CommitsAt, Committed, SlowCommitted, Interpolated, HdlTiming, HdlSlowAfter;
    SlowRegistersAfter(config, s, n);
    SlowUpdatesGrow(s.timing.updateCounter, k, n);
    SettledRegistersCommit(
      config.articulation, s.params, s.cur, Steps(config, s, n).cur, SlowUpdates(s.timing.updateCounter, n));
    StepMovesRegisters(config, Steps(config, s, n - 1));
    if k < n {
      CommittedFromThenOn(config, s, k, n - 1);
    }
  }

  /** 255 rounds of the update counter are always enough. */
  lemma EnoughSteps(u: nat, n: nat)
    requires u < 48 && n >= 48 * 255
    ensures SlowUpdates(u, n) >= 255
  {
    SlowUpdatesInRounds(u, 255);
    SlowUpdatesGrow(u, 48 * 255, n);
  }

  // ----- the same for the MAME-style model -----

  function MameSteps(inflection: nat, s: Mame, n: nat): Mame
    requires inflection < 4
  {
    if n == 0 then s else MameUpdate(inflection, MameSteps(inflection, s, n - 1))
  }

  lemma MameStepMovesRegisters(inflection: nat, s: Mame)
    requires inflection < 4
    ensures var r := MameUpdate(inflection, s);
            && r.params == s.params && r.timing == MameTiming(s.params, s.timing)
            && r.cur == Interpolated(MameInterpolate, s.params, r.timing, s.cur, s.filt)
            && r.filt == if MameCommitsAt(r.pitch) then Committed(r.cur) else s.filt
  {
  }

  predicate MameCommitsAt(pitch: nat) {
    pitch / 8 == 1 && pitch % 2 == 0
  }

  lemma MameCounterStep(p: PhoneParams, t: Timing)
    requires t.updateCounter <= 47
    ensures MameTiming(p, t).updateCounter == (t.updateCounter + 1) % 48
  {
  }

  lemma OneMameSlowStep(p: PhoneParams, t: Timing, before: Regs, cur: Regs, filt: Regs, n: nat)
    requires !p.pause && MameSlowAfter(p, before, cur, n)
    ensures MameSlowAfter(p, before, Interpolated(MameInterpolate, p, t, cur, filt),
                          if Tick208(t.updateCounter) then n + 1 else n)
  {
    hide MameInterpolate;
  }

  lemma {:induction false} MameSlowRegistersAfter(inflection: nat, s: Mame, n: nat)
    requires inflection < 4 && !s.params.pause && s.timing.updateCounter <= 47
    ensures var r, u := MameSteps(inflection, s, n), s.timing.updateCounter;
            && r.params == s.params && r.timing.updateCounter == (u + n) % 48
            && MameSlowAfter(s.params, s.cur, r.cur, SlowUpdates(u, n))
  {
    hide MameUpdate, MameSlowAfter, Interpolated, MameTiming, Tick208;
    if n == 0 {
      NotYetMoved(0, s.params, s.cur);
    } else {
      var before := MameSteps(inflection, s, n - 1);
      MameSlowRegistersAfter(inflection, s, n - 1);
      MameStepMovesRegisters(inflection, before);
      MameCounterStep(s.params, before.timing);
      RoundsDoNotMatter(s.timing.updateCounter, n - 1, 1);
      OneMameSlowStep(s.params, MameSteps(inflection, s, n).timing, s.cur, before.cur, before.filt,
                      SlowUpdates(s.timing.updateCounter, n - 1));
    }
  }

  lemma SettledMameRegistersCommit(p: PhoneParams, before: Regs, now: Regs, n: nat)
    requires p.FromRom() && RegsFit(before) && n >= 255 && MameSlowAfter(p, before, now, n)
    ensures SlowCommitted(p, Committed(now))
  {
    hide HdlSettled, MameSettled;
    BothInterpolatorsCommitTheTarget(0, 0, before.fc, p.fc, n);
    BothInterpolatorsCommitTheTarget(0, 0, before.f1, p.f1, n);
    BothInterpolatorsCommitTheTarget(0, 0, before.f2, p.f2, n);
    BothInterpolatorsCommitTheTarget(0, 0, before.f2q, p.f2q, n);
    BothInterpolatorsCommitTheTarget(0, 0, before.f3, p.f3, n);
  }

  /** The other interpolator, run just as long, commits the same codes. */
  lemma {:induction false} MameCommittedFromThenOn(inflection: nat, s: Mame, k: nat, n: nat)
    requires inflection < 4 && RegsFit(s.cur) && s.timing.updateCounter <= 47 && s.params.FromRom() && !s.params.pause
    requires 0 < k <= n && SlowUpdates(s.timing.updateCounter, k) >= 255
    requires MameCommitsAt(MameSteps(inflection, s, k).pitch)
    ensures SlowCommitted(s.params, MameSteps(inflection, s, n).filt)
    decreases n
  {
    hide MameUpdate, MameCommitsAt, Committed, SlowCommitted, Interpolated, MameTiming, MameSlowAfter;
    MameSlowRegistersAfter(inflection, s, n);
    SlowUpdatesGrow(s.timing.updateCounter, k, n);
    SettledMameRegistersCommit(
      s.params, s.cur, MameSteps(inflection, s, n).cur, SlowUpdates(s.timing.updateCounter, n));
    MameStepMovesRegisters(inflection, MameSteps(inflection, s, n - 1));
    if k < n {
      MameCommittedFromThenOn(inflection, s, k, n - 1);
    }
  }
}
