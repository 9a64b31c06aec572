/** The digital control of the speech chip, as the MAME-style and the HDL-style models each write it. */
module Chip {
  import opened Bytes

  /** One phone's ROM parameters. */
  datatype PhoneParams = PhoneParams(
    f1: nat, va: nat, f2: nat, fc: nat, f2q: nat, f3: nat, fa: nat, cld: nat, vd: nat,
    closure: bool, duration: nat, pause: bool)
  {
    /** Control steps per tick: `(duration << 2) | 1`. */
    function TickLimit(): nat {
      4 * duration + 1
    }

    /** The ranges the ROM fields have: four bits, and seven for the duration. */
    predicate FromRom() {
      && f1 < 16 && va < 16 && f2 < 16 && fc < 16 && f2q < 16 && f3 < 16 && fa < 16 && cld < 16 && vd < 16
      && duration < 128
    }
  }

  /** A table of all 64 phones. */
  type Phones = t: seq<PhoneParams> | |t| == 64
    witness seq(64, _ => PhoneParams(0, 0, 0, 0, 0, 0, 0, 0, 0, false, 0, false))

  const LAST_TICK := 0x10
  const SILENT_PHONE := 0x3F

  /** One register per analog parameter. */
  datatype Regs = Regs(fa: int, fc: int, va: int, f1: int, f2: int, f2q: int, f3: int)

  const ZERO_REGS := Regs(0, 0, 0, 0, 0, 0, 0)

  datatype Timing = Timing(phonetick: nat, ticks: nat, updateCounter: nat, curClosure: bool)

  datatype Noise = Noise(state: nat, out: bool)

  /** `cur >> 4` for every register, except F2 which keeps one more bit. */
  function Committed(cur: Regs): Regs {
    Regs(cur.fa / 16, cur.fc / 16, cur.va / 16, cur.f1 / 16, cur.f2 / 8, cur.f2q / 16, cur.f3 / 16)
  }

  /** Starting a phone rewinds its clock; a phone without closure delay sets the closure at once. */
  function StartTiming(p: PhoneParams, t: Timing): Timing {
    Timing(0, 0, t.updateCounter, if p.cld == 0 then p.closure else t.curClosure)
  }

  predicate Tick625(updateCounter: nat) {
    updateCounter % 16 == 0
  }

  predicate Tick208(updateCounter: nat) {
    updateCounter == 0x28
  }

  /** The closure counter falls to zero while an open voiced or noisy phone sounds, and otherwise climbs to 28. */
  function NextClosure(closure: nat, curClosure: bool, filt: Regs): nat {
    if !curClosure && (filt.fa != 0 || filt.va != 0) then 0
    else if closure != 28 then closure + 1
    else closure
  }

  /** Interpolate the registers that this update step touches. */
  function Interpolated(interpolate: (int, int) -> int, p: PhoneParams, t: Timing, cur: Regs, filt: Regs): Regs {
    var slow := Tick208(t.updateCounter) && (!p.pause || !(filt.fa != 0 || filt.va != 0));
    var fast := Tick625(t.updateCounter);
    Regs(
      if fast && t.ticks >= p.vd then interpolate(cur.fa, p.fa) else cur.fa,
      if slow then interpolate(cur.fc, p.fc) else cur.fc,
      if fast && t.ticks >= p.cld then interpolate(cur.va, p.va) else cur.va,
      if slow then interpolate(cur.f1, p.f1) else cur.f1,
      if slow then interpolate(cur.f2, p.f2) else cur.f2,
      if slow then interpolate(cur.f2q, p.f2q) else cur.f2q,
      if slow then interpolate(cur.f3, p.f3) else cur.f3)
  }

  // ----- the MAME-style model -----

  datatype Mame = Mame(
    phone: nat, params: PhoneParams, timing: Timing, cur: Regs, filt: Regs, closure: nat, pitch: nat, noise: Noise)

  function MameInit(phones: Phones): Mame {
    Mame(
      SILENT_PHONE, phones[SILENT_PHONE], Timing(0, 0, 0, true), ZERO_REGS, Committed(ZERO_REGS), 0, 0, Noise(0, false))
  }

  function MameStart(phones: Phones, s: Mame, phone: int): Mame {
    var p := phones[phone % 64];
    s.(phone := phone % 64, params := p, timing := StartTiming(p, s.timing))
  }

  /** The MAME clock compares for equality and restarts the count from zero. */
  function MameTiming(p: PhoneParams, t: Timing): Timing {
    var update := if t.updateCounter + 1 == 0x30 then 0 else t.updateCounter + 1;
    if t.ticks == LAST_TICK then t.(updateCounter := update)
    else if t.phonetick + 1 != p.TickLimit() then t.(phonetick := t.phonetick + 1, updateCounter := update)
    else Timing(0, t.ticks + 1, update, if t.ticks + 1 == p.cld then p.closure else t.curClosure)
  }

  /** `(reg - (reg >> 3) + (target << 1)) & 0xFF`. */
  function MameInterpolate(reg: int, target: int): int {
    (reg - reg / 8 + target * 2) % 0x100
  }

  /** `(0xE0 ^ (inflection << 5) ^ (filt_f1 << 1)) + 2`: the two low fields are disjoint from each other. */
  function MamePitchLimit(inflection: nat, f1: int): int
    requires inflection < 4
  {
    0xE0 - inflection * 32 + f1 * 2 + 2
  }

  /** The fifteen-bit feedback register behind the noise. */
  function MameNoise(n: Noise): Noise {
    var state := n.state * 2 % 0x8000 + if n.out && n.state != 0x7FFF then 1 else 0;
    Noise(state, state / 0x4000 % 2 == state / 0x2000 % 2)
  }

  function MameUpdate(inflection: nat, s: Mame): Mame
    requires inflection < 4
  {
    var timing := MameTiming(s.params, s.timing);
    var cur := Interpolated(MameInterpolate, s.params, timing, s.cur, s.filt);
    var closure := NextClosure(s.closure, timing.curClosure, s.filt);
    var stepped := (s.pitch + 1) % 0x100;
    var pitch := if stepped == MamePitchLimit(inflection, s.filt.f1) then 0 else stepped;
    var filt := if pitch / 8 == 1 && pitch % 2 == 0 then Committed(cur) else s.filt;
    Mame(s.phone, s.params, timing, cur, filt, closure, pitch, MameNoise(s.noise))
  }

  // ----- the HDL-style model -----

  datatype HdlConfig = HdlConfig(
    inflection: nat, rateInflection: nat, articulation: nat, amplitude: nat, noiseShift: nat, defaultVotrax: bool)
  {
    predicate Valid() {
      inflection < 0x100 && rateInflection < 0x100 && articulation < 8 && amplitude < 16
    }

    /** `ssi263_inflection12`. */
    function Inflection12(): nat {
      rateInflection / 8 % 2 * 0x800 + inflection % 0x100 * 8 + rateInflection % 8
    }
  }

  datatype Hdl = Hdl(
    phone: nat, params: PhoneParams, timing: Timing, cur: Regs, filt: Regs, closure: nat,
    pitch: nat, pitchGate: bool, noise: Noise, isVotrax: bool,
    targetInflection: nat, activeInflection: nat, durationPhoneme: nat, currentFunction: nat)
  {
    predicate Transitioned() {
      !isVotrax && currentFunction == 3
    }
  }

  function HdlInit(phones: Phones, config: HdlConfig): Hdl {
    Hdl(SILENT_PHONE, phones[SILENT_PHONE], Timing(0, 0, 0, true), ZERO_REGS, ZERO_REGS, 0,
        0, false, Noise(0, false), config.defaultVotrax, config.Inflection12(), config.Inflection12(), 0, 0)
  }

  /** Bits 6 to 10 of an inflection. */
  function PitchTarget(inflection: nat): (target: nat)
    ensures target < 32
  {
    inflection / 64 % 32
  }

  /** `(inflection & ~0x7C0) | (target << 6)`. */
  function WithPitchTarget(inflection: nat, target: nat): nat
    requires target < 32
  {
    inflection / 0x800 * 0x800 + target * 64 + inflection % 64
  }

  /** The duration-and-phoneme byte a start leaves behind. */
  function StartDuration(isVotrax: bool, phone: int, durationPhoneme: Option<int>): nat {
    if isVotrax && durationPhoneme.None? then 0
    else (if durationPhoneme.Some? then durationPhoneme.value else phone) % 0x100
  }

  /** The two-bit function code, taken from that byte when none is given. */
  function StartFunction(isVotrax: bool, durationPhoneme: nat, currentFunction: Option<int>): nat {
    if currentFunction.Some? then currentFunction.value % 4
    else if isVotrax then 0
    else durationPhoneme / 64 % 4
  }

  /** A transitioned start keeps the sounding pitch target; any other takes over the requested inflection. */
  function StartInflection(target: nat, transitioned: bool, active: nat): nat {
    if transitioned then WithPitchTarget(target, PitchTarget(active)) else target
  }

  function StartedMode(
      config: HdlConfig, s: Hdl, phone: int,
      durationPhoneme: Option<int>, currentFunction: Option<int>, votrax: Option<bool>): Hdl
  {
    var isVotrax := if votrax.Some? then votrax.value else config.defaultVotrax;
    var dp := StartDuration(isVotrax, phone, durationPhoneme);
    var fn := StartFunction(isVotrax, dp, currentFunction);
    var target := config.Inflection12();
    s.(isVotrax := isVotrax, durationPhoneme := dp, currentFunction := fn, targetInflection := target,
       activeInflection := StartInflection(target, !isVotrax && fn == 3, s.activeInflection))
  }

  function StartedClock(phones: Phones, s: Hdl, phone: int): Hdl {
    s.(phone := phone % 64, params := phones[phone % 64], timing := StartTiming(phones[phone % 64], s.timing))
  }

  function HdlStart(
      phones: Phones, config: HdlConfig, s: Hdl, phone: int,
      durationPhoneme: Option<int>, currentFunction: Option<int>, votrax: Option<bool>): Hdl
  {
    StartedMode(config, StartedClock(phones, s, phone), phone, durationPhoneme, currentFunction, votrax)
  }

  /** The HDL clock compares for reached-or-passed and carries the excess over. */
  function HdlTiming(p: PhoneParams, t: Timing, speedStep: nat): Timing {
    var update := if t.updateCounter == 47 then 0 else t.updateCounter + 1;
    if t.ticks == LAST_TICK then t.(updateCounter := update)
    else if t.phonetick + speedStep < p.TickLimit() then
      t.(phonetick := t.phonetick + speedStep, updateCounter := update)
    else
      var ticks := (t.ticks + 1) % 0x20;
      Timing(t.phonetick + speedStep - p.TickLimit(), ticks, update, if ticks == p.cld then p.closure else t.curClosure)
  }

  function ArticulationDivisor(articulation: nat): nat {
    if articulation <= 1 then 32
    else if articulation <= 3 then 16
    else if articulation <= 5 then 8
    else if articulation == 6 then 4
    else 2
  }

  /** A fraction of a distance, but at least one where there is any. */
  function Share(delta: nat, divisor: nat): nat
    requires divisor > 0
  {
    if delta != 0 && delta / divisor == 0 then 1 else delta / divisor
  }

  /** From a byte towards a goal by a fraction of the distance, never leaving the byte. */
  function Towards(current: nat, goal: nat, divisor: nat): int
    requires divisor > 0
  {
    if goal >= current then
      var next := current + Share(goal - current, divisor);
      if next > 0xFF then 0xFF else next
    else
      var next := current - Share(current - goal, divisor);
      if next < 0 then 0 else next
  }

  /** Move towards sixteen times the target nibble. */
  function HdlInterpolate(articulation: nat, reg: int, target: int): int {
    Towards(reg % 0x100, target % 16 * 16, ArticulationDivisor(articulation))
  }

  function Interpolator(articulation: nat): (int, int) -> int {
    (reg, target) => HdlInterpolate(articulation, reg, target)
  }

  function HdlUpdate(config: HdlConfig, s: Hdl, speedStep: nat): Hdl {
    var timing := HdlTiming(s.params, s.timing, speedStep);
    s.(timing := timing,
       cur := Interpolated(Interpolator(config.articulation), s.params, timing, s.cur, s.filt),
       closure := NextClosure(s.closure, timing.curClosure, s.filt))
  }

  function SlopeStep(slope: nat): nat
    requires slope < 8
  {
    [1, 2, 3, 4, 6, 8, 12, 16][slope]
  }

  /** The sounding pitch target moves towards the requested one by at most a slope step. */
  function Approach(active: nat, target: nat, step: nat): (r: nat)
    ensures active <= r <= target || target <= r <= active
    ensures r == target <==> (if active < target then target - active else active - target) <= step
  {
    if active < target then active + (if step < target - active then step else target - active)
    else if active > target then active - (if step < active - target then step else active - target)
    else active
  }

  function HdlInflection(config: HdlConfig, s: Hdl): Hdl {
    var target := config.Inflection12();
    var moved := Approach(PitchTarget(s.activeInflection), PitchTarget(target), SlopeStep(target / 8 % 8));
    s.(targetInflection := target,
       activeInflection := (if s.Transitioned() then WithPitchTarget(target % 0x1000, moved) else target) % 0x1000)
  }

  function HdlPitchLimit(config: HdlConfig, s: Hdl): nat {
    if !s.isVotrax then
      var period := (0x1000 - s.activeInflection) * 5 / 32;
      if period < 1 then 1 else period
    else
      var period := 0xE0 - config.Inflection12() / 0x400 % 4 * 32 + s.filt.f1 % 16 * 2 + 2;
      if period > 0xFF then 0xFF else period
  }

  function NextPitch(pitch: nat, limit: nat): nat {
    (if pitch + 1 >= limit then pitch + 1 - limit else pitch + 1) % 0x400
  }

  /** `(pitch & 0x3F9) == 0x008`. */
  predicate CommitsAt(pitch: nat) {
    pitch / 8 % 0x80 == 1 && pitch % 2 == 0
  }

  function HdlNoise(n: Noise): Noise {
    var state := n.state % 0x8000;
    var next := state * 2 % 0x8000 + if n.out && state != 0x7FFF then 1 else 0;
    Noise(next, next / 0x4000 % 2 == next / 0x2000 % 2)
  }

  function HdlPitchNoise(config: HdlConfig, s: Hdl): Hdl {
    var limit := HdlPitchLimit(config, s);
    var pitch := NextPitch(s.pitch, limit);
    s.(pitch := pitch,
       pitchGate := if s.isVotrax then pitch / 64 % 2 == 1 else pitch >= limit / 2,
       filt := if CommitsAt(pitch) then Committed(s.cur) else s.filt,
       noise := HdlNoise(s.noise))
  }

  /** One control step of the render loops. */
  function HdlStep(config: HdlConfig, s: Hdl): Hdl {
    HdlPitchNoise(config, HdlUpdate(config, HdlInflection(config, s), 1))
  }
}
