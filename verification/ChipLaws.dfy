/** What the chip's registers and its four configuration bytes mean, field by field. */
module ChipLaws {
  import opened Bytes
  import opened Chip

  // ----- configuration -----

  /** The twelve bits of the inflection: bit 3 of the rate register, the inflection register, the rate's low three bits.
      */
  lemma InflectionBits(config: HdlConfig)
    requires config.Valid()
    ensures var bits := config.Inflection12();
            && bits < 0x1000 && bits % 8 == config.rateInflection % 8 && bits / 8 % 0x100 == config.inflection
            && (bits >= 0x800 <==> config.rateInflection % 16 >= 8)
  {
  }

  /** Setting the pitch target changes bits 6 to 10 and no others, and reading it gives it back. */
  lemma PitchTargetBits(inflection: nat, target: nat)
    requires target < 32
    ensures var w := WithPitchTarget(inflection, target);
            && PitchTarget(w) == target && w % 64 == inflection % 64 && w / 0x800 == inflection / 0x800
            && (target == PitchTarget(inflection) ==> w == inflection)
  {
    var high, low := inflection / 0x800, inflection % 64;
    var w := WithPitchTarget(inflection, target);
    assert w == 64 * (32 * high + target) + low;
    assert w / 64 == 32 * high + target;
    assert inflection == 64 * (inflection / 64) + low && inflection / 64 == 32 * high + PitchTarget(inflection);
  }

  /** The ramp's eight steps: one to four, and then twice the step of two codes before. */
  lemma SlopeSteps(slope: nat)
    requires slope < 8
    ensures SlopeStep(slope) == if slope < 4 then slope + 1 else 2 * SlopeStep(slope - 2)
  {
  }

  /** The shares of the distance that one interpolation step covers, by articulation code. */
  const SHARES: seq<nat> := [32, 32, 16, 16, 8, 8, 4, 2]

  function Distance(a: int, b: int): nat {
    if a <= b then b - a else a - b
  }

  /** A step of the SSI-263 interpolation covers its share of the distance, rounded down, but at least one where there
      is any, and never leads away from the goal. */
  lemma InterpolationShare(articulation: nat, reg: int, target: int)
    requires articulation < 8 && 0 <= reg < 0x100 && 0 <= target < 16
    ensures var next := HdlInterpolate(articulation, reg, target);
            var far, moved := Distance(reg, 16 * target), Distance(reg, next);
            && Distance(next, 16 * target) == far - moved
            && (0 < far < SHARES[articulation] ==> moved == 1)
            && (far == 0 || far >= SHARES[articulation] ==>
                  SHARES[articulation] * moved <= far < SHARES[articulation] * moved + SHARES[articulation])
  {
    ShareIs(Distance(reg, 16 * target), articulation);
    TowardsIs(reg, 16 * target, SHARES[articulation]);
    DivisorIs(articulation, reg, target);
    hide Share, Towards, SHARES, HdlInterpolate;
    var next := HdlInterpolate(articulation, reg, target);
    assert Distance(reg, next) == Share(Distance(reg, 16 * target), SHARES[articulation]);
  }

  lemma DivisorIs(articulation: nat, reg: int, target: int)
    requires articulation < 8 && 0 <= reg < 0x100 && 0 <= target < 16
    ensures HdlInterpolate(articulation, reg, target) == Towards(reg, 16 * target, SHARES[articulation])
  {
    hide Towards;
    assert reg % 0x100 == reg && target % 16 == target;
    assert ArticulationDivisor(articulation) == SHARES[articulation];
  }

  /** The byte range never cuts a step short. */
  lemma TowardsIs(reg: nat, goal: nat, divisor: nat)
    requires reg < 0x100 && goal < 0x100 && divisor > 0 && Share(Distance(reg, goal), divisor) <= Distance(reg, goal)
    ensures var moved := Share(Distance(reg, goal), divisor);
            Towards(reg, goal, divisor) == if goal >= reg then reg + moved else reg - moved
  {
    hide Share;
  }

  lemma ShareIs(far: nat, articulation: nat)
    requires articulation < 8
    ensures var moved := Share(far, SHARES[articulation]);
            && moved <= far
            && (0 < far < SHARES[articulation] ==> moved == 1)
            && (far == 0 || far >= SHARES[articulation] ==>
                  SHARES[articulation] * moved <= far < SHARES[articulation] * moved + SHARES[articulation])
  {
    if articulation < 2 {
    } else if articulation < 4 {
    } else if articulation < 6 {
    } else if articulation == 6 {
    } else {
    }
  }

  // ----- registers -----

  predicate IsPart(code: int, register: int, unit: int) {
    unit * code <= register < unit * (code + 1)
  }

  /** A commit takes the high four bits of every register, of F2 the high five. */
  lemma CommittedParts(cur: Regs)
    ensures var c := Committed(cur);
            && IsPart(c.fa, cur.fa, 16) && IsPart(c.fc, cur.fc, 16) && IsPart(c.va, cur.va, 16)
            && IsPart(c.f1, cur.f1, 16) && IsPart(c.f2, cur.f2, 8) && IsPart(c.f2q, cur.f2q, 16)
            && IsPart(c.f3, cur.f3, 16)
  {
  }

  predicate AllZero(r: Regs) {
    r.fa == 0 && r.fc == 0 && r.va == 0 && r.f1 == 0 && r.f2 == 0 && r.f2q == 0 && r.f3 == 0
  }

  /** Both models begin silent: no register and no code set, closed, the pause phone in place. */
  lemma FreshModels(phones: Phones, config: HdlConfig)
    ensures var h := HdlInit(phones, config);
            && AllZero(h.cur) && AllZero(h.filt) && h.phone == 0x3F && h.params == phones[0x3F] && h.timing.curClosure
            && h.pitch == 0 && h.closure == 0 && h.noise.state == 0 && h.activeInflection == h.targetInflection
    ensures var m := MameInit(phones);
            && AllZero(m.cur) && AllZero(m.filt) && m.phone == 0x3F && m.params == phones[0x3F] && m.timing.curClosure
            && m.pitch == 0 && m.closure == 0 && m.noise.state == 0
  {
  }

  // ----- the pitch period -----

  /** The SC-01 period: two more than a byte whose top three bits are the complemented inflection, whose next four are
      the code of the first formant, and whose last is zero. */
  lemma Sc01Period(inflection: nat, f1: int)
    requires inflection < 4 && 0 <= f1 < 16
    ensures var v := MamePitchLimit(inflection, f1) - 2;
            0 <= v < 0x100 && v / 32 == 7 - inflection && v % 32 == 2 * f1
  {
  }

  /** In SC-01 mode the HDL model counts that period of the two top inflection bits, held to a byte. */
  lemma HdlSc01Period(config: HdlConfig, s: Hdl)
    requires s.isVotrax && config.Valid() && 0 <= s.filt.f1 < 16
    ensures var period := MamePitchLimit(config.rateInflection / 8 % 2 * 2 + config.inflection / 128, s.filt.f1);
            HdlPitchLimit(config, s) == if period > 0xFF then 0xFF else period
  {
    assert config.Inflection12() / 0x400 % 4 == config.rateInflection / 8 % 2 * 2 + config.inflection / 128;
  }

  /** Otherwise it counts five 32nds of what the inflection lacks of 4096, rounded down, but at least one. */
  lemma Ssi263Period(config: HdlConfig, s: Hdl)
    requires !s.isVotrax && s.activeInflection < 0x1000
    ensures var period, lack := HdlPitchLimit(config, s), 0x1000 - s.activeInflection;
            if 5 * lack < 32 then period == 1 else 32 * period <= 5 * lack < 32 * (period + 1)
  {
  }
}
