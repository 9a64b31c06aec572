/** The slot-7 entry patch of the SmartPort ROM page, and what the 6502 does with the page before and after it. */
module RomPatch {
  import opened Bytes

  const BASE := 0xC700
  const RELOCATED := 0xA0
  const TRAMPOLINE := 0x57
  const PROBE := 0xB0

  type Page = p: seq<byte> | |p| == 256 witness seq(256, _ => 0)

  /** LDY #$70 / STY $26 / LDX #$C7 / STX $07F8 / STA $CFFF / RTS; DSETUP is its last four instructions. */
  const SETUP: seq<byte> := [0xA0, 0x70, 0x84, 0x26, 0xA2, 0xC7, 0x8E, 0xF8, 0x07, 0x8D, 0xFF, 0xCF, 0x60]
  const DISK_ENTRY: seq<byte> := [0x18, 0x90, 0x01, 0x38]
  const SIGNATURE: seq<byte> := [0x4C, 0x49, 0x4E, 0x54, 0x58, 0x54, 0x4C, 0x10]

  function Splice(p: Page, at: nat, bytes: seq<byte>): (r: Page)
    requires at + |bytes| <= 256
    ensures forall k | 0 <= k < 256 :: r[k] == if at <= k < at + |bytes| then bytes[k - at] else p[k]
  {
    p[..at] + bytes + p[at + |bytes|..]
  }

  predicate Holds(p: Page, at: nat, bytes: seq<byte>) {
    at + |bytes| <= 256 && p[at..at + |bytes|] == bytes
  }

  /** A JSR to the page offset `off` stands at `i`. */
  predicate IsJsr(p: Page, i: int, off: int) {
    0 <= i < 254 && p[i] == 0x20 && p[i + 1] == off && p[i + 2] == 0xC7
  }

  /** Every JSR to `from` is redirected to `to`. */
  function Retargeted(p: Page, from: byte, to: byte): (r: Page)
    ensures forall k | 0 <= k < 256 :: r[k] == if IsJsr(p, k - 1, from) then to else p[k]
  {
    seq(256, k requires 0 <= k < 256 => if IsJsr(p, k - 1, from) then to else p[k])
  }

  /** Calls of `off` among the first `n` positions. */
  function Calls(p: Page, off: int, n: nat): nat {
    if n == 0 then 0 else Calls(p, off, n - 1) + if IsJsr(p, n - 1, off) then 1 else 0
  }

  /** The scan after `n` positions, each rewrite already in the page that the next position sees. */
  function Scan(p: Page, from: byte, to: byte, n: nat): (Page, nat)
    requires n <= 254
  {
    if n == 0 then (p, 0)
    else
      var (q, count) := Scan(p, from, to, n - 1);
      if IsJsr(q, n - 1, from) then (Splice(q, n, [to, 0xC7]), count + 1) else (q, count)
  }

  /** `patch_abs_jsr` within the page. */
  method PatchAbsJsr(page: array<byte>, from: byte, to: byte) returns (count: nat)
    requires page.Length == 256
    modifies page
    ensures (page[..], count) == Scan(old(page[..]), from, to, 254)
  {
    count := 0;
    for i := 0 to 254
      invariant (page[..], count) == Scan(old(page[..]), from, to, i)
    {
      if page[i] == 0x20 && page[i + 1] == from && page[i + 2] == 0xC7 {
        ghost var before: Page := page[..];
        page[i + 1] := to;
        page[i + 2] := 0xC7;
        assert page[..] == Splice(before, i + 1, [to, 0xC7]);
        count := count + 1;
      }
    }
  }

  /** A call of Cn+C7, to be turned into one of Cn+20, with another byte $C7 behind it: once rewritten, its operand and
      that byte read as a call again. */
  predicate FeedsItself(p: Page, from: byte, to: byte) {
    from == 0xC7 && to == 0x20 && exists i | 0 <= i < 253 :: IsJsr(p, i, 0xC7) && p[i + 3] == 0xC7
  }

  /** Otherwise the bytes the scan writes make or break no later match, so it redirects and counts exactly the calls of
      the page it was given. */
  lemma {:induction false} ScanRedirects(p: Page, from: byte, to: byte, n: nat)
    requires n <= 254 && !FeedsItself(p, from, to)
    ensures Scan(p, from, to, n).1 == Calls(p, from, n)
    ensures forall k | 0 <= k < 256 ::
        Scan(p, from, to, n).0[k] == if IsJsr(p, k - 1, from) && k - 1 < n then to else p[k]
  {
    if n > 0 {
      ScanRedirects(p, from, to, n - 1);
      assert IsJsr(p, n - 2, from) && p[n - 1 + 2] == 0xC7 && from == 0xC7 && to == 0x20 ==> FeedsItself(p, from, to);
    }
  }

  /** The scan leaves what it has not reached, and a call opcode once in the page stays where it is. */
  lemma {:induction false} ScanKeeps(p: Page, from: byte, m: nat, n: nat, k: nat)
    requires m <= n <= 254 && k < 256
    ensures k > n ==> Scan(p, from, 0x20, n).0[k] == p[k]
    ensures Scan(p, from, 0x20, m).0[k] == 0x20 ==> Scan(p, from, 0x20, n).0[k] == 0x20
    decreases n
  {
    if m < n {
      ScanKeeps(p, from, m, n - 1, k);
    } else if n > 0 {
      ScanKeeps(p, from, n - 1, n - 1, k);
    }
  }

  /** So in such a page the scan overwrites the byte behind the call's operand, which redirecting would keep. */
  lemma FeedingIsSeen(p: Page, i: nat)
    requires i < 253 && IsJsr(p, i, 0xC7) && p[i + 3] == 0xC7
    ensures Scan(p, 0xC7, 0x20, 254).0[i + 2] == 0x20 && Retargeted(p, 0xC7, 0x20)[i + 2] == 0xC7
  {
    hide Scan;
    ScanKeeps(p, 0xC7, 0, i, i);
    ScanKeeps(p, 0xC7, i, i, i + 1);
    ScanKeeps(p, 0xC7, i, i, i + 2);
    ScanKeeps(p, 0xC7, i + 1, i + 1, i + 3);
    ScanKeeps(p, 0xC7, i + 2, 254, i + 2);
    ScanStarts(p, 0xC7, 0x20);
    ScanStep(p, 0xC7, 0x20, i + 1);
    ScanStep(p, 0xC7, 0x20, i + 2);
  }

  lemma ScanStarts(p: Page, from: byte, to: byte)
    ensures Scan(p, from, to, 0) == (p, 0)
  {
  }

  lemma ScanStep(p: Page, from: byte, to: byte, n: nat)
    requires 0 < n <= 254
    ensures var q := Scan(p, from, to, n - 1).0;
            Scan(p, from, to, n).0 == if IsJsr(q, n - 1, from) then Splice(q, n, [to, 0xC7]) else q
  {
  }

  /** The scan redirects and counts exactly the calls of the page it was given exactly when it does not feed itself. */
  lemma ScanIsRetargetingIff(p: Page, from: byte, to: byte)
    ensures Scan(p, from, to, 254) == (Retargeted(p, from, to), Calls(p, from, 254)) <==> !FeedsItself(p, from, to)
  {
    if FeedsItself(p, from, to) {
      var i :| 0 <= i < 253 && IsJsr(p, i, 0xC7) && p[i + 3] == 0xC7;
      FeedingIsSeen(p, i);
    } else {
      ScanRedirects(p, from, to, 254);
      assert Scan(p, from, to, 254).0 == Retargeted(p, from, to);
    }
  }

  lemma {:induction false} CallsFound(p: Page, off: int, n: nat)
    requires n <= 254
    ensures Calls(p, off, n) > 0 <==> exists i | 0 <= i < n :: IsJsr(p, i, off)
  {
    if n > 0 {
      CallsFound(p, off, n - 1);
    }
  }

  /** A page that feeds the scan: its single call is counted twice and its rewritten operand is rewritten
      again. */
  lemma RewrittenTwice(p: Page)
    requires p == Splice(seq(256, _ => 0), 0, [0x20, 0xC7, 0xC7, 0xC7])
    ensures Calls(p, 0xC7, 2) == 1 && Scan(p, 0xC7, 0x20, 2).1 == 2
    ensures Scan(p, 0xC7, 0x20, 2).0[..4] == [0x20, 0x20, 0x20, 0xC7]
    ensures Retargeted(p, 0xC7, 0x20)[..4] == [0x20, 0x20, 0xC7, 0xC7]
  {
    assert Calls(p, 0xC7, 1) == 1;
    var q := Splice(p, 1, [0x20, 0xC7]);
    assert Scan(p, 0xC7, 0x20, 1) == (q, 1);
    assert Scan(p, 0xC7, 0x20, 2) == (Splice(q, 2, [0x20, 0xC7]), 2);
  }

  /** The four labels of the reference layout, as page offsets. */
  datatype Labels = Labels(disk: int, dentry: int, bsetup: int, dsetup: int) {
    predicate InPage() {
      0 <= disk <= 0xFF && 0 <= disk + 3 <= 0xFF && 0 <= dentry <= 0xFF && 0 <= bsetup <= 0xFF && 0 <= dsetup <= 0xFF
    }
  }

  /** The shape the reference page must have before it is patched. */
  predicate Expected(p: Page, l: Labels) {
    && l.InPage()
    && Holds(p, l.disk, DISK_ENTRY) && p[l.disk + 3] == 0x38 && p[0x09] == 0x50
    && Holds(p, l.bsetup, SETUP) && l.dsetup == l.bsetup + 4
    && Holds(p, RELOCATED, seq(|SETUP|, _ => 0))
  }

  function WithSetup(p: Page, l: Labels): Page
    requires Expected(p, l)
  {
    var q := Retargeted(Splice(p, RELOCATED, SETUP), l.bsetup, RELOCATED);
    Splice(Retargeted(q, l.dsetup, RELOCATED + 4), l.bsetup, seq(|SETUP|, _ => 0))
  }

  function WithEntries(p: Page, l: Labels): Page
    requires Expected(p, l)
  {
    hide WithSetup, Holds, Splice;
    var q := Splice(Splice(WithSetup(p, l), 0x0A, [0x4C, l.disk, 0xC7]), 0x0D, [0x4C, l.disk + 3, 0xC7]);
    Splice(q, TRAMPOLINE, [0x4C, l.dentry, 0xC7])
  }

  function Patched(p: Page, l: Labels): Page
    requires Expected(p, l)
  {
    Splice(Splice(WithEntries(p, l), PROBE, SIGNATURE), 0xFF, [0x0A])
  }

  /** Everything the patch checks before it is done. */
  predicate Accepted(p: Page, l: Labels) {
    && Expected(p, l)
    && (exists i | 0 <= i < 254 :: IsJsr(p, i, l.bsetup)) && (exists i | 0 <= i < 254 :: IsJsr(p, i, l.dsetup))
    && Holds(WithEntries(p, l), PROBE, seq(|SIGNATURE|, _ => 0))
  }

  /** Where the patch writes whatever the page held before. */
  predicate Fixed(k: int) {
    0x0A <= k < 0x10 || TRAMPOLINE <= k < TRAMPOLINE + 3 || PROBE <= k < PROBE + 8 || k == 0xFF
    || RELOCATED <= k < RELOCATED + |SETUP|
  }

  lemma HeldByte(p: Page, at: nat, bytes: seq<byte>, k: nat)
    requires Holds(p, at, bytes) && k < |bytes|
    ensures p[at + k] == bytes[k]
  {
    assert p[at..at + |bytes|][k] == bytes[k];
  }

  predicate Overlaps(a: int, b: int, length: int) {
    a < b + length && b < a + length
  }

  /** The old routine lies clear of the place it is moved to, since that place was empty. */
  lemma SetupIsClear(p: Page, l: Labels)
    requires Expected(p, l)
    ensures !Overlaps(l.bsetup, RELOCATED, |SETUP|)
  {
    if l.bsetup <= RELOCATED < l.bsetup + |SETUP| {
      BytesDiffer(p, l, RELOCATED - l.bsetup, 0);
    } else if RELOCATED <= l.bsetup < RELOCATED + |SETUP| {
      BytesDiffer(p, l, 0, l.bsetup - RELOCATED);
    }
  }

  /** No byte of the routine is zero, and every byte of the free area is. */
  lemma BytesDiffer(p: Page, l: Labels, k: nat, j: nat)
    requires Expected(p, l) && k < |SETUP| && j < |SETUP|
    ensures l.bsetup + k != RELOCATED + j
  {
    HeldByte(p, l.bsetup, SETUP, k);
    HeldByte(p, RELOCATED, seq(|SETUP|, _ => 0), j);
  }

  /** A call never lies in empty space, nor in the routine itself. */
  lemma CallsAvoidTheRoutine(p: Page, l: Labels, i: int, off: int)
    requires Expected(p, l) && IsJsr(p, i, off)
    ensures !(RELOCATED <= i + 2 < RELOCATED + |SETUP|) && !(RELOCATED <= i < RELOCATED + |SETUP|)
    ensures !(l.bsetup <= i < l.bsetup + |SETUP|)
  {
    if RELOCATED <= i + 2 < RELOCATED + |SETUP| {
      HeldByte(p, RELOCATED, seq(|SETUP|, _ => 0), i + 2 - RELOCATED);
    } else if RELOCATED <= i < RELOCATED + |SETUP| {
      HeldByte(p, RELOCATED, seq(|SETUP|, _ => 0), i - RELOCATED);
    }
    if l.bsetup <= i < l.bsetup + |SETUP| {
      HeldByte(p, l.bsetup, SETUP, i - l.bsetup);
    }
  }

  /** Moving the routine in creates no call and destroys none. */
  lemma MovingKeepsCalls(p: Page, l: Labels, i: int, off: int)
    requires Expected(p, l)
    ensures IsJsr(Splice(p, RELOCATED, SETUP), i, off) <==> IsJsr(p, i, off)
  {
    var m := Splice(p, RELOCATED, SETUP);
    assert m[0xA0] == 0xA0 && m[0xA1] == 0x70 && m[0xA3] == 0x26;
    if IsJsr(p, i, off) {
      CallsAvoidTheRoutine(p, l, i, off);
    }
  }

  /** The first redirection hides nothing from the second. */
  lemma RedirectionsAreIndependent(m: Page, from: byte, i: int)
    requires from + 4 <= 0xFF && from + 4 != RELOCATED
    ensures IsJsr(Retargeted(m, from, RELOCATED), i, from + 4) <==> IsJsr(m, i, from + 4)
  {
  }

  lemma LayerBytes(m: Page, from: byte, k: int)
    requires 0 <= k < 256 && from + 4 <= 0xFF && from + 4 != RELOCATED && from + |SETUP| <= 256
    ensures var q := Retargeted(Retargeted(m, from, RELOCATED), from + 4, RELOCATED + 4);
            Splice(q, from, seq(|SETUP|, _ => 0))[k] ==
            if from <= k < from + |SETUP| then 0
            else if IsJsr(m, k - 1, from) then RELOCATED
            else if IsJsr(m, k - 1, from + 4) then RELOCATED + 4
            else m[k]
  {
    RedirectionsAreIndependent(m, from, k - 1);
    hide IsJsr;
    if IsJsr(m, k - 1, from) {
      OneTarget(m, k - 1, from, from + 4);
    }
  }

  lemma OneTarget(m: Page, i: int, a: byte, b: byte)
    requires a != b && IsJsr(m, i, a)
    ensures !IsJsr(m, i, b)
  {
  }

  /** The page after both redirections, byte by byte. */
  lemma SetupBytes(p: Page, l: Labels, k: int)
    requires Expected(p, l) && 0 <= k < 256
    ensures WithSetup(p, l)[k] ==
            if l.bsetup <= k < l.bsetup + |SETUP| then 0
            else if RELOCATED <= k < RELOCATED + |SETUP| then SETUP[k - RELOCATED]
            else if IsJsr(p, k - 1, l.bsetup) then RELOCATED
            else if IsJsr(p, k - 1, l.dsetup) then RELOCATED + 4
            else p[k]
  {
    hide IsJsr, Holds;
    SetupIsClear(p, l);
    MovingKeepsCalls(p, l, k - 1, l.bsetup);
    MovingKeepsCalls(p, l, k - 1, l.dsetup);
    if IsJsr(p, k - 1, l.bsetup) {
      CallsAvoidTheRoutine(p, l, k - 1, l.bsetup);
    }
    if IsJsr(p, k - 1, l.dsetup) {
      CallsAvoidTheRoutine(p, l, k - 1, l.dsetup);
    }
    HeldFits(p, l.bsetup, SETUP);
    LayerBytes(Splice(p, RELOCATED, SETUP), l.bsetup, k);
  }

  lemma HeldFits(p: Page, at: nat, bytes: seq<byte>)
    requires Holds(p, at, bytes)
    ensures at + |bytes| <= 256
  {
  }

  predicate InSetup(l: Labels, k: int) {
    l.bsetup <= k < l.bsetup + |SETUP|
  }

  predicate IsCallOperand(p: Page, l: Labels, k: int) {
    IsJsr(p, k - 1, l.bsetup) || IsJsr(p, k - 1, l.dsetup)
  }

  lemma EntriesAreFixed(p: Page, l: Labels, k: int)
    requires Expected(p, l) && 0 <= k < 256 && (!Fixed(k) || RELOCATED <= k < RELOCATED + |SETUP|)
    ensures Patched(p, l)[k] == WithSetup(p, l)[k]
  {
    hide Expected, IsJsr, WithSetup;
  }

  /** Outside its fixed places, the old routine and the redirected operands, the patch changes nothing. */
  lemma OtherBytesUnchanged(p: Page, l: Labels, k: int)
    requires Expected(p, l) && 0 <= k < 256 && !Fixed(k) && !InSetup(l, k) && !IsCallOperand(p, l, k)
    ensures Patched(p, l)[k] == p[k]
  {
    hide WithSetup, Patched, IsJsr;
    EntriesAreFixed(p, l, k);
    SetupBytes(p, l, k);
  }

  /** What the patch leaves at the places it writes. */
  lemma FixedBytes(p: Page, l: Labels)
    requires Expected(p, l)
    ensures var q := Patched(p, l);
            && q[0x0A] == 0x4C && q[0x0B] == l.disk && q[0x0C] == 0xC7
            && q[0x0D] == 0x4C && q[0x0E] == l.disk + 3 && q[0x0F] == 0xC7
            && q[0x57] == 0x4C && q[0x58] == l.dentry && q[0x59] == 0xC7
            && q[0xFF] == 0x0A
            && (forall k | 0 <= k < 6 :: q[0xB0 + k] == "LINTXT"[k] as int) && q[0xB6] == 0x4C && q[0xB7] == 0x10
  {
    hide Expected, IsJsr;
  }

  /** The moved routine is complete. */
  lemma RoutineIsMoved(p: Page, l: Labels)
    requires Expected(p, l)
    ensures Holds(Patched(p, l), RELOCATED, SETUP)
  {
    hide Patched, WithSetup, IsJsr;
    var q := Patched(p, l);
    SetupIsClear(p, l);
    forall k | 0 <= k < |SETUP|
      ensures q[RELOCATED + k] == SETUP[k]
    {
      EntriesAreFixed(p, l, RELOCATED + k);
      SetupBytes(p, l, RELOCATED + k);
    }
    assert q[RELOCATED..RELOCATED + |SETUP|] == SETUP;
  }

  /** A former call whose three bytes are clear of the fixed places becomes a call of the moved routine. */
  lemma CallIsRedirected(p: Page, l: Labels, i: int, off: int)
    requires Expected(p, l) && off in {l.bsetup, l.dsetup} && IsJsr(p, i, off)
    requires !Fixed(i) && !Fixed(i + 1) && !Fixed(i + 2)
    ensures IsJsr(Patched(p, l), i, off - l.bsetup + RELOCATED)
  {
    ClearOfOldRoutine(p, l, i, off);
    CallBytes(p, l, i, off);
    EntriesAreFixed(p, l, i);
    EntriesAreFixed(p, l, i + 1);
    EntriesAreFixed(p, l, i + 2);
  }

  lemma CallBytes(p: Page, l: Labels, i: int, off: int)
    requires Expected(p, l) && off in {l.bsetup, l.dsetup} && IsJsr(p, i, off)
    requires !Fixed(i) && !Fixed(i + 1) && !Fixed(i + 2)
    ensures IsJsr(WithSetup(p, l), i, off - l.bsetup + RELOCATED)
  {
    hide WithSetup, Holds;
    ClearOfOldRoutine(p, l, i, off);
    SetupBytes(p, l, i);
    SetupBytes(p, l, i + 1);
    SetupBytes(p, l, i + 2);
  }

  lemma ClearOfOldRoutine(p: Page, l: Labels, i: int, off: int)
    requires Expected(p, l) && off in {l.bsetup, l.dsetup} && IsJsr(p, i, off)
    ensures !InSetup(l, i) && !InSetup(l, i + 1) && !InSetup(l, i + 2)
    ensures !IsCallOperand(p, l, i) && !IsCallOperand(p, l, i + 2)
  {
    SetupIsClear(p, l);
    HeldByte(p, l.bsetup, SETUP, 0);
    HeldByte(p, l.bsetup, SETUP, 1);
    CallsAvoidTheRoutine(p, l, i, off);
  }

  // ----- the processor -----

  /** The part of a 6502 that the entry code uses; the stack holds return addresses, newest first. */
  datatype Cpu = Cpu(pc: int, a: byte, x: byte, y: byte, carry: bool, overflow: bool, negative: bool, zero: bool,
                     stack: seq<int>, writes: seq<(int, byte)>)

  function OpcodeLength(opcode: byte): nat {
    if opcode in {0x18, 0x38, 0x60} then 1 else if opcode in {0x4C, 0x20, 0x8E, 0x8D} then 3 else 2
  }

  /** One instruction fetched from the slot page; `None` for code that leaves it or an opcode not modelled. */
  function Step(p: Page, s: Cpu): Option<Cpu> {
    var at := s.pc - BASE;
    if !(0 <= at < 256) || at + OpcodeLength(p[at]) > 256 then None
    else
      var lo := if at + 1 < 256 then p[at + 1] else 0;
      var hi := if at + 2 < 256 then p[at + 2] else 0;
      var word: int := lo as int + hi as int * 0x100;
      var branch: int := s.pc + 2 + (if lo < 0x80 then lo as int else lo as int - 0x100);
      match p[at]
      case 0x18 => Some(s.(pc := s.pc + 1, carry := false))
      case 0x38 => Some(s.(pc := s.pc + 1, carry := true))
      case 0x90 => Some(s.(pc := if s.carry then s.pc + 2 else branch))
      case 0x50 => Some(s.(pc := if s.overflow then s.pc + 2 else branch))
      case 0x4C => Some(s.(pc := word))
      case 0x20 => Some(s.(pc := word, stack := [s.pc + 2] + s.stack))
      case 0x60 => if s.stack == [] then None else Some(s.(pc := s.stack[0] + 1, stack := s.stack[1..]))
      case 0xA0 => Some(s.(pc := s.pc + 2, y := lo, negative := lo >= 0x80, zero := lo == 0))
      case 0xA2 => Some(s.(pc := s.pc + 2, x := lo, negative := lo >= 0x80, zero := lo == 0))
      case 0x84 => Some(s.(pc := s.pc + 2, writes := s.writes + [(lo as int, s.y)]))
      case 0x8E => Some(s.(pc := s.pc + 3, writes := s.writes + [(word, s.x)]))
      case 0x8D => Some(s.(pc := s.pc + 3, writes := s.writes + [(word, s.a)]))
      case _ => None
  }

  /** An instruction runs exactly when all its bytes lie in the page and it is one of the twelve; a return needs a
      return address. One that is neither a branch, a jump, a call nor a return hands on to the instruction behind it.
      */
  lemma WholeInstructions(p: Page, s: Cpu)
    ensures Step(p, s).Some? <==>
      var at := s.pc - BASE;
      && 0 <= at <= 0xFF
      && (p[at] in {0x18, 0x38} || (p[at] == 0x60 && s.stack != [])
          || (p[at] in {0x90, 0x50, 0xA0, 0xA2, 0x84} && at <= 0xFE)
          || (p[at] in {0x4C, 0x20, 0x8E, 0x8D} && at <= 0xFD))
    ensures Step(p, s).Some? && p[s.pc - BASE] !in {0x90, 0x50, 0x4C, 0x20, 0x60} ==>
      Step(p, s).value.pc == s.pc + OpcodeLength(p[s.pc - BASE])
  {
  }

  function Run(p: Page, s: Cpu, steps: nat): Option<Cpu>
    decreases steps
  {
    if steps == 0 then Some(s)
    else
      var next := Step(p, s);
      if next.None? then None else Run(p, next.value, steps - 1)
  }

  /** The machine after DSETUP has run from `s` and returned. */
  function AfterDsetup(s: Cpu): Cpu
    requires s.stack != []
  {
    s.(pc := s.stack[0] + 1, stack := s.stack[1..], x := 0xC7, negative := true, zero := false,
       writes := s.writes + [(0x7F8, 0xC7), (0xCFFF, s.a)])
  }

  /** BSETUP first loads and stores the slot index. */
  function AfterBsetup(s: Cpu): Cpu
    requires s.stack != []
  {
    AfterDsetup(s.(y := 0x70, writes := s.writes + [(0x26, 0x70)]))
  }

  lemma DsetupRuns(p: Page, at: nat, s: Cpu)
    requires Holds(p, at, SETUP) && s.pc == BASE + at + 4 && s.stack != []
    ensures Run(p, s, 4) == Some(AfterDsetup(s))
  {
    HeldRoutine(p, at);
    var s1 := s.(pc := s.pc + 2, x := 0xC7, negative := true, zero := false);
    var s2 := s1.(pc := s1.pc + 3, writes := s1.writes + [(0x7F8, 0xC7)]);
    var s3 := s2.(pc := s2.pc + 3, writes := s2.writes + [(0xCFFF, s.a)]);
    var s4 := s3.(pc := s3.stack[0] + 1, stack := s3.stack[1..]);
    assert Step(p, s) == Some(s1);
    assert Step(p, s1) == Some(s2);
    assert Step(p, s2) == Some(s3);
    assert Step(p, s3) == Some(s4);
    assert s4.writes == s.writes + [(0x7F8, 0xC7), (0xCFFF, s.a)];
    FourSteps(p, s, s1, s2, s3, s4);
  }

  lemma FourSteps(p: Page, s: Cpu, s1: Cpu, s2: Cpu, s3: Cpu, s4: Cpu)
    requires Step(p, s) == Some(s1) && Step(p, s1) == Some(s2) && Step(p, s2) == Some(s3) && Step(p, s3) == Some(s4)
    ensures Run(p, s, 4) == Some(s4)
  {
    hide Step;
    assert Run(p, s3, 1) == Some(s4);
    assert Run(p, s2, 2) == Some(s4);
    assert Run(p, s1, 3) == Some(s4);
  }

  lemma HeldRoutine(p: Page, at: nat)
    requires Holds(p, at, SETUP)
    ensures p[at] == 0xA0 && p[at + 1] == 0x70 && p[at + 2] == 0x84 && p[at + 3] == 0x26
    ensures p[at + 4] == 0xA2 && p[at + 5] == 0xC7 && p[at + 6] == 0x8E && p[at + 7] == 0xF8 && p[at + 8] == 0x07
    ensures p[at + 9] == 0x8D && p[at + 10] == 0xFF && p[at + 11] == 0xCF && p[at + 12] == 0x60
  {
    forall k | 0 <= k < |SETUP|
      ensures p[at + k] == SETUP[k]
    {
      HeldByte(p, at, SETUP, k);
    }
    assert p[at + 0] == SETUP[0];
  }

  lemma BsetupRuns(p: Page, at: nat, s: Cpu)
    requires Holds(p, at, SETUP) && s.pc == BASE + at && s.stack != []
    ensures Run(p, s, 6) == Some(AfterBsetup(s))
  {
    var s2 := s.(pc := s.pc + 4, y := 0x70, negative := false, zero := false, writes := s.writes + [(0x26, 0x70)]);
    hide Step, Run, Holds;
    SlotLoads(p, at, s);
    DsetupRuns(p, at, s2);
    ReturnsAlike(s2, s.pc + 4);
    assert AfterDsetup(s2) == AfterBsetup(s);
  }

  lemma SlotLoads(p: Page, at: nat, s: Cpu)
    requires Holds(p, at, SETUP) && s.pc == BASE + at
    ensures Run(p, s, 6) ==
            Run(p, s.(pc := s.pc + 4, y := 0x70, negative := false, zero := false,
                writes := s.writes + [(0x26, 0x70)]), 4)
  {
    HeldRoutine(p, at);
    var s1 := s.(pc := s.pc + 2, y := 0x70, negative := false, zero := false);
    var s2 := s1.(pc := s1.pc + 2, writes := s1.writes + [(0x26, 0x70)]);
    assert Step(p, s) == Some(s1);
    assert Step(p, s1) == Some(s2);
    TwoMore(p, s, s1, s2);
  }

  lemma TwoMore(p: Page, s: Cpu, s1: Cpu, s2: Cpu)
    requires Step(p, s) == Some(s1) && Step(p, s1) == Some(s2)
    ensures Run(p, s, 6) == Run(p, s2, 4)
  {
    hide Step;
    assert Run(p, s1, 5) == Run(p, s2, 4);
  }

  lemma CallRuns(p: Page, i: int, off: int, s: Cpu, steps: nat)
    requires IsJsr(p, i, off) && s.pc == BASE + i
    ensures Run(p, s, steps + 1) == Run(p, s.(pc := BASE + off, stack := [s.pc + 2] + s.stack), steps)
  {
  }

  lemma JumpRuns(p: Page, s: Cpu, at: int, target: int)
    requires 0 <= at < 254 && p[at] == 0x4C && p[at + 1] == target && p[at + 2] == 0xC7 && s.pc == BASE + at
    ensures Run(p, s, 1) == Some(s.(pc := BASE + target))
  {
    assert Run(p, s.(pc := BASE + target), 0) == Some(s.(pc := BASE + target));
  }

  lemma BranchRuns(p: Page, s: Cpu, steps: nat)
    requires p[0x09] == 0x50 && p[0x0A] == 0x4C && s.pc == BASE + 0x09 && !s.overflow
    ensures Run(p, s, steps + 1) == Run(p, s.(pc := BASE + TRAMPOLINE), steps)
  {
  }

  /** Whatever the machine state, the ProDOS entry jumps to DISK, the SmartPort entry to DISK + 3, and the boot branch,
      while it is intact and V is clear, to DENTRY. */
  lemma EntriesReachTheirTargets(p: Page, l: Labels, s: Cpu)
    requires Expected(p, l)
    ensures var q := Patched(p, l);
            && (s.pc == BASE + 0x0A ==> Run(q, s, 1) == Some(s.(pc := BASE + l.disk)))
            && (s.pc == BASE + 0x0D ==> Run(q, s, 1) == Some(s.(pc := BASE + l.disk + 3)))
            && (s.pc == BASE + 0x09 && !s.overflow && q[0x09] == 0x50
                ==> Run(q, s, 2) == Some(s.(pc := BASE + l.dentry)))
  {
    hide *;
    FixedBytes(p, l);
    EntryCodeRuns(Patched(p, l), l.disk, l.dentry, s);
  }

  lemma EntryCodeRuns(q: Page, disk: int, dentry: int, s: Cpu)
    requires q[0x0A] == 0x4C && q[0x0B] == disk && q[0x0C] == 0xC7
    requires q[0x0D] == 0x4C && q[0x0E] == disk + 3 && q[0x0F] == 0xC7
    requires q[0x57] == 0x4C && q[0x58] == dentry && q[0x59] == 0xC7
    ensures s.pc == BASE + 0x0A ==> Run(q, s, 1) == Some(s.(pc := BASE + disk))
    ensures s.pc == BASE + 0x0D ==> Run(q, s, 1) == Some(s.(pc := BASE + disk + 3))
    ensures s.pc == BASE + 0x09 && !s.overflow && q[0x09] == 0x50 ==> Run(q, s, 2) == Some(s.(pc := BASE + dentry))
  {
    hide Run;
    if s.pc == BASE + 0x0A {
      JumpRuns(q, s, 0x0A, disk);
    } else if s.pc == BASE + 0x0D {
      JumpRuns(q, s, 0x0D, disk + 3);
    } else if s.pc == BASE + 0x09 && !s.overflow && q[0x09] == 0x50 {
      BranchRuns(q, s, 1);
      JumpRuns(q, s.(pc := BASE + TRAMPOLINE), TRAMPOLINE, dentry);
    }
  }

  /** The boot branch survives the patch exactly when no redirected call stands at Cn08, where the branch opcode would
      be its operand. The final check of the patch looks at the displacement only. */
  lemma BootBranchIntactIff(p: Page, l: Labels)
    requires Expected(p, l)
    ensures Patched(p, l)[0x09] == 0x50 <==> !IsCallOperand(p, l, 0x09)
  {
    hide Patched, WithSetup;
    EntriesAreFixed(p, l, 0x09);
    SetupBytes(p, l, 0x09);
    if InSetup(l, 0x09) {
      HeldByte(p, l.bsetup, SETUP, 0x09 - l.bsetup);
    }
  }

  /** A call of BSETUP or DSETUP that became one of the moved routine has the same effect as before: same registers,
      flags, stores, stack and return address. */
  lemma RedirectedCallsBehaveAlike(p: Page, l: Labels, i: int, s: Cpu)
    requires Expected(p, l) && s.pc == BASE + i
    ensures IsJsr(p, i, l.bsetup) && IsJsr(Patched(p, l), i, RELOCATED) ==>
      Run(p, s, 7) == Run(Patched(p, l), s, 7) != None
    ensures IsJsr(p, i, l.dsetup) && IsJsr(Patched(p, l), i, RELOCATED + 4) ==>
      Run(p, s, 5) == Run(Patched(p, l), s, 5) != None
  {
    hide Patched, Run, AfterDsetup, AfterBsetup;
    var q := Patched(p, l);
    RoutineIsMoved(p, l);
    if IsJsr(p, i, l.bsetup) && IsJsr(q, i, RELOCATED) {
      var there := s.(pc := BASE + l.bsetup, stack := [s.pc + 2] + s.stack);
      CallRuns(p, i, l.bsetup, s, 6);
      CallRuns(q, i, RELOCATED, s, 6);
      BsetupRuns(p, l.bsetup, there);
      BsetupRuns(q, RELOCATED, there.(pc := BASE + RELOCATED));
      ReturnsAlike(there, BASE + RELOCATED);
    } else if IsJsr(p, i, l.dsetup) && IsJsr(q, i, RELOCATED + 4) {
      var there := s.(pc := BASE + l.dsetup, stack := [s.pc + 2] + s.stack);
      CallRuns(p, i, l.dsetup, s, 4);
      CallRuns(q, i, RELOCATED + 4, s, 4);
      DsetupRuns(p, l.bsetup, there);
      DsetupRuns(q, RELOCATED, there.(pc := BASE + RELOCATED + 4));
      ReturnsAlike(there, BASE + RELOCATED + 4);
    }
  }

  /** So a former call clear of the fixed places behaves as before. */
  lemma CallsBehaveAlike(p: Page, l: Labels, i: int, s: Cpu)
    requires Expected(p, l) && s.pc == BASE + i
    requires !Fixed(i) && !Fixed(i + 1) && !Fixed(i + 2)
    ensures IsJsr(p, i, l.bsetup) ==> Run(p, s, 7) == Run(Patched(p, l), s, 7) != None
    ensures IsJsr(p, i, l.dsetup) ==> Run(p, s, 5) == Run(Patched(p, l), s, 5) != None
  {
    hide Patched, Run;
    RedirectedCallsBehaveAlike(p, l, i, s);
    if IsJsr(p, i, l.bsetup) {
      CallIsRedirected(p, l, i, l.bsetup);
    } else if IsJsr(p, i, l.dsetup) {
      CallIsRedirected(p, l, i, l.dsetup);
    }
  }

  lemma ReturnsAlike(s: Cpu, pc: int)
    requires s.stack != []
    ensures AfterBsetup(s.(pc := pc)) == AfterBsetup(s) && AfterDsetup(s.(pc := pc)) == AfterDsetup(s)
  {
  }

  datatype PatchError =
    | LabelsOutsidePage | UnexpectedEntry | NoAutostartBranch | UnexpectedSetup | AreaNotEmpty | NothingRetargeted

  method Put(page: array<byte>, at: nat, bytes: seq<byte>)
    requires page.Length == 256 && at + |bytes| <= 256
    modifies page
    ensures page[..] == Splice(old(page[..]), at, bytes)
  {
    forall k | 0 <= k < |bytes| {
      page[at + k] := bytes[k];
    }
  }

  /** `apply_appletini_entries`: a page of the expected shape with at least one call of each routine and an empty probe
      area is rewritten in place; any other is refused. */
  method ApplyEntries(page: array<byte>, l: Labels) returns (r: Result<(), PatchError>)
    requires page.Length == 256
    modifies page
    ensures r.Ok? <==> Accepted(old(page[..]), l)
    ensures r.Ok? ==> page[..] == Patched(old(page[..]), l)
  {
    hide WithSetup, IsJsr, Holds;
    ghost var p: Page := page[..];
    if !l.InPage() {
      return Err(LabelsOutsidePage);
    }
    if !Holds(page[..], l.disk, DISK_ENTRY) || page[l.disk + 3] != 0x38 {
      return Err(UnexpectedEntry);
    }
    if page[0x09] != 0x50 {
      return Err(NoAutostartBranch);
    }
    if !Holds(page[..], l.bsetup, SETUP) || l.dsetup != l.bsetup + 4 {
      return Err(UnexpectedSetup);
    }
    if !Holds(page[..], RELOCATED, seq(|SETUP|, _ => 0)) {
      return Err(AreaNotEmpty);
    }
    Put(page, RELOCATED, SETUP);
    CountsAgree(p, l);
    ScanIsRetargetingIff(page[..], l.bsetup, RELOCATED);
    var count := PatchAbsJsr(page, l.bsetup, RELOCATED);
    if count == 0 {
      return Err(NothingRetargeted);
    }
    ScanIsRetargetingIff(page[..], l.dsetup, RELOCATED + 4);
    count := PatchAbsJsr(page, l.dsetup, RELOCATED + 4);
    if count == 0 {
      return Err(NothingRetargeted);
    }
    HeldFits(p, l.bsetup, SETUP);
    Put(page, l.bsetup, seq(|SETUP|, _ => 0));
    assert page[..] == WithSetup(p, l) by { SetupInLayers(p, l); }
    Put(page, 0x0A, [0x4C, l.disk, 0xC7]);
    Put(page, 0x0D, [0x4C, l.disk + 3, 0xC7]);
    Put(page, TRAMPOLINE, [0x4C, l.dentry, 0xC7]);
    if !Holds(page[..], PROBE, seq(|SIGNATURE|, _ => 0)) {
      return Err(AreaNotEmpty);
    }
    Put(page, PROBE, SIGNATURE);
    page[0xFF] := 0x0A;
    assert page[..] == Patched(p, l);
    r := Ok(());
  }

  lemma SetupInLayers(p: Page, l: Labels)
    requires Expected(p, l)
    ensures l.bsetup + |SETUP| <= 256
    ensures var q := Retargeted(Splice(p, RELOCATED, SETUP), l.bsetup, RELOCATED);
            WithSetup(p, l) == Splice(Retargeted(q, l.dsetup, RELOCATED + 4), l.bsetup, seq(|SETUP|, _ => 0))
  {
    HeldFits(p, l.bsetup, SETUP);
  }

  /** The two scans count a call exactly when the original page has one. */
  lemma CountsAgree(p: Page, l: Labels)
    requires Expected(p, l)
    ensures var m := Splice(p, RELOCATED, SETUP);
            && (Calls(m, l.bsetup, 254) > 0 <==> exists i | 0 <= i < 254 :: IsJsr(p, i, l.bsetup))
            && (Calls(Retargeted(m, l.bsetup, RELOCATED), l.dsetup, 254) > 0
                <==> exists i | 0 <= i < 254 :: IsJsr(p, i, l.dsetup))
  {
    hide IsJsr;
    SetupIsClear(p, l);
    var m := Splice(p, RELOCATED, SETUP);
    CallsFound(m, l.bsetup, 254);
    CallsFound(Retargeted(m, l.bsetup, RELOCATED), l.dsetup, 254);
    forall i
      ensures IsJsr(m, i, l.bsetup) <==> IsJsr(p, i, l.bsetup)
      ensures IsJsr(Retargeted(m, l.bsetup, RELOCATED), i, l.dsetup) <==> IsJsr(p, i, l.dsetup)
    {
      MovingKeepsCalls(p, l, i, l.bsetup);
      MovingKeepsCalls(p, l, i, l.dsetup);
      RedirectionsAreIndependent(m, l.bsetup, i);
    }
  }
}
