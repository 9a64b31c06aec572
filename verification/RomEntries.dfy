/** Which code of the SmartPort slot page survives the entry patch, and what the patched entries then run. */
module RomEntries {
  import opened Bytes
  import opened RomPatch

  // ----- every byte of the patched page -----

  /** The entry jumps, the trampoline and the last byte, which are written without a look at what was there. */
  predicate InEntries(k: int) {
    0x0A <= k < 0x10 || TRAMPOLINE <= k < TRAMPOLINE + 3 || k == 0xFF
  }

  function EntryByte(l: Labels, k: int): byte
    requires l.InPage() && InEntries(k)
  {
    if k == 0xFF then 0x0A
    else if k in {0x0A, 0x0D, TRAMPOLINE} then 0x4C
    else if k in {0x0C, 0x0F, TRAMPOLINE + 2} then 0xC7
    else if k == 0x0B then l.disk
    else if k == 0x0E then l.disk + 3
    else l.dentry
  }

  predicate InMoved(k: int) {
    RELOCATED <= k < RELOCATED + |SETUP|
  }

  predicate InProbe(k: int) {
    PROBE <= k < PROBE + |SIGNATURE|
  }

  lemma PatchedByte(p: Page, l: Labels, k: int)
    requires Expected(p, l) && 0 <= k < 256
    ensures Patched(p, l)[k] ==
            if InEntries(k) then EntryByte(l, k) else if InProbe(k) then SIGNATURE[k - PROBE] else WithSetup(p, l)[k]
    ensures InProbe(k) ==> WithEntries(p, l)[k] == WithSetup(p, l)[k]
  {
    hide Expected, IsJsr, WithSetup;
  }

  /** In an accepted page the probe area is empty, or becomes so with the old routine. */
  lemma ProbeWasFree(p: Page, l: Labels, k: int)
    requires Accepted(p, l) && InProbe(k)
    ensures WithSetup(p, l)[k] == 0
  {
    hide WithSetup, IsJsr, Expected;
    PatchedByte(p, l, k);
    HeldByte(WithEntries(p, l), PROBE, seq(|SIGNATURE|, _ => 0), k - PROBE);
  }

  /** The pages that are patched, read off the page alone: every label lies in it, DISK begins with its four bytes, the
      branch opcode stands at Cn09, the routine stands whole at BSETUP with DSETUP four bytes in, its new place is
      empty, both parts are called, and the probe area is empty but for the old routine, with no call's operand in it.
      */
  lemma AcceptedIff(p: Page, l: Labels)
    ensures Accepted(p, l) <==>
      && 0 <= l.disk <= 0xFC && 0 <= l.dentry <= 0xFF && 0 <= l.bsetup <= 0xF3 && l.dsetup == l.bsetup + 4
      && p[l.disk] == 0x18 && p[l.disk + 1] == 0x90 && p[l.disk + 2] == 0x01 && p[l.disk + 3] == 0x38
      && p[0x09] == 0x50 && (forall k | 0 <= k < 13 :: p[l.bsetup + k] == SETUP[k])
      && (forall k | 0xA0 <= k < 0xAD :: p[k] == 0)
      && (exists i | 0 <= i < 254 :: IsJsr(p, i, l.bsetup)) && (exists i | 0 <= i < 254 :: IsJsr(p, i, l.dsetup))
      && forall k | 0xB0 <= k < 0xB8 :: InSetup(l, k) || (p[k] == 0 && !IsCallOperand(p, l, k))
  {
    hide WithSetup, IsJsr, WithEntries, IsCallOperand;
    ExpectedIff(p, l);
    if Expected(p, l) {
      hide Expected, Holds;
      HoldsZerosIff(WithEntries(p, l), PROBE, 8);
      forall k | 0xB0 <= k < 0xB8
        ensures WithEntries(p, l)[k] == 0 <==> InSetup(l, k) || (p[k] == 0 && !IsCallOperand(p, l, k))
      {
        PatchedByte(p, l, k);
        ProbeByte(p, l, k);
      }
    }
  }

  lemma ProbeByte(p: Page, l: Labels, k: int)
    requires Expected(p, l) && 0xB0 <= k < 0xB8
    ensures WithSetup(p, l)[k] == 0 <==> InSetup(l, k) || (p[k] == 0 && !IsCallOperand(p, l, k))
  {
    hide WithSetup, IsJsr, Expected;
    SetupBytes(p, l, k);
  }

  lemma ExpectedIff(p: Page, l: Labels)
    ensures Expected(p, l) <==>
      && 0 <= l.disk <= 0xFC && 0 <= l.dentry <= 0xFF && 0 <= l.bsetup <= 0xF3 && l.dsetup == l.bsetup + 4
      && p[l.disk] == 0x18 && p[l.disk + 1] == 0x90 && p[l.disk + 2] == 0x01 && p[l.disk + 3] == 0x38
      && p[0x09] == 0x50 && (forall k | 0 <= k < 13 :: p[l.bsetup + k] == SETUP[k])
      && (forall k | 0xA0 <= k < 0xAD :: p[k] == 0)
  {
    ExpectedFits(p, l);
    if 0 <= l.disk <= 0xFC && 0 <= l.bsetup <= 0xF3 {
      HoldsIff(p, l.disk, DISK_ENTRY);
      HoldsIff(p, l.bsetup, SETUP);
      HoldsZerosIff(p, RELOCATED, 13);
      FourBytes(p, l.disk);
      hide Holds;
    }
  }

  lemma ExpectedFits(p: Page, l: Labels)
    ensures Expected(p, l) ==> 0 <= l.disk <= 0xFC && 0 <= l.bsetup <= 0xF3
  {
  }

  lemma FourBytes(p: Page, at: nat)
    requires at <= 0xFC
    ensures (forall k | 0 <= k < 4 :: p[at + k] == DISK_ENTRY[k])
            <==> p[at] == 0x18 && p[at + 1] == 0x90 && p[at + 2] == 0x01 && p[at + 3] == 0x38
  {
    if forall k | 0 <= k < 4 :: p[at + k] == DISK_ENTRY[k] {
      assert p[at + 0] == DISK_ENTRY[0] && p[at + 1] == DISK_ENTRY[1];
      assert p[at + 2] == DISK_ENTRY[2] && p[at + 3] == DISK_ENTRY[3];
    }
  }

  lemma HoldsIff(p: Page, at: nat, bytes: seq<byte>)
    requires at + |bytes| <= 256
    ensures Holds(p, at, bytes) <==> forall k | 0 <= k < |bytes| :: p[at + k] == bytes[k]
  {
    if forall k | 0 <= k < |bytes| :: p[at + k] == bytes[k] {
      assert p[at..at + |bytes|] == bytes;
    } else {
      var k :| 0 <= k < |bytes| && p[at + k] != bytes[k];
      assert p[at..at + |bytes|][k] != bytes[k];
    }
  }

  lemma HoldsZerosIff(p: Page, at: nat, n: nat)
    requires at + n <= 256
    ensures Holds(p, at, seq(n, _ => 0)) <==> forall k | at <= k < at + n :: p[k] == 0
  {
    var part := p[at..at + n];
    assert forall k | 0 <= k < n :: part[k] == p[at + k];
    assert forall k | at <= k < at + n :: p[k] == part[k - at];
    assert part == seq(n, _ => 0) <==> forall k | 0 <= k < n :: part[k] == 0;
  }

  lemma SetupByteIsNot(p: Page, l: Labels, k: int)
    requires Expected(p, l) && InSetup(l, k)
    ensures 0 <= k < 256 && p[k] != 0 && !InMoved(k) && (InProbe(k) ==> p[k] != SIGNATURE[k - PROBE])
    ensures p[k] !in DISK_ENTRY
  {
    HeldFits(p, l.bsetup, SETUP);
    HeldByte(p, l.bsetup, SETUP, k - l.bsetup);
    SetupIsClear(p, l);
  }

  lemma MovedByteWasZero(p: Page, l: Labels, k: int)
    requires Expected(p, l) && InMoved(k)
    ensures p[k] == 0 && SETUP[k - RELOCATED] != 0
  {
    HeldByte(p, RELOCATED, seq(|SETUP|, _ => 0), k - RELOCATED);
  }

  /** A byte of an accepted page survives the patch exactly when it lies outside everything the patch rewrites, or in
      an entry place that already held the byte written there. */
  lemma ByteSurvivesIff(p: Page, l: Labels, k: int)
    requires Accepted(p, l) && 0 <= k < 256
    ensures Patched(p, l)[k] == p[k] <==>
            if InEntries(k) then p[k] == EntryByte(l, k)
            else !InSetup(l, k) && !InMoved(k) && !InProbe(k) && !IsCallOperand(p, l, k)
  {
    hide Patched, WithSetup, Holds;
    PatchedByte(p, l, k);
    SetupBytes(p, l, k);
    SetupIsClear(p, l);
    if InSetup(l, k) {
      SetupByteIsNot(p, l, k);
    }
    if InMoved(k) {
      MovedByteWasZero(p, l, k);
    }
    if InProbe(k) {
      ProbeWasFree(p, l, k);
    }
  }

  // ----- the code behind the entries -----

  /** None of the four bytes at DISK lies where the patch puts its entries. */
  predicate DiskIsClear(l: Labels) {
    forall k | l.disk <= k < l.disk + 4 :: !InEntries(k)
  }

  /** The patch keeps the code at DISK exactly when it lies clear of the entry places, the last byte included. */
  lemma DiskSurvivesIff(p: Page, l: Labels)
    requires Accepted(p, l)
    ensures Holds(Patched(p, l), l.disk, DISK_ENTRY) <==> DiskIsClear(l)
  {
    hide Patched, Expected, WithEntries;
    var q := Patched(p, l);
    DiskBytes(p, l);
    if DiskIsClear(l) {
      forall k | l.disk <= k < l.disk + 4 ensures q[k] == DISK_ENTRY[k - l.disk] {
        DiskByteIsUnwritten(p, l, k);
        ByteSurvivesIff(p, l, k);
      }
      assert q[l.disk..l.disk + 4] == DISK_ENTRY;
    } else {
      var k :| l.disk <= k < l.disk + 4 && InEntries(k);
      EntriesBreakDisk(p, l, k);
    }
  }

  lemma DiskBytes(p: Page, l: Labels)
    requires Accepted(p, l)
    ensures l.InPage() && 0 <= l.disk && l.disk + 4 <= 256 && p[0x09] == 0x50
    ensures p[l.disk] == 0x18 && p[l.disk + 1] == 0x90 && p[l.disk + 2] == 0x01 && p[l.disk + 3] == 0x38
  {
    HeldByte(p, l.disk, DISK_ENTRY, 0);
    HeldByte(p, l.disk, DISK_ENTRY, 1);
    HeldByte(p, l.disk, DISK_ENTRY, 2);
    HeldByte(p, l.disk, DISK_ENTRY, 3);
  }

  /** The code at DISK never lies in the old routine, the free areas or a call's operand. */
  lemma DiskByteIsUnwritten(p: Page, l: Labels, k: int)
    requires Accepted(p, l) && l.disk <= k < l.disk + 4 && !InEntries(k)
    ensures 0 <= k < 256 && !InSetup(l, k) && !InMoved(k) && !InProbe(k) && !IsCallOperand(p, l, k)
  {
    hide Patched, WithSetup, WithEntries, Holds;
    DiskBytes(p, l);
    assert p[k] in DISK_ENTRY by {
      assert p[k] == DISK_ENTRY[k - l.disk];
    }
    if InSetup(l, k) {
      SetupByteIsNot(p, l, k);
    }
    if InMoved(k) {
      MovedByteWasZero(p, l, k);
    }
    if InProbe(k) {
      ProbeWasFree(p, l, k);
      SetupBytes(p, l, k);
    }
  }

  lemma EntriesBreakDisk(p: Page, l: Labels, k: int)
    requires Accepted(p, l) && l.disk <= k < l.disk + 4 && InEntries(k)
    ensures !Holds(Patched(p, l), l.disk, DISK_ENTRY)
  {
    hide Patched, WithSetup, WithEntries, IsJsr;
    var q := Patched(p, l);
    DiskBytes(p, l);
    if Holds(q, l.disk, DISK_ENTRY) {
      HeldByte(q, l.disk, DISK_ENTRY, 0);
      HeldByte(q, l.disk, DISK_ENTRY, 1);
      HeldByte(q, l.disk, DISK_ENTRY, 2);
      HeldByte(q, l.disk, DISK_ENTRY, 3);
      FixedBytes(p, l);
    }
  }

  /** Under exactly that condition the code of both entries runs as on the original page: from Cn0A the processor
      reaches the instruction behind DISK's prologue with carry clear, from Cn0D with carry set. */
  lemma EntriesRunTheirCode(p: Page, l: Labels, s: Cpu)
    requires Accepted(p, l) && DiskIsClear(l)
    ensures var q := Patched(p, l);
            && (s.pc == BASE + 0x0A ==> Run(q, s, 3) == Some(s.(pc := BASE + l.disk + 4, carry := false)))
            && (s.pc == BASE + 0x0D ==> Run(q, s, 2) == Some(s.(pc := BASE + l.disk + 4, carry := true)))
            && (s.pc == BASE + l.disk
                ==> Run(p, s, 2) == Run(q, s, 2) == Some(s.(pc := BASE + l.disk + 4, carry := false)))
            && (s.pc == BASE + l.disk + 3
                ==> Run(p, s, 1) == Run(q, s, 1) == Some(s.(pc := BASE + l.disk + 4, carry := true)))
  {
    hide Patched, Expected, WithEntries, Holds, Run, DiskIsClear;
    DiskRunsAlike(p, l, s);
    EntriesReachDisk(p, l, s);
  }

  lemma DiskRunsAlike(p: Page, l: Labels, s: Cpu)
    requires Accepted(p, l) && DiskIsClear(l)
    ensures var q := Patched(p, l);
            && (s.pc == BASE + l.disk
                ==> Run(p, s, 2) == Run(q, s, 2) == Some(s.(pc := BASE + l.disk + 4, carry := false)))
            && (s.pc == BASE + l.disk + 3
                ==> Run(p, s, 1) == Run(q, s, 1) == Some(s.(pc := BASE + l.disk + 4, carry := true)))
  {
    hide Patched, Expected, WithEntries, Holds, Run, Step;
    var q := Patched(p, l);
    DiskBytes(p, l);
    DiskSurvivesIff(p, l);
    if s.pc == BASE + l.disk {
      PrologueRuns(p, l.disk, s);
      PrologueRuns(q, l.disk, s);
    }
    if s.pc == BASE + l.disk + 3 {
      SmartPortRuns(p, l.disk, s);
      SmartPortRuns(q, l.disk, s);
    }
  }

  lemma EntriesReachDisk(p: Page, l: Labels, s: Cpu)
    requires Accepted(p, l) && DiskIsClear(l)
    ensures var q := Patched(p, l);
            && (s.pc == BASE + 0x0A ==> Run(q, s, 3) == Some(s.(pc := BASE + l.disk + 4, carry := false)))
            && (s.pc == BASE + 0x0D ==> Run(q, s, 2) == Some(s.(pc := BASE + l.disk + 4, carry := true)))
  {
    hide Patched, Expected, WithEntries, Holds, Run, Step;
    var q := Patched(p, l);
    DiskBytes(p, l);
    DiskSurvivesIff(p, l);
    FixedBytes(p, l);
    if s.pc == BASE + 0x0A {
      JumpThen(q, s, 0x0A, l.disk, 2);
      PrologueRuns(q, l.disk, s.(pc := BASE + l.disk));
    }
    if s.pc == BASE + 0x0D {
      JumpThen(q, s, 0x0D, l.disk + 3, 1);
      SmartPortRuns(q, l.disk, s.(pc := BASE + l.disk + 3));
    }
  }

  lemma PrologueRuns(p: Page, disk: nat, s: Cpu)
    requires Holds(p, disk, DISK_ENTRY) && s.pc == BASE + disk
    ensures Run(p, s, 2) == Some(s.(pc := BASE + disk + 4, carry := false))
  {
    HeldByte(p, disk, DISK_ENTRY, 0);
    HeldByte(p, disk, DISK_ENTRY, 1);
    HeldByte(p, disk, DISK_ENTRY, 2);
    var s1 := s.(pc := s.pc + 1, carry := false);
    var s2 := s1.(pc := BASE + disk + 4);
    assert Step(p, s) == Some(s1);
    assert Step(p, s1) == Some(s2);
    assert Run(p, s2, 0) == Some(s2);
    assert Run(p, s1, 1) == Some(s2);
  }

  lemma SmartPortRuns(p: Page, disk: nat, s: Cpu)
    requires Holds(p, disk, DISK_ENTRY) && s.pc == BASE + disk + 3
    ensures Run(p, s, 1) == Some(s.(pc := BASE + disk + 4, carry := true))
  {
    HeldByte(p, disk, DISK_ENTRY, 3);
    var s1 := s.(pc := s.pc + 1, carry := true);
    assert Step(p, s) == Some(s1);
    assert Run(p, s1, 0) == Some(s1);
  }

  lemma JumpThen(p: Page, s: Cpu, at: int, target: int, steps: nat)
    requires 0 <= at < 254 && p[at] == 0x4C && p[at + 1] == target && p[at + 2] == 0xC7 && s.pc == BASE + at
    ensures Run(p, s, steps + 1) == Run(p, s.(pc := BASE + target), steps)
  {
  }

  /** The boot branch, while its opcode survives and V is clear, reaches DENTRY; the byte it finds there is the
      original one exactly when DENTRY lies clear of the patch or in an entry place that already held its byte. */
  lemma BootReachesDentry(p: Page, l: Labels, s: Cpu)
    requires Accepted(p, l) && s.pc == BASE + 0x09 && !s.overflow && !IsCallOperand(p, l, 0x09)
    ensures Run(Patched(p, l), s, 2) == Some(s.(pc := BASE + l.dentry))
    ensures 0 <= l.dentry < 256
    ensures Patched(p, l)[l.dentry] == p[l.dentry] <==>
            if InEntries(l.dentry) then p[l.dentry] == EntryByte(l, l.dentry)
            else !InSetup(l, l.dentry) && !InMoved(l.dentry) && !InProbe(l.dentry) && !IsCallOperand(p, l, l.dentry)
  {
    hide Patched, Run, WithSetup, WithEntries, IsCallOperand;
    BootBranchIntactIff(p, l);
    EntriesReachTheirTargets(p, l, s);
    ByteSurvivesIff(p, l, l.dentry);
  }

  // ----- the former calls -----

  /** No byte of a former call lies in the probe area. */
  lemma CallAvoidsProbe(p: Page, l: Labels, i: int, off: int)
    requires Accepted(p, l) && off in {l.bsetup, l.dsetup} && IsJsr(p, i, off)
    ensures !InProbe(i) && !InProbe(i + 1) && !InProbe(i + 2)
  {
    hide WithSetup, WithEntries, Holds, Patched;
    ClearOfOldRoutine(p, l, i, off);
    CallsAvoidTheRoutine(p, l, i, off);
    forall k | i <= k <= i + 2 && InProbe(k) ensures false {
      ProbeWasFree(p, l, k);
      SetupBytes(p, l, k);
    }
  }

  /** In an accepted page a former call becomes a call of the moved routine exactly when none of its three bytes lies in
      an entry place. */
  lemma CallIsRedirectedIff(p: Page, l: Labels, i: int, off: int)
    requires Accepted(p, l) && off in {l.bsetup, l.dsetup} && IsJsr(p, i, off)
    ensures IsJsr(Patched(p, l), i, off - l.bsetup + RELOCATED)
            <==> !InEntries(i) && !InEntries(i + 1) && !InEntries(i + 2)
  {
    hide WithSetup, WithEntries, Holds, Patched;
    ClearOfOldRoutine(p, l, i, off);
    CallsAvoidTheRoutine(p, l, i, off);
    CallAvoidsProbe(p, l, i, off);
    DiskBytes(p, l);
    forall k | i <= k <= i + 2
      ensures Patched(p, l)[k] == if InEntries(k) then EntryByte(l, k) else WithSetup(p, l)[k]
    {
      PatchedByte(p, l, k);
    }
    SetupBytes(p, l, i);
    SetupBytes(p, l, i + 1);
    SetupBytes(p, l, i + 2);
  }

  /** Such a call has the same effect on the patched page as on the original one. */
  lemma ClearCallsBehaveAlike(p: Page, l: Labels, i: int, s: Cpu)
    requires Accepted(p, l) && s.pc == BASE + i && !InEntries(i) && !InEntries(i + 1) && !InEntries(i + 2)
    ensures IsJsr(p, i, l.bsetup) ==> Run(p, s, 7) == Run(Patched(p, l), s, 7) != None
    ensures IsJsr(p, i, l.dsetup) ==> Run(p, s, 5) == Run(Patched(p, l), s, 5) != None
  {
    hide Patched, WithSetup, WithEntries, Holds, Run;
    if IsJsr(p, i, l.bsetup) {
      CallIsRedirectedIff(p, l, i, l.bsetup);
      RedirectedCallsBehaveAlike(p, l, i, s);
    } else if IsJsr(p, i, l.dsetup) {
      CallIsRedirectedIff(p, l, i, l.dsetup);
      RedirectedCallsBehaveAlike(p, l, i, s);
    }
  }

  // ----- accepted pages whose entries are lost -----

  lemma AcceptedWhenFree(p: Page, l: Labels, i: nat, j: nat)
    requires Expected(p, l) && l.bsetup > 0 && i < 254 && j < 254 && IsJsr(p, i, l.bsetup) && IsJsr(p, j, l.dsetup)
    requires forall k | InProbe(k) :: p[k] == 0
    ensures Accepted(p, l)
  {
    hide WithSetup, WithEntries, Holds;
    var q := WithEntries(p, l);
    forall k | InProbe(k) ensures q[k] == 0 {
      PatchedByte(p, l, k);
      SetupBytes(p, l, k);
    }
    HoldsZeros(q);
  }

  lemma HoldsZeros(q: Page)
    requires forall k | InProbe(k) :: q[k] == 0
    ensures Holds(q, PROBE, seq(|SIGNATURE|, _ => 0))
  {
    var area := q[PROBE..PROBE + |SIGNATURE|];
    forall k | 0 <= k < |SIGNATURE| ensures area[k] == 0 {
      assert InProbe(PROBE + k);
    }
    assert area == seq(|SIGNATURE|, _ => 0);
  }

  function Zeros(): Page {
    seq(256, _ => 0)
  }

  /** A page with its branch, DISK, the setup routine and one call of each part of it. */
  function Layout(l: Labels, callAt: nat): Page
    requires l.InPage() && l.disk + 4 <= 256 && l.bsetup + |SETUP| <= 256 && callAt + 7 <= 256
  {
    var p := Splice(Splice(Splice(Zeros(), 0x09, [0x50]), l.disk, DISK_ENTRY), l.bsetup, SETUP);
    Splice(Splice(p, callAt, [0x20, l.bsetup, 0xC7]), callAt + 4, [0x20, l.dsetup, 0xC7])
  }

  /** DISK at Cn0A: the page is accepted, and its ProDOS entry jumps to itself for ever. */
  lemma EntryLoopsForever(s: Cpu, n: nat)
    requires s.pc == BASE + 0x0A
    ensures var l := Labels(0x0A, 0x30, 0x20, 0x24);
            Accepted(Layout(l, 0x40), l) && Run(Patched(Layout(l, 0x40), l), s, n) == Some(s)
  {
    var l := Labels(0x0A, 0x30, 0x20, 0x24);
    var p := Layout(l, 0x40);
    LoopPageIsExpected(p, l);
    hide Layout, Patched, WithEntries, WithSetup, Holds;
    AcceptedWhenFree(p, l, 0x40, 0x44);
    FixedBytes(p, l);
    JumpsToItself(Patched(p, l), s, n);
  }

  lemma LoopPageIsExpected(p: Page, l: Labels)
    requires l == Labels(0x0A, 0x30, 0x20, 0x24) && p == Layout(l, 0x40)
    ensures Expected(p, l) && IsJsr(p, 0x40, l.bsetup) && IsJsr(p, 0x44, l.dsetup)
    ensures forall k | InProbe(k) :: p[k] == 0
  {
    assert p[l.disk..l.disk + 4] == DISK_ENTRY;
    assert p[l.bsetup..l.bsetup + |SETUP|] == SETUP;
    assert p[RELOCATED..RELOCATED + |SETUP|] == seq(|SETUP|, _ => 0);
  }

  lemma {:induction false} JumpsToItself(q: Page, s: Cpu, n: nat)
    requires q[0x0A] == 0x4C && q[0x0B] == 0x0A && q[0x0C] == 0xC7 && s.pc == BASE + 0x0A
    ensures Run(q, s, n) == Some(s)
  {
    if n > 0 {
      JumpThen(q, s, 0x0A, 0x0A, n - 1);
      JumpsToItself(q, s, n - 1);
    }
  }

  /** A call of BSETUP at Cn08, with BSETUP at Cn50, is also the branch opcode: the page is accepted and loses it. */
  lemma BranchIsLost()
    ensures var l := Labels(0x30, 0x40, 0x50, 0x54);
            var p := Splice(Layout(l, 0x60), 0x08, [0x20, 0x50, 0xC7]);
            Accepted(p, l) && p[0x09] == 0x50 && Patched(p, l)[0x09] == RELOCATED
  {
    var l := Labels(0x30, 0x40, 0x50, 0x54);
    var p := Splice(Layout(l, 0x60), 0x08, [0x20, 0x50, 0xC7]);
    BranchPageIsExpected(p, l);
    hide Layout, Patched, WithEntries, WithSetup, Holds;
    AcceptedWhenFree(p, l, 0x60, 0x64);
    PatchedByte(p, l, 0x09);
    SetupBytes(p, l, 0x09);
  }

  lemma BranchPageIsExpected(p: Page, l: Labels)
    requires l == Labels(0x30, 0x40, 0x50, 0x54) && p == Splice(Layout(l, 0x60), 0x08, [0x20, 0x50, 0xC7])
    ensures Expected(p, l) && IsJsr(p, 0x60, l.bsetup) && IsJsr(p, 0x64, l.dsetup) && IsJsr(p, 0x08, l.bsetup)
    ensures forall k | InProbe(k) :: p[k] == 0
  {
    assert p[l.disk..l.disk + 4] == DISK_ENTRY;
    assert p[l.bsetup..l.bsetup + |SETUP|] == SETUP;
    assert p[RELOCATED..RELOCATED + |SETUP|] == seq(|SETUP|, _ => 0);
  }
}
