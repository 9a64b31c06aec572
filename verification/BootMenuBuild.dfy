/** Building the boot menu ROM: what the emitted image, its relocation map and its section limits are good for. */
module BootMenuBuild {
  import opened Bytes
  import opened BootMenuRom

  type Cells = s: seq<byte> | |s| == MEMORY_SIZE witness seq(MEMORY_SIZE, i => 0)

  /** The memory after the writes, in order. */
  function Apply(memory: Cells, writes: seq<Write>): Cells {
    if writes == [] then memory
    else
      var n := |writes| - 1;
      var before := Apply(memory, writes[..n]);
      if Index(writes[n].pc).Some? then before[Index(writes[n].pc).value := writes[n].value] else before
  }

  /** The relocation map after the writes. */
  function Marks(reloc: Cells, writes: seq<Write>): Cells {
    if writes == [] then reloc
    else
      var n := |writes| - 1;
      var before := Marks(reloc, writes[..n]);
      if writes[n].marked && Index(writes[n].pc).Some? then before[Index(writes[n].pc).value := 1] else before
  }

  /** One past the highest counter a section wrote at. */
  function Top(writes: seq<Write>, c8: bool): nat {
    if writes == [] then 0
    else
      var n := |writes| - 1;
      var before := Top(writes[..n], c8);
      if writes[n].c8 == c8 && writes[n].pc + 1 > before then writes[n].pc + 1 else before
  }

  function Filled(b: byte): Cells {
    seq(MEMORY_SIZE, i => b)
  }

  const BLANK: Cells := Filled(0xEA)
  const UNMARKED: Cells := Filled(0)

  /** All bytes the second pass stores. */
  function Writes(statements: seq<Statement>): seq<Write> {
    var done := PassTwo(statements, Final(statements), |statements|);
    if done.None? then [] else done.value.writes
  }

  predicate Accepted(statements: seq<Statement>) {
    && PassOne(statements, |statements|).Some? && PassTwo(statements, Final(statements), |statements|).Some?
    && Top(Writes(statements), false) <= SLOT_LIMIT && Top(Writes(statements), true) <= C8_LIMIT
  }

  // ----- what a run of the second pass stores -----

  lemma {:induction false} RunIsIndexed(statements: seq<Statement>, symbols: Symbols, k: nat)
    requires k <= |statements| && PassTwo(statements, symbols, k).Some?
    ensures AllIndexed(PassTwo(statements, symbols, k).value.writes)
  {
    hide EmitInstr, EmitData, Eval, Index;
    if k > 0 {
      RunIsIndexed(statements, symbols, k - 1);
    }
  }

  lemma {:induction false} ApplyAppends(memory: Cells, a: seq<Write>, b: seq<Write>)
    ensures Apply(memory, a + b) == Apply(Apply(memory, a), b)
    ensures Marks(memory, a + b) == Marks(Marks(memory, a), b)
  {
    if b == [] {
      assert a + b == a;
    } else {
      ApplyAppends(memory, a, b[..|b| - 1]);
      assert (a + b)[..|a + b| - 1] == a + b[..|b| - 1];
    }
  }

  /** No two writes hit the same cell. */
  ghost predicate Apart(writes: seq<Write>) {
    forall i, j | 0 <= i < j < |writes| :: Index(writes[i].pc) != Index(writes[j].pc)
  }

  lemma {:induction false} ApplyKeeps(memory: Cells, writes: seq<Write>, i: nat)
    requires AllIndexed(writes) && Apart(writes) && i < |writes|
    ensures Apply(memory, writes)[Index(writes[i].pc).value] == writes[i].value
  {
    var n := |writes| - 1;
    if i < n {
      ApplyKeeps(memory, writes[..n], i);
    }
  }

  lemma {:induction false} MarksMean(reloc: Cells, writes: seq<Write>, x: nat)
    requires x < MEMORY_SIZE
    ensures Marks(reloc, writes)[x]
        == (if exists w | w in writes :: w.marked && Index(w.pc) == Some(x) then 1 else reloc[x])
  {
    if writes != [] {
      var n := |writes| - 1;
      MarksMean(reloc, writes[..n], x);
      assert writes == writes[..n] + [writes[n]];
    }
  }

  lemma {:induction false} TopBounds(writes: seq<Write>, w: Write)
    requires w in writes
    ensures w.pc < Top(writes, w.c8)
  {
    var n := |writes| - 1;
    if w in writes[..n] {
      TopBounds(writes[..n], w);
    }
  }

  // ----- the image disassembles to the program -----

  function Disassemble(b: byte): Option<(Mnemonic, Mode)> {
    match b as int
    case 0x29 => Some((AND, Immediate))
    case 0x0A => Some((ASL, Implied))
    case 0x90 => Some((BCC, Relative))
    case 0xB0 => Some((BCS, Relative))
    case 0xF0 => Some((BEQ, Relative))
    case 0xD0 => Some((BNE, Relative))
    case 0x10 => Some((BPL, Relative))
    case 0x50 => Some((BVC, Relative))
    case 0xB8 => Some((CLV, Implied))
    case 0x38 => Some((SEC, Implied))
    case 0xC9 => Some((CMP, Immediate))
    case 0xC0 => Some((CPY, Immediate))
    case 0xC8 => Some((INY, Implied))
    case 0xE8 => Some((INX, Implied))
    case 0x4C => Some((JMP, Absolute))
    case 0x20 => Some((JSR, Absolute))
    case 0xA9 => Some((LDA, Immediate))
    case 0xAD => Some((LDA, Absolute))
    case 0xA5 => Some((LDA, ZeroPage))
    case 0xB9 => Some((LDA, AbsoluteY))
    case 0xA0 => Some((LDY, Immediate))
    case 0xAC => Some((LDY, Absolute))
    case 0xA4 => Some((LDY, ZeroPage))
    case 0xA2 => Some((LDX, Immediate))
    case 0xAE => Some((LDX, Absolute))
    case 0xA6 => Some((LDX, ZeroPage))
    case 0xCA => Some((DEX, Implied))
    case 0x88 => Some((DEY, Implied))
    case 0x48 => Some((PHA, Implied))
    case 0x68 => Some((PLA, Implied))
    case 0xEA => Some((NOP, Implied))
    case 0x60 => Some((RTS, Implied))
    case 0x8D => Some((STA, Absolute))
    case 0x85 => Some((STA, ZeroPage))
    case 0x99 => Some((STA, AbsoluteY))
    case 0x8E => Some((STX, Absolute))
    case 0x86 => Some((STX, ZeroPage))
    case 0x8C => Some((STY, Absolute))
    case 0x84 => Some((STY, ZeroPage))
    case 0xAA => Some((TAX, Implied))
    case 0xA8 => Some((TAY, Implied))
    case 0x8A => Some((TXA, Implied))
    case 0x98 => Some((TYA, Implied))
    case _ => None
  }

  lemma OpcodesAreDistinct(op: Mnemonic, mode: Mode)
    requires Opcode(op, mode).Some?
    ensures Disassemble(Opcode(op, mode).value) == Some((op, mode))
  {
  }

  function Signed(b: byte): int {
    if b as int < 0x80 then b as int else b as int - 0x100
  }

  /** What a 6502 reads as the operand of the instruction at `pc`. */
  function Operand(b: seq<byte>, mode: Mode, pc: int): int
    requires |b| == Length(mode)
  {
    match mode
    case Implied => 0
    case Immediate => b[1] as int
    case Relative => pc + 2 + Signed(b[1])
    case ZeroPage => b[1] as int
    case Absolute => b[1] as int + 0x100 * b[2] as int
    case AbsoluteY => b[1] as int + 0x100 * b[2] as int
  }

  /** What the statement asks for: only an immediate and an address may be cut to their width. */
  function Intended(form: Form, mode: Mode, symbols: Symbols, pc: int): Option<int> {
    match mode
    case Implied => Some(0)
    case Immediate => Modulo(if form.Hash? then Eval(form.immediate, symbols, pc + 1) else None, 0x100)
    case Relative => if BranchTarget(form).Some? then Eval(BranchTarget(form).value, symbols, pc + 1) else None
    case ZeroPage => if form.Direct? then Eval(form.address, symbols, pc + 1) else None
    case Absolute => Modulo(if form.Direct? then Eval(form.address, symbols, pc + 1) else None, 0x1_0000)
    case AbsoluteY => Modulo(if form.CommaY? then Eval(form.indexed, symbols, pc + 1) else None, 0x1_0000)
  }

  function Modulo(v: Option<int>, m: nat): Option<int>
    requires m > 0
  {
    if v.None? then None else Some(v.value % m)
  }

  lemma {:induction false} ResolvedIsEvaluated(e: Expr, symbols: Symbols, pc: int)
    requires TryResolve(e, symbols).Some?
    ensures Eval(e, symbols, pc) == TryResolve(e, symbols)
  {
    match e
    case Plus(a, b) => ResolvedIsEvaluated(a, symbols, pc); ResolvedIsEvaluated(b, symbols, pc);
    case Minus(a, b) => ResolvedIsEvaluated(a, symbols, pc); ResolvedIsEvaluated(b, symbols, pc);
    case _ =>
  }

  function Values(writes: seq<Write>): (s: seq<byte>)
    ensures |s| == |writes|
  {
    seq(|writes|, i requires 0 <= i < |writes| => writes[i].value)
  }

  lemma OperandBytes(op: Mnemonic, form: Form, symbols: Symbols, pc: int, c8: bool)
    requires EmitInstr(op, form, symbols, pc, c8).Some?
    ensures var w := Values(EmitInstr(op, form, symbols, pc, c8).value);
            var mode := ModeOf(op, form, symbols);
            && |w| == Length(mode) && Opcode(op, mode) == Some(w[0])
            && Intended(form, mode, symbols, pc) == Some(Operand(w, mode, pc))
  {
    hide Opcode, ModeOf, Eval, TryResolve, AddressWrites, Signed;
    var mode := ModeOf(op, form, symbols);
    match mode
    case Relative =>
      var v := Eval(BranchTarget(form).value, symbols, pc + 1).value;
      SignedByte(v - (pc + 2));
    case ZeroPage =>
      ZeroPageOperand(op, form, symbols, pc);
    case Absolute =>
      WordBytes(Eval(form.address, symbols, pc + 1).value, pc, c8);
    case AbsoluteY =>
      WordBytes(Eval(form.indexed, symbols, pc + 1).value, pc, c8);
    case _ =>
  }

  lemma SignedByte(v: int)
    requires -128 <= v <= 127
    ensures Signed(v % 0x100) == v
  {
  }

  lemma WordBytes(v: int, pc: int, c8: bool)
    ensures var w := AddressWrites(v, pc, c8);
            |w| == 2 && w[0].value as int + 0x100 * w[1].value as int == v % 0x1_0000
  {
  }

  /** The zero-page form is chosen only for an operand that fits it, so nothing is cut off. */
  lemma ZeroPageOperand(op: Mnemonic, form: Form, symbols: Symbols, pc: int)
    requires ModeOf(op, form, symbols) == ZeroPage
    ensures form.Direct? && FitsZeroPage(Eval(form.address, symbols, pc + 1))
  {
    ResolvedIsEvaluated(form.address, symbols, pc + 1);
  }

  function AddressOf(statements: seq<Statement>, k: nat): int
    requires k <= |statements|
  {
    var now := PassTwo(statements, Final(statements), k);
    if now.None? then 0 else now.value.pc
  }

  /** The bytes an instruction statement stores, at its own address. */
  function Emitted(statements: seq<Statement>, k: nat): seq<Write>
    requires k < |statements|
  {
    var now := PassTwo(statements, Final(statements), k);
    var s := statements[k];
    if now.None? || !s.Instr? then []
    else
      var w := EmitInstr(s.op, s.form, Final(statements), now.value.pc, now.value.c8);
      if w.None? then [] else w.value
  }

  /** An instruction's bytes are a stretch of the run, consecutive from its address. */
  lemma InstructionInRun(statements: seq<Statement>, k: nat) returns (at: nat)
    requires k < |statements| && statements[k].Instr?
    requires PassTwo(statements, Final(statements), |statements|).Some?
    ensures PassTwo(statements, Final(statements), k).Some? && EmittedIsDefined(statements, k)
    ensures at + |Emitted(statements, k)| <= |Writes(statements)|
    ensures Writes(statements)[at..at + |Emitted(statements, k)|] == Emitted(statements, k)
    ensures exists c8 :: ConsecutiveFrom(Emitted(statements, k), AddressOf(statements, k), c8)
    ensures |Emitted(statements, k)| == Length(ModeOf(statements[k].op, statements[k].form, Final(statements)))
  {
    hide Advance, EmitInstr, ModeOf, Length, Final, PassOne;
    var final := Final(statements);
    SecondPassReaches(statements, final, k + 1, |statements|);
    SecondPassReaches(statements, final, k, k + 1);
    var now := PassTwo(statements, final, k).value;
    InstructionStep(statements[k], final, now);
    EmitLength(statements[k].op, statements[k].form, final, now.pc, now.c8);
    assert ConsecutiveFrom(Emitted(statements, k), AddressOf(statements, k), now.c8);
    at := |now.writes|;
  }

  lemma InstructionStep(s: Statement, symbols: Symbols, now: Progress)
    requires s.Instr? && Advance(s, symbols, now).Some?
    ensures EmitInstr(s.op, s.form, symbols, now.pc, now.c8).Some?
    ensures Advance(s, symbols, now).value.writes == now.writes + EmitInstr(s.op, s.form, symbols, now.pc, now.c8).value
  {
    hide EmitInstr;
  }

  ghost predicate EmittedIsDefined(statements: seq<Statement>, k: nat)
    requires k < |statements| && statements[k].Instr?
  {
    var now := PassTwo(statements, Final(statements), k);
    now.Some? && EmitInstr(statements[k].op, statements[k].form, Final(statements), now.value.pc, now.value.c8).Some?
  }

  /** The bytes of `memory` from counter `pc` on, as the indexing resolves it. */
  function Fetch(memory: Cells, pc: int, n: nat): seq<byte> {
    seq(n, i => if Index(pc + i).Some? then memory[Index(pc + i).value] else 0)
  }

  /** The whole image in memory when every statement has been emitted. */
  function Image(statements: seq<Statement>): Cells {
    Apply(BLANK, Writes(statements))
  }

  lemma WritesAreIndexed(statements: seq<Statement>)
    ensures AllIndexed(Writes(statements))
  {
    if PassTwo(statements, Final(statements), |statements|).Some? {
      RunIsIndexed(statements, Final(statements), |statements|);
    }
  }

  lemma EmittedIsInMemory(statements: seq<Statement>, k: nat)
    requires k < |statements| && statements[k].Instr?
    requires PassTwo(statements, Final(statements), |statements|).Some? && Apart(Writes(statements))
    ensures Fetch(Image(statements), AddressOf(statements, k), |Emitted(statements, k)|)
        == Values(Emitted(statements, k))
  {
    hide PassTwo, Emitted, AddressOf, EmittedIsDefined, Writes, Length, ModeOf, Index, Final;
    var at := InstructionInRun(statements, k);
    var w, all, pc := Emitted(statements, k), Writes(statements), AddressOf(statements, k);
    WritesAreIndexed(statements);
    forall j | 0 <= j < |w|
      ensures Fetch(Image(statements), pc, |w|)[j] == w[j].value
    {
      assert w[j] == all[at + j];
      assert w[j].pc == pc + j;
      ApplyKeeps(BLANK, all, at + j);
    }
  }

  /** If no cell is written twice, the image at an instruction's address disassembles to that very instruction with the
      operand its source asked for; a branch in particular lands on its target. */
  lemma ImageDisassembles(statements: seq<Statement>, k: nat)
    requires k < |statements| && statements[k].Instr?
    requires PassTwo(statements, Final(statements), |statements|).Some? && Apart(Writes(statements))
    ensures var final, pc, s := Final(statements), AddressOf(statements, k), statements[k];
            var mode := ModeOf(s.op, s.form, final);
            var b := Fetch(Image(statements), pc, Length(mode));
            && Disassemble(b[0]) == Some((s.op, mode))
            && Intended(s.form, mode, final, pc) == Some(Operand(b, mode, pc))
  {
    hide Apply, Image, Writes, Disassemble, Operand, Intended, EmitInstr, Fetch, Final, ModeOf, Opcode;
    var at := InstructionInRun(statements, k);
    EmittedIsInMemory(statements, k);
    var now := PassTwo(statements, Final(statements), k).value;
    var s := statements[k];
    OperandBytes(s.op, s.form, Final(statements), now.pc, now.c8);
    OpcodesAreDistinct(s.op, ModeOf(s.op, s.form, Final(statements)));
  }

  /** A branch to a label lands on the address where the label's statement was emitted. */
  lemma BranchReachesItsLabel(statements: seq<Statement>, k: nat, m: nat)
    requires k < |statements| && m < |statements| && Dependable(statements)
    requires PassTwo(statements, Final(statements), |statements|).Some? && Apart(Writes(statements))
    requires statements[m].Label? && statements[k].Instr? && IsBranch(statements[k].op)
    requires statements[k].form == Direct(Sym(statements[m].name))
    ensures var pc := AddressOf(statements, k);
            var b := Fetch(Image(statements), pc, 2);
            && Disassemble(b[0]) == Some((statements[k].op, Relative))
            && pc + 2 + Signed(b[1]) == AddressOf(statements, m)
  {
    hide Image, Writes, Disassemble, EmitInstr, Fetch, Dependable, PassTwo, Apart, Final, PassOne;
    SecondPassReaches(statements, Final(statements), m, |statements|);
    LabelsAreAddresses(statements, m);
    ImageDisassembles(statements, k);
  }

  /** `<` and `>` split a value into its low and high byte. */
  lemma LowAndHigh(e: Expr, symbols: Symbols, pc: int)
    requires Eval(e, symbols, pc).Some?
    ensures Eval(Low(e), symbols, pc).Some? && Eval(High(e), symbols, pc).Some?
    ensures var low, high := Eval(Low(e), symbols, pc).value, Eval(High(e), symbols, pc).value;
            && 0 <= low < 0x100 && 0 <= high < 0x100 && low + 0x100 * high == Eval(e, symbols, pc).value % 0x1_0000
  {
  }

  /** Sums and differences are those of the values, and the counter is the address behind the opcode. */
  lemma EvaluatesArithmetic(a: Expr, b: Expr, symbols: Symbols, pc: int, v: int, w: int)
    requires Eval(a, symbols, pc) == Some(v) && Eval(b, symbols, pc) == Some(w)
    ensures Eval(Plus(a, b), symbols, pc) == Some(v + w) && Eval(Minus(a, b), symbols, pc) == Some(v - w)
    ensures Eval(Here, symbols, pc) == Some(pc) && Eval(Num(v), symbols, pc) == Some(v)
    ensures forall name | name in symbols :: Eval(Sym(name), symbols, pc) == Some(symbols[name])
  {
  }

  /** An immediate instruction `#<name` or `#>name`. */
  predicate IsHalfOf(s: Statement, name: string, high: bool) {
    s.Instr? && !IsBranch(s.op) && s.form == Hash(if high then High(Sym(name)) else Low(Sym(name)))
  }

  /** Two immediates `#<L` and `#>L` in the image together hold the address at which the statement behind L stands. */
  lemma ImmediatesHoldTheAddress(statements: seq<Statement>, i: nat, j: nat, m: nat)
    requires i < |statements| && j < |statements| && m < |statements| && statements[m].Label? && Dependable(statements)
    requires PassTwo(statements, Final(statements), |statements|).Some? && Apart(Writes(statements))
    requires IsHalfOf(statements[i], statements[m].name, false) && IsHalfOf(statements[j], statements[m].name, true)
    ensures var low := Fetch(Image(statements), AddressOf(statements, i), 2)[1];
            var high := Fetch(Image(statements), AddressOf(statements, j), 2)[1];
            low as int + 0x100 * high as int == AddressOf(statements, m) % 0x1_0000
  {
    hide Image, Writes, Fetch, Dependable, PassTwo, Apart, Final, PassOne, Disassemble, Opcode;
    var final := Final(statements);
    SecondPassReaches(statements, final, m, |statements|);
    LabelsAreAddresses(statements, m);
    ImageDisassembles(statements, i);
    ImageDisassembles(statements, j);
    LowAndHigh(Sym(statements[m].name), final, AddressOf(statements, i) + 1);
    LowAndHigh(Sym(statements[m].name), final, AddressOf(statements, j) + 1);
  }

  // ----- the relocation map -----

  /** An absolute operand within the slot page has its high byte in cell `x`. */
  predicate HighByteAt(statements: seq<Statement>, k: nat, x: nat)
    requires k < |statements|
  {
    var s, final, pc := statements[k], Final(statements), AddressOf(statements, k);
    && s.Instr?
    && (ModeOf(s.op, s.form, final).Absolute? || ModeOf(s.op, s.form, final).AbsoluteY?)
    && Index(pc + 2) == Some(x)
    && InSlotPage(AbsoluteOperand(s.form, final, pc))
  }

  predicate InSlotPage(v: Option<int>) {
    v.Some? && SLOT_PAGE <= v.value <= SLOT_LIMIT
  }

  function AbsoluteOperand(form: Form, symbols: Symbols, pc: int): Option<int> {
    match form
    case Direct(e) => Eval(e, symbols, pc + 1)
    case CommaY(e) => Eval(e, symbols, pc + 1)
    case _ => None
  }

  /** Only the third byte of an absolute instruction aimed at the slot page is marked, and it holds the page number. */
  lemma MarkedByte(op: Mnemonic, form: Form, symbols: Symbols, pc: int, c8: bool, j: nat)
    requires EmitInstr(op, form, symbols, pc, c8).Some? && j < |EmitInstr(op, form, symbols, pc, c8).value|
    ensures var w := EmitInstr(op, form, symbols, pc, c8).value[j];
            var mode := ModeOf(op, form, symbols);
            && (w.marked <==>
                  (j == 2 && (mode.Absolute? || mode.AbsoluteY?) && InSlotPage(AbsoluteOperand(form, symbols, pc))))
            && (w.marked ==> w.value == 0xC7)
  {
    hide Opcode, ModeOf, Eval;
  }

  lemma {:induction false} DataIsUnmarked(items: seq<Expr>, n: nat, symbols: Symbols, pc: int, c8: bool)
    requires n <= |items| && EmitData(items, n, symbols, pc, c8).Some?
    ensures forall w | w in EmitData(items, n, symbols, pc, c8).value :: !w.marked
  {
    if n > 0 {
      DataIsUnmarked(items, n - 1, symbols, pc, c8);
    }
  }

  /** Every byte of the run comes from one of its statements. */
  lemma {:induction false} WriteHasItsStatement(statements: seq<Statement>, n: nat, w: Write) returns (k: nat)
    requires n <= |statements| && PassTwo(statements, Final(statements), n).Some?
    requires w in PassTwo(statements, Final(statements), n).value.writes && w.marked
    ensures k < n && statements[k].Instr? && w in Emitted(statements, k)
  {
    hide EmitInstr, EmitData, Eval, AllIndexed;
    k := n - 1;
    var final := Final(statements);
    var before := PassTwo(statements, final, n - 1).value;
    if w in before.writes {
      k := WriteHasItsStatement(statements, n - 1, w);
    } else if statements[k].Data? {
      DataIsUnmarked(statements[k].items, |statements[k].items|, final, before.pc, before.c8);
    }
  }

  /** The relocation map marks exactly the high bytes of the absolute operands that lie in the slot page. */
  lemma RelocationMarks(statements: seq<Statement>, x: nat)
    requires x < MEMORY_SIZE && PassTwo(statements, Final(statements), |statements|).Some?
    ensures Marks(UNMARKED, Writes(statements))[x]
        == (if exists k :: 0 <= k < |statements| && HighByteAt(statements, k, x) then 1 else 0)
  {
    hide Image, EmitInstr, Index, ModeOf, Eval, Opcode, AbsoluteOperand;
    MarksMean(UNMARKED, Writes(statements), x);
    if w :| w in Writes(statements) && w.marked && Index(w.pc) == Some(x) {
      var k := WriteHasItsStatement(statements, |statements|, w);
      MarkOfStatement(statements, k, x, w);
    }
    if k :| 0 <= k < |statements| && HighByteAt(statements, k, x) {
      var w := StatementIsMarked(statements, k, x);
    }
  }

  lemma MarkOfStatement(statements: seq<Statement>, k: nat, x: nat, w: Write)
    requires k < |statements| && statements[k].Instr?
    requires w in Emitted(statements, k) && w.marked && Index(w.pc) == Some(x)
    ensures HighByteAt(statements, k, x)
  {
    hide EmitInstr, Index, ModeOf, Eval, Opcode, AbsoluteOperand, PassOne;
    var s, now := statements[k], PassTwo(statements, Final(statements), k).value;
    var j :| 0 <= j < |Emitted(statements, k)| && Emitted(statements, k)[j] == w;
    EmitLength(s.op, s.form, Final(statements), now.pc, now.c8);
    MarkedByte(s.op, s.form, Final(statements), now.pc, now.c8, j);
  }

  lemma StatementIsMarked(statements: seq<Statement>, k: nat, x: nat) returns (w: Write)
    requires k < |statements| && HighByteAt(statements, k, x)
    requires PassTwo(statements, Final(statements), |statements|).Some?
    ensures w in Writes(statements) && w.marked && w.value == 0xC7 && Index(w.pc) == Some(x)
  {
    hide EmitInstr, Index, ModeOf, Eval, Opcode, AbsoluteOperand, PassOne;
    var at := InstructionInRun(statements, k);
    var s, now := statements[k], PassTwo(statements, Final(statements), k).value;
    EmitLength(s.op, s.form, Final(statements), now.pc, now.c8);
    MarkedByte(s.op, s.form, Final(statements), now.pc, now.c8, 2);
    w := Emitted(statements, k)[2];
    assert w == Writes(statements)[at + 2];
  }

  /** Where no cell is written twice, every marked cell holds the page number $C7 that relocation replaces. */
  lemma MarkedCellsHoldThePage(statements: seq<Statement>, x: nat)
    requires x < MEMORY_SIZE && PassTwo(statements, Final(statements), |statements|).Some? && Apart(Writes(statements))
    ensures Marks(UNMARKED, Writes(statements))[x] == 1 ==> Image(statements)[x] == 0xC7
  {
    hide PassTwo, Index, HighByteAt, Writes, Apply;
    WritesAreIndexed(statements);
    RelocationMarks(statements, x);
    if k :| 0 <= k < |statements| && HighByteAt(statements, k, x) {
      var w := StatementIsMarked(statements, k, x);
      var i :| 0 <= i < |Writes(statements)| && Writes(statements)[i] == w;
      ApplyKeeps(BLANK, Writes(statements), i);
    }
  }

  // ----- the sections -----

  /** Once a section has started in the expansion page, its counter cannot fall below it. */
  lemma {:induction false} ExpansionStaysHigh(statements: seq<Statement>, symbols: Symbols, k: nat)
    requires k <= |statements| && PassTwo(statements, symbols, k).Some?
    ensures var now := PassTwo(statements, symbols, k).value;
            && (now.c8 ==> now.pc >= C8_PAGE)
            && forall w | w in now.writes && w.c8 :: w.pc >= C8_PAGE
  {
    hide EmitInstr, EmitData, Eval, AllIndexed, ModeOf, Length;
    if k > 0 {
      ExpansionStaysHigh(statements, symbols, k - 1);
      var now := PassTwo(statements, symbols, k - 1).value;
      match statements[k - 1]
      case Data(items) => DataLength(items, |items|, symbols, now.pc, now.c8);
      case Instr(op, form) => EmitLength(op, form, symbols, now.pc, now.c8);
      case _ =>
    }
  }

  /** A slot-section byte stored through a counter so far below zero that it wraps to $C7FF or beyond. */
  predicate WrapsHigh(w: Write) {
    !w.c8 && SLOT_LIMIT - MEMORY_SIZE <= w.pc < 0
  }

  /** In an accepted program the expansion section stays in its page, and the slot section stays below the reserved
      byte at $C7FF exactly when none of its counters wraps from below zero. */
  lemma SectionsStayApartIff(statements: seq<Statement>)
    requires Accepted(statements)
    ensures forall w | w in Writes(statements) && w.c8 :: C8_PAGE <= w.pc < C8_LIMIT && Index(w.pc) == Some(w.pc)
    ensures (forall w | w in Writes(statements) && !w.c8 :: Index(w.pc).Some? && Index(w.pc).value < SLOT_LIMIT)
            <==> (forall w | w in Writes(statements) :: !WrapsHigh(w))
  {
    WritesAreIndexed(statements);
    ExpansionStaysHigh(statements, Final(statements), |statements|);
    hide Top;
    forall w | w in Writes(statements)
      ensures w.pc < (if w.c8 then C8_LIMIT else SLOT_LIMIT)
    {
      TopBounds(Writes(statements), w);
    }
  }

  // ----- the same condition, read off the first pass -----

  /** How many bytes a statement takes under these symbols. */
  function SizeUnder(s: Statement, symbols: Symbols): nat {
    match s
    case Data(items) => |items|
    case Instr(op, form) => Length(ModeOf(op, form, symbols))
    case _ => 0
  }

  /** Whether the section that statement `k` belongs to was started in the expansion page. */
  function InExpansion(statements: seq<Statement>, k: nat): bool
    requires k <= |statements|
  {
    if k == 0 then false
    else if statements[k - 1].Origin? then PassOne(statements, k).Some? && PassOne(statements, k).value.1 >= C8_PAGE
    else InExpansion(statements, k - 1)
  }

  /** Some byte of the addresses [pc, pc + size) of the slot section wraps to $C7FF or beyond. */
  predicate Wraps(pc: int, size: nat, c8: bool) {
    !c8 && size > 0 && pc < 0 && SLOT_LIMIT - MEMORY_SIZE < pc + size
  }

  /** By the addresses of the first pass, statement `k` of the slot section occupies an address that wraps so. */
  predicate OccupiesWrapped(statements: seq<Statement>, k: nat)
    requires k < |statements|
  {
    && PassOne(statements, k).Some?
    && var (symbols, pc) := PassOne(statements, k).value;
       Wraps(pc, SizeUnder(statements[k], symbols), InExpansion(statements, k))
  }

  lemma ConsecutiveWraps(w: seq<Write>, pc: int, c8: bool)
    requires ConsecutiveFrom(w, pc, c8)
    ensures (exists u | u in w :: WrapsHigh(u)) <==> Wraps(pc, |w|, c8)
  {
    if Wraps(pc, |w|, c8) {
      var j := if pc >= SLOT_LIMIT - MEMORY_SIZE then 0 else SLOT_LIMIT - MEMORY_SIZE - pc;
      assert WrapsHigh(w[j]) && w[j] in w;
    }
  }

  lemma AdvanceWrites(s: Statement, symbols: Symbols, now: Progress) returns (w: seq<Write>)
    requires Advance(s, symbols, now).Some?
    ensures Advance(s, symbols, now).value.writes == now.writes + w
    ensures ConsecutiveFrom(w, now.pc, now.c8) && |w| == SizeUnder(s, symbols)
  {
    hide EmitInstr, EmitData, Eval, AllIndexed, ModeOf, Length;
    w := [];
    match s
    case Data(items) =>
      DataLength(items, |items|, symbols, now.pc, now.c8);
      w := EmitData(items, |items|, symbols, now.pc, now.c8).value;
    case Instr(op, form) =>
      EmitLength(op, form, symbols, now.pc, now.c8);
      w := EmitInstr(op, form, symbols, now.pc, now.c8).value;
    case _ =>
      assert now.writes + w == now.writes;
  }

  lemma {:induction false} SectionsAgree(statements: seq<Statement>, k: nat)
    requires k <= |statements| && Dependable(statements) && PassTwo(statements, Final(statements), k).Some?
    ensures PassTwo(statements, Final(statements), k).value.c8 == InExpansion(statements, k)
  {
    hide EmitInstr, EmitData, Eval, AllIndexed, Dependable, PassOne;
    PassesAgree(statements, k);
    if k > 0 {
      SectionsAgree(statements, k - 1);
    }
  }

  lemma {:induction false} WrapsComeFromStatements(statements: seq<Statement>, k: nat)
    requires k <= |statements| && Dependable(statements) && PassTwo(statements, Final(statements), k).Some?
    ensures (forall w | w in PassTwo(statements, Final(statements), k).value.writes :: !WrapsHigh(w))
            <==> (forall i | 0 <= i < k :: !OccupiesWrapped(statements, i))
  {
    hide Advance, Dependable, PassOne, WrapsHigh, Wraps, SizeUnder, InExpansion;
    if k > 0 {
      var final := Final(statements);
      var now := PassTwo(statements, final, k - 1).value;
      WrapsComeFromStatements(statements, k - 1);
      PassesAgree(statements, k - 1);
      SectionsAgree(statements, k - 1);
      SizesAreKnown(statements, k - 1);
      var w := AdvanceWrites(statements[k - 1], final, now);
      ConsecutiveWraps(w, now.pc, now.c8);
      var all := PassTwo(statements, final, k).value.writes;
      assert all == now.writes + w;
      assert OccupiesWrapped(statements, k - 1) <==> exists u | u in w :: WrapsHigh(u);
      NoneInBoth(now.writes, w);
    }
  }

  lemma NoneInBoth(a: seq<Write>, b: seq<Write>)
    ensures (forall w | w in a + b :: !WrapsHigh(w))
        <==> (forall w | w in a :: !WrapsHigh(w)) && !exists w | w in b :: WrapsHigh(w)
  {
    assert forall w | w in a || w in b :: w in a + b;
  }

  lemma SizesAreKnown(statements: seq<Statement>, k: nat)
    requires k < |statements| && Dependable(statements)
    ensures PassOne(statements, k).Some?
    ensures SizeUnder(statements[k], PassOne(statements, k).value.0) == SizeUnder(statements[k], Final(statements))
  {
    hide ModeOf, Length, NoRedefinition, ShrinksLate, Eval;
    FirstPassReaches(statements, k, |statements|);
    MovedAlikeIff(statements);
    assert MovesAlike(statements[k], PassOne(statements, k).value.0, Final(statements), PassOne(statements, k).value.1);
  }

  /** In an accepted program, the slot section stays below the reserved byte exactly when, by the first pass alone, none
      of its instructions and data lists occupies an address below zero that wraps to $C7FF or beyond. */
  lemma SlotSectionStaysIff(statements: seq<Statement>)
    requires Accepted(statements) && Dependable(statements)
    ensures (forall w | w in Writes(statements) && !w.c8 :: Index(w.pc).Some? && Index(w.pc).value < SLOT_LIMIT)
            <==> (forall k | 0 <= k < |statements| :: !OccupiesWrapped(statements, k))
  {
    SectionsStayApartIff(statements);
    hide Dependable, Top, PassOne, OccupiesWrapped, WrapsHigh, Index;
    WrapsComeFromStatements(statements, |statements|);
  }

  /** Then the two sections never share a cell, and nothing is stored at $C7FF. */
  lemma SectionsNeverClobber(statements: seq<Statement>, v: Write, w: Write)
    requires Accepted(statements) && v in Writes(statements) && w in Writes(statements)
    requires forall u | u in Writes(statements) :: !WrapsHigh(u)
    requires !v.c8 && w.c8
    ensures Index(v.pc) != Index(w.pc) && Index(v.pc) != Some(SLOT_LIMIT) && Index(w.pc) != Some(SLOT_LIMIT)
  {
    hide Writes, Accepted;
    SectionsStayApartIff(statements);
  }

  lemma {:induction false} UntouchedCell(memory: Cells, writes: seq<Write>, x: nat)
    requires x < MEMORY_SIZE && forall w | w in writes :: Index(w.pc) != Some(x)
    ensures Apply(memory, writes)[x] == memory[x]
  {
    if writes != [] {
      UntouchedCell(memory, writes[..|writes| - 1], x);
    }
  }

  /** So forcing the signature byte to zero overwrites no emitted byte. */
  lemma SignatureByteIsFree(statements: seq<Statement>)
    requires Accepted(statements) && forall w | w in Writes(statements) :: !WrapsHigh(w)
    ensures Image(statements)[SLOT_LIMIT] == 0xEA
  {
    hide Writes, Accepted;
    SectionsStayApartIff(statements);
    UntouchedCell(BLANK, Writes(statements), SLOT_LIMIT);
  }

  /** All origins at or above zero keep every counter there, so nothing wraps. */
  lemma {:induction false} OriginsKeepCountersUp(statements: seq<Statement>, symbols: Symbols, k: nat)
    requires k <= |statements| && PassTwo(statements, symbols, k).Some?
    requires forall i | 0 <= i < k && statements[i].Origin? :: OriginAtLeastZero(statements, symbols, i)
    ensures PassTwo(statements, symbols, k).value.pc >= 0
    ensures forall w | w in PassTwo(statements, symbols, k).value.writes :: w.pc >= 0
  {
    hide EmitInstr, EmitData, Eval, AllIndexed, ModeOf, Length;
    if k > 0 {
      OriginsKeepCountersUp(statements, symbols, k - 1);
      var now := PassTwo(statements, symbols, k - 1).value;
      match statements[k - 1]
      case Origin(_) => assert OriginAtLeastZero(statements, symbols, k - 1);
      case Data(items) => DataLength(items, |items|, symbols, now.pc, now.c8);
      case Instr(op, form) => EmitLength(op, form, symbols, now.pc, now.c8);
      case _ =>
    }
  }

  predicate OriginAtLeastZero(statements: seq<Statement>, symbols: Symbols, i: nat)
    requires i < |statements| && statements[i].Origin?
  {
    var now := PassTwo(statements, symbols, i);
    now.Some? ==> AtLeastZero(Eval(statements[i].address, symbols, now.value.pc))
  }

  predicate AtLeastZero(v: Option<int>) {
    v.Some? ==> v.value >= 0
  }

  lemma BelowZero(pc: int)
    ensures Eval(Minus(Num(0), Num(0x3800)), map[], pc) == Some(-0x3800)
  {
    assert Eval(Num(0), map[], pc) == Some(0) && Eval(Num(0x3800), map[], pc) == Some(0x3800);
  }

  lemma FirstPassOfWitness(statements: seq<Statement>)
    requires statements == [Origin(Num(C8_PAGE)), Data([Num(1)]), Origin(Minus(Num(0), Num(0x3800))), Data([Num(2)])]
    ensures PassOne(statements, 4) == Some((map[], -0x37FF)) && Final(statements) == map[]
  {
    assert PassOne(statements, 1) == Some((map[], C8_PAGE));
    assert PassOne(statements, 2) == Some((map[], C8_PAGE + 1));
    BelowZero(C8_PAGE + 1);
    assert PassOne(statements, 3) == Some((map[], -0x3800));
  }

  lemma SecondPassOfWitness(statements: seq<Statement>)
    requires statements == [Origin(Num(C8_PAGE)), Data([Num(1)]), Origin(Minus(Num(0), Num(0x3800))), Data([Num(2)])]
    ensures PassTwo(statements, map[], 4)
            == Some(Progress(-0x37FF, false, [Write(C8_PAGE, 1, false, true), Write(-0x3800, 2, false, false)]))
  {
    hide EmitInstr;
    OneByte(1, C8_PAGE, true);
    OneByte(2, -0x3800, false);
    assert [Write(C8_PAGE, 1, false, true)] + [Write(-0x3800, 2, false, false)]
        == [Write(C8_PAGE, 1, false, true), Write(-0x3800, 2, false, false)];
    assert PassTwo(statements, map[], 1) == Some(Progress(C8_PAGE, true, []));
    assert PassTwo(statements, map[], 2) == Some(Progress(C8_PAGE + 1, true, [Write(C8_PAGE, 1, false, true)]));
    BelowZero(C8_PAGE + 1);
    assert PassTwo(statements, map[], 3) == Some(Progress(-0x3800, false, [Write(C8_PAGE, 1, false, true)]));
  }

  lemma OneByte(v: byte, pc: int, c8: bool)
    ensures EmitData([Num(v as int)], 1, map[], pc, c8) == Some([Write(pc, v, false, c8)])
  {
    var items: seq<Expr> := [Num(v as int)];
    assert Eval(items[0], map[], pc) == Some(v as int);
    assert EmitData(items, 0, map[], pc, c8) == Some([]);
    assert [] + [Write(pc, v, false, c8)] == [Write(pc, v, false, c8)];
    assert EmitData(items, 1, map[], pc, c8) == Some([Write(pc, v, false, c8)]);
  }

  lemma ImageOfWitness(statements: seq<Statement>)
    requires PassOne(statements, |statements|).Some?
    requires Writes(statements) == [Write(C8_PAGE, 1, false, true), Write(-0x3800, 2, false, false)]
    requires PassTwo(statements, Final(statements), |statements|).Some?
    ensures Accepted(statements) && Image(statements)[C8_PAGE] == 2
  {
    var w := Writes(statements);
    hide PassOne, PassTwo, Writes, Final;
    assert w[..1] == [Write(C8_PAGE, 1, false, true)] && w[..1][..0] == [];
    assert Top(w[..1][..0], false) == 0 && Top(w[..1][..0], true) == 0;
    assert Top(w[..1], false) == 0 && Top(w[..1], true) == C8_PAGE + 1;
    assert Top(w, false) == 0 && Top(w, true) == C8_PAGE + 1;
  }

  /** A negative origin is accepted and puts a slot-section byte over the expansion page. */
  lemma NegativeOriginClobbers(statements: seq<Statement>)
    requires statements == [Origin(Num(C8_PAGE)), Data([Num(1)]), Origin(Minus(Num(0), Num(0x3800))), Data([Num(2)])]
    ensures Accepted(statements)
    ensures Writes(statements) == [Write(C8_PAGE, 1, false, true), Write(-0x3800, 2, false, false)]
    ensures Image(statements)[C8_PAGE] == 2
  {
    hide PassOne, PassTwo, Final, Accepted, Image, Top, Index;
    FirstPassOfWitness(statements);
    SecondPassOfWitness(statements);
    assert Writes(statements) == [Write(C8_PAGE, 1, false, true), Write(-0x3800, 2, false, false)];
    ImageOfWitness(statements);
  }
}
