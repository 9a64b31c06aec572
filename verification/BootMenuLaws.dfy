/** What the boot menu assembler accepts and stores, statement by statement, told by the processor's opcode table. */
module BootMenuLaws {
  import opened Bytes
  import opened BootMenuRom
  import opened BootMenuBuild

  // ----- operands -----

  /** Numbers, symbols, sums and differences: no location counter and no half of a value. */
  predicate PlainArithmetic(e: Expr) {
    match e
    case Num(_) => true
    case Sym(_) => true
    case Plus(a, b) => PlainArithmetic(a) && PlainArithmetic(b)
    case Minus(a, b) => PlainArithmetic(a) && PlainArithmetic(b)
    case _ => false
  }

  /** An operand is resolved early exactly when it is plain arithmetic over known symbols, and to its value. */
  lemma {:induction false} ResolvedIff(e: Expr, symbols: Symbols, pc: int, v: int)
    ensures TryResolve(e, symbols) == Some(v) <==> PlainArithmetic(e) && Eval(e, symbols, pc) == Some(v)
  {
    match e
    case Plus(a, b) => ResolvedParts(a, symbols, pc); ResolvedParts(b, symbols, pc);
    case Minus(a, b) => ResolvedParts(a, symbols, pc); ResolvedParts(b, symbols, pc);
    case _ =>
  }

  lemma {:induction false} ResolvedParts(e: Expr, symbols: Symbols, pc: int)
    ensures TryResolve(e, symbols) == if PlainArithmetic(e) then Eval(e, symbols, pc) else None
  {
    match e
    case Plus(a, b) => ResolvedParts(a, symbols, pc); ResolvedParts(b, symbols, pc);
    case Minus(a, b) => ResolvedParts(a, symbols, pc); ResolvedParts(b, symbols, pc);
    case _ =>
  }

  /** An expression has a value exactly when all its symbols are known. */
  lemma {:induction false} EvaluatesIff(e: Expr, symbols: Symbols, pc: int)
    ensures Eval(e, symbols, pc).Some? <==> forall name | name in Names(e) :: name in symbols
  {
    match e
    case Low(f) => EvaluatesIff(f, symbols, pc);
    case High(f) => EvaluatesIff(f, symbols, pc);
    case Plus(a, b) => EvaluatesIff(a, symbols, pc); EvaluatesIff(b, symbols, pc);
    case Minus(a, b) => EvaluatesIff(a, symbols, pc); EvaluatesIff(b, symbols, pc);
    case _ =>
  }

  function Names(e: Expr): set<string> {
    match e
    case Num(_) => {}
    case Sym(name) => {name}
    case Here => {}
    case Low(f) => Names(f)
    case High(f) => Names(f)
    case Plus(a, b) => Names(a) + Names(b)
    case Minus(a, b) => Names(a) + Names(b)
  }

  // ----- one instruction -----

  /** Small enough for the zero page, as plain arithmetic, in an instruction that has such a form. */
  ghost predicate FitsShortForm(op: Mnemonic, e: Expr, symbols: Symbols, pc: int) {
    && (exists z: byte :: Disassemble(z) == Some((op, ZeroPage)))
    && PlainArithmetic(e) && Eval(e, symbols, pc).Some? && 0 <= Eval(e, symbols, pc).value <= 0xFF
  }

  /** `b` at `pc` is the instruction `op` with an operand of this form, as the processor reads it: an address in the
      short form whenever that fits, a branch to its target, and halves only where the width cuts them. */
  ghost predicate IsInstruction(op: Mnemonic, form: Form, symbols: Symbols, pc: int, b: seq<byte>) {
    && b != [] && Disassemble(b[0]).Some? && Disassemble(b[0]).value.0 == op
    && var mode := Disassemble(b[0]).value.1;
       && |b| == Length(mode)
       && match form
          case Bare => mode == Implied
          case Hash(e) => Reads(mode, {Immediate, Relative}, b, pc, Eval(e, symbols, pc + 1))
          case CommaY(e) => Reads(mode, {AbsoluteY}, b, pc, Eval(e, symbols, pc + 1))
          case Direct(e) =>
            && Reads(mode, {Relative, ZeroPage, Absolute}, b, pc, Eval(e, symbols, pc + 1))
            && (mode == ZeroPage ==> FitsShortForm(op, e, symbols, pc + 1))
            && (mode == Absolute ==> !FitsShortForm(op, e, symbols, pc + 1))
  }

  /** The mode is one of these, and the operand read back is the value, cut to a byte when immediate and to a word when
      absolute. */
  predicate Reads(mode: Mode, modes: set<Mode>, b: seq<byte>, pc: int, v: Option<int>)
    requires |b| == Length(mode)
  {
    && mode in modes && v.Some?
    && match mode
       case Implied => true
       case Immediate => b[1] as int == v.value % 0x100
       case ZeroPage => b[1] as int == v.value
       case Relative => pc + 2 + Signed(b[1]) == v.value
       case Absolute => b[1] as int + 0x100 * b[2] as int == v.value % 0x1_0000
       case AbsoluteY => b[1] as int + 0x100 * b[2] as int == v.value % 0x1_0000
  }

  /** The opcode table read both ways. */
  lemma OpcodeIff(op: Mnemonic, mode: Mode, b: byte)
    ensures Opcode(op, mode) == Some(b) <==> Disassemble(b) == Some((op, mode))
  {
    if Disassemble(b) == Some((op, mode)) {
      DisassembledIsOpcode(b);
    } else if Opcode(op, mode) == Some(b) {
      OpcodesAreDistinct(op, mode);
    }
  }

  lemma DisassembledIsOpcode(b: byte)
    ensures Disassemble(b).Some? ==> Opcode(Disassemble(b).value.0, Disassemble(b).value.1) == Some(b)
  {
    hide Opcode, Disassemble;
    if b < 0x80 {
      LowOpcodes(b);
    } else if b < 0xA6 {
      MiddleOpcodes(b);
    } else {
      HighOpcodes(b);
    }
  }

  lemma LowOpcodes(b: byte)
    requires b < 0x80
    ensures Disassemble(b).Some? ==> Opcode(Disassemble(b).value.0, Disassemble(b).value.1) == Some(b)
  {
  }

  lemma MiddleOpcodes(b: byte)
    requires 0x80 <= b < 0xA6
    ensures Disassemble(b).Some? ==> Opcode(Disassemble(b).value.0, Disassemble(b).value.1) == Some(b)
  {
  }

  lemma HighOpcodes(b: byte)
    requires 0xA6 <= b
    ensures Disassemble(b).Some? ==> Opcode(Disassemble(b).value.0, Disassemble(b).value.1) == Some(b)
  {
  }

  lemma ShortFormIff(op: Mnemonic)
    ensures HasZeroPageForm(op) <==> exists z: byte :: Disassemble(z) == Some((op, ZeroPage))
  {
    var code := Opcode(op, ZeroPage);
    if code.Some? {
      OpcodesAreDistinct(op, ZeroPage);
    }
    forall z: byte | Disassemble(z) == Some((op, ZeroPage)) ensures code == Some(z) {
      OpcodeIff(op, ZeroPage, z);
    }
    ZeroPageOpcodes(op);
    hide Disassemble, Opcode;
  }

  lemma ZeroPageOpcodes(op: Mnemonic)
    ensures HasZeroPageForm(op) <==> Opcode(op, ZeroPage).Some?
    ensures forall mode | Opcode(op, mode).Some? :: mode == Relative <==> IsBranch(op)
  {
  }

  lemma ModeIs(op: Mnemonic, form: Form, symbols: Symbols, pc: int)
    ensures var mode := ModeOf(op, form, symbols);
            if IsBranch(op) then mode == Relative
            else
              match form
              case Bare => mode == Implied
              case Hash(_) => mode == Immediate
              case CommaY(_) => mode == AbsoluteY
              case Direct(e) => mode == if FitsShortForm(op, e, symbols, pc) then ZeroPage else Absolute
  {
    hide Disassemble, IsBranch, HasZeroPageForm;
    if form.Direct? {
      ShortFormIff(op);
      ResolvedParts(form.address, symbols, pc);
    }
  }

  /** The bytes stored for an instruction are exactly those of `IsInstruction`; it is refused exactly when there are
      none. */
  lemma InstructionIff(op: Mnemonic, form: Form, symbols: Symbols, pc: int, c8: bool, b: seq<byte>)
    ensures var w := EmitInstr(op, form, symbols, pc, c8);
            w.Some? && Values(w.value) == b <==> IsInstruction(op, form, symbols, pc, b)
  {
    var w := EmitInstr(op, form, symbols, pc, c8);
    if w.Some? {
      StoredIsInstruction(op, form, symbols, pc, c8);
    }
    if IsInstruction(op, form, symbols, pc, b) {
      InstructionIsStored(op, form, symbols, pc, c8, b);
    }
  }

  lemma StoredIsInstruction(op: Mnemonic, form: Form, symbols: Symbols, pc: int, c8: bool)
    requires EmitInstr(op, form, symbols, pc, c8).Some?
    ensures IsInstruction(op, form, symbols, pc, Values(EmitInstr(op, form, symbols, pc, c8).value))
  {
    hide EmitInstr, ModeOf, Eval, Opcode, Disassemble, FitsShortForm, IsBranch, Signed;
    ModeIs(op, form, symbols, pc + 1);
    OperandBytes(op, form, symbols, pc, c8);
    var b, mode := Values(EmitInstr(op, form, symbols, pc, c8).value), ModeOf(op, form, symbols);
    OpcodeIff(op, mode, b[0]);
    if mode == ZeroPage {
      ZeroPageOperand(op, form, symbols, pc);
    }
  }

  lemma InstructionIsStored(op: Mnemonic, form: Form, symbols: Symbols, pc: int, c8: bool, b: seq<byte>)
    requires IsInstruction(op, form, symbols, pc, b)
    ensures EmitInstr(op, form, symbols, pc, c8).Some? && Values(EmitInstr(op, form, symbols, pc, c8).value) == b
  {
    var mode := Disassemble(b[0]).value.1;
    OpcodeIff(op, mode, b[0]);
    ZeroPageOpcodes(op);
    ModeIs(op, form, symbols, pc + 1);
    hide ModeOf, Eval, Opcode, Disassemble, FitsShortForm, IsBranch, EmitInstr;
    assert ModeOf(op, form, symbols) == mode;
    IsAccepted(op, form, symbols, pc, c8, b);
    OperandBytes(op, form, symbols, pc, c8);
    SameBytes(b, Values(EmitInstr(op, form, symbols, pc, c8).value), mode, pc);
  }

  lemma IsAccepted(op: Mnemonic, form: Form, symbols: Symbols, pc: int, c8: bool, b: seq<byte>)
    requires IsInstruction(op, form, symbols, pc, b) && ModeOf(op, form, symbols) == Disassemble(b[0]).value.1
    requires Opcode(op, Disassemble(b[0]).value.1) == Some(b[0])
    ensures EmitInstr(op, form, symbols, pc, c8).Some?
    ensures Intended(form, ModeOf(op, form, symbols), symbols, pc) == Some(Operand(b, ModeOf(op, form, symbols), pc))
  {
    hide ModeOf, Eval, Opcode, Disassemble, FitsShortForm, IsBranch;
  }

  lemma SameBytes(b: seq<byte>, w: seq<byte>, mode: Mode, pc: int)
    requires |b| == |w| == Length(mode) && b[0] == w[0] && Operand(b, mode, pc) == Operand(w, mode, pc)
    ensures b == w
  {
    if mode == Absolute || mode == AbsoluteY {
      assert b == [b[0], b[1], b[2]] && w == [w[0], w[1], w[2]];
    } else if mode == Implied {
      assert b == [b[0]] && w == [w[0]];
    } else {
      assert b == [b[0], b[1]] && w == [w[0], w[1]];
    }
  }

  // ----- data -----

  /** The items of a data statement are stored one after the other, each cut to a byte and evaluated where it stands;
      the statement is refused exactly when an item has no value. */
  lemma DataIff(items: seq<Expr>, n: nat, symbols: Symbols, pc: int, c8: bool, b: seq<byte>)
    requires n <= |items|
    ensures var w := EmitData(items, n, symbols, pc, c8);
            w.Some? && Values(w.value) == b <==> AreItems(items, n, symbols, pc, b)
  {
    hide EmitData, Eval, Values;
    if EmitData(items, n, symbols, pc, c8).Some? {
      StoredAreItems(items, n, symbols, pc, c8);
    }
    if AreItems(items, n, symbols, pc, b) {
      ItemsAreStored(items, n, symbols, pc, c8);
      StoredAreItems(items, n, symbols, pc, c8);
    }
  }

  lemma {:induction false} StoredAreItems(items: seq<Expr>, n: nat, symbols: Symbols, pc: int, c8: bool)
    requires n <= |items| && EmitData(items, n, symbols, pc, c8).Some?
    ensures AreItems(items, n, symbols, pc, Values(EmitData(items, n, symbols, pc, c8).value))
  {
    hide Eval;
    DataLength(items, n, symbols, pc, c8);
    if n > 0 {
      StoredAreItems(items, n - 1, symbols, pc, c8);
      DataLength(items, n - 1, symbols, pc, c8);
      var w, before := EmitData(items, n, symbols, pc, c8).value, EmitData(items, n - 1, symbols, pc, c8).value;
      forall i | 0 <= i < n - 1 ensures Values(w)[i] == Values(before)[i] {
      }
    }
  }

  lemma {:induction false} ItemsAreStored(items: seq<Expr>, n: nat, symbols: Symbols, pc: int, c8: bool)
    requires n <= |items| && forall i | 0 <= i < n :: Eval(items[i], symbols, pc + i).Some?
    ensures EmitData(items, n, symbols, pc, c8).Some?
  {
    hide Eval;
    if n > 0 {
      ItemsAreStored(items, n - 1, symbols, pc, c8);
      assert Eval(items[n - 1], symbols, pc + (n - 1)).Some?;
    }
  }

  predicate HasItem(e: Expr, symbols: Symbols, pc: int, b: byte) {
    Eval(e, symbols, pc).Some? && b as int == Eval(e, symbols, pc).value % 0x100
  }

  predicate AreItems(items: seq<Expr>, n: nat, symbols: Symbols, pc: int, b: seq<byte>)
    requires n <= |items|
  {
    |b| == n && forall i | 0 <= i < n :: HasItem(items[i], symbols, pc + i, b[i])
  }

  /** If no cell is written twice, the image holds a data statement's bytes at its address. */
  lemma DataStands(statements: seq<Statement>, k: nat)
    requires k < |statements| && statements[k].Data?
    requires PassTwo(statements, Final(statements), |statements|).Some? && Apart(Writes(statements))
    ensures var items, pc := statements[k].items, AddressOf(statements, k);
            AreItems(items, |items|, Final(statements), pc, Fetch(Image(statements), pc, |items|))
  {
    hide EmitData, EmitInstr, Final, Apart, Index, AreItems, Fetch, Image, Writes;
    var final, items := Final(statements), statements[k].items;
    SecondPassReaches(statements, final, k + 1, |statements|);
    SecondPassReaches(statements, final, k, k + 1);
    WritesGrow(statements, k + 1);
    var now := PassTwo(statements, final, k).value;
    var w := EmitData(items, |items|, final, now.pc, now.c8).value;
    DataLength(items, |items|, final, now.pc, now.c8);
    DataIff(items, |items|, final, now.pc, now.c8, Values(w));
    RunStands(statements, now.pc, w, |now.writes|);
  }

  lemma WritesGrow(statements: seq<Statement>, k: nat)
    requires k <= |statements| && PassTwo(statements, Final(statements), |statements|).Some?
    ensures PassTwo(statements, Final(statements), k).Some?
    ensures PassTwo(statements, Final(statements), k).value.writes <= Writes(statements)
  {
    hide PassTwo, Final;
    SecondPassReaches(statements, Final(statements), k, |statements|);
  }

  /** A stretch of the run stored at consecutive counters stands in the image. */
  lemma RunStands(statements: seq<Statement>, pc: int, w: seq<Write>, at: nat)
    requires at + |w| <= |Writes(statements)| && Writes(statements)[at..at + |w|] == w && Apart(Writes(statements))
    requires forall j | 0 <= j < |w| :: w[j].pc == pc + j
    ensures Fetch(Image(statements), pc, |w|) == Values(w)
  {
    hide Writes, Index;
    var all := Writes(statements);
    WritesAreIndexed(statements);
    forall j | 0 <= j < |w|
      ensures Fetch(Image(statements), pc, |w|)[j] == w[j].value
    {
      assert w[j] == all[at + j];
      ApplyKeeps(BLANK, all, at + j);
    }
  }

  // ----- the memory and its sections -----

  /** A counter reaches the cell it is congruent to, from one memory size below zero up to one above. */
  lemma IndexIff(pc: int, x: nat)
    ensures Index(pc) == Some(x) <==> x < 0x1_0000 && (pc == x || pc == x - 0x1_0000)
  {
  }

  /** A program is accepted exactly when both passes get through and every byte is stored inside its section: up to
      $C7FE from a section that begins below $C800, up to $C8FF from one that begins there or above. */
  lemma AcceptedIff(statements: seq<Statement>)
    ensures Accepted(statements) <==>
      && PassOne(statements, |statements|).Some? && PassTwo(statements, Final(statements), |statements|).Some?
      && forall w | w in Writes(statements) :: w.pc <= if w.c8 then 0xC8FF else 0xC7FE
  {
    hide Writes, PassOne, PassTwo, Final;
    TopIff(Writes(statements), false, 0xC7FF);
    TopIff(Writes(statements), true, 0xC900);
  }

  lemma {:induction false} TopIff(writes: seq<Write>, c8: bool, limit: nat)
    ensures Top(writes, c8) <= limit <==> forall w | w in writes && w.c8 == c8 :: w.pc < limit
  {
    if writes != [] {
      var n := |writes| - 1;
      TopIff(writes[..n], c8, limit);
      assert writes == writes[..n] + [writes[n]];
    }
  }
}
