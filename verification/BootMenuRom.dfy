/** The two-pass assembler of the boot menu ROM: a slot page, an expansion page and a relocation map. */
module BootMenuRom {
  import opened Bytes

  const SLOT_PAGE := 0xC700
  const SLOT_LIMIT := 0xC7FF
  const C8_PAGE := 0xC800
  const C8_LIMIT := 0xC900
  const MEMORY_SIZE := 0x1_0000

  datatype Mnemonic =
    | AND | ASL | BCC | BCS | BEQ | BMI | BNE | BPL | BVC | BVS | CLV | CMP | CPY | DEX | DEY | INX | INY | JMP | JSR
    | LDA | LDX | LDY | NOP | PHA | PLA | RTS | SEC | STA | STX | STY | TAX | TAY | TXA | TYA

  datatype Mode = Implied | Immediate | Relative | ZeroPage | Absolute | AbsoluteY

  datatype Expr =
    | Num(value: int) | Sym(name: string) | Here
    | Low(of: Expr) | High(of: Expr) | Plus(a: Expr, b: Expr) | Minus(a: Expr, b: Expr)

  datatype Form = Bare | Hash(immediate: Expr) | Direct(address: Expr) | CommaY(indexed: Expr)

  datatype Statement =
    | Assign(name: string, value: Expr)
    | Origin(address: Expr)
    | Data(items: seq<Expr>)
    | Label(name: string)
    | Instr(op: Mnemonic, form: Form)

  type Symbols = map<string, int>

  function Opcode(op: Mnemonic, mode: Mode): Option<byte> {
    match (op, mode)
    case (AND, Immediate) => Some(0x29)
    case (ASL, Implied) => Some(0x0A)
    case (BCC, Relative) => Some(0x90)
    case (BCS, Relative) => Some(0xB0)
    case (BEQ, Relative) => Some(0xF0)
    case (BNE, Relative) => Some(0xD0)
    case (BPL, Relative) => Some(0x10)
    case (BVC, Relative) => Some(0x50)
    case (CLV, Implied) => Some(0xB8)
    case (SEC, Implied) => Some(0x38)
    case (CMP, Immediate) => Some(0xC9)
    case (CPY, Immediate) => Some(0xC0)
    case (INY, Implied) => Some(0xC8)
    case (INX, Implied) => Some(0xE8)
    case (JMP, Absolute) => Some(0x4C)
    case (JSR, Absolute) => Some(0x20)
    case (LDA, Immediate) => Some(0xA9)
    case (LDA, Absolute) => Some(0xAD)
    case (LDA, ZeroPage) => Some(0xA5)
    case (LDA, AbsoluteY) => Some(0xB9)
    case (LDY, Immediate) => Some(0xA0)
    case (LDY, Absolute) => Some(0xAC)
    case (LDY, ZeroPage) => Some(0xA4)
    case (LDX, Immediate) => Some(0xA2)
    case (LDX, Absolute) => Some(0xAE)
    case (LDX, ZeroPage) => Some(0xA6)
    case (DEX, Implied) => Some(0xCA)
    case (DEY, Implied) => Some(0x88)
    case (PHA, Implied) => Some(0x48)
    case (PLA, Implied) => Some(0x68)
    case (NOP, Implied) => Some(0xEA)
    case (RTS, Implied) => Some(0x60)
    case (STA, Absolute) => Some(0x8D)
    case (STA, ZeroPage) => Some(0x85)
    case (STA, AbsoluteY) => Some(0x99)
    case (STX, Absolute) => Some(0x8E)
    case (STX, ZeroPage) => Some(0x86)
    case (STY, Absolute) => Some(0x8C)
    case (STY, ZeroPage) => Some(0x84)
    case (TAX, Implied) => Some(0xAA)
    case (TAY, Implied) => Some(0xA8)
    case (TXA, Implied) => Some(0x8A)
    case (TYA, Implied) => Some(0x98)
    case _ => None
  }

  predicate IsBranch(op: Mnemonic) {
    op in {BCC, BCS, BEQ, BMI, BNE, BPL, BVC, BVS}
  }

  predicate HasZeroPageForm(op: Mnemonic) {
    op in {LDA, LDY, LDX, STA, STX, STY}
  }

  /** `eval_expr`: an unknown symbol is an error. */
  function Eval(e: Expr, symbols: Symbols, pc: int): Option<int> {
    match e
    case Num(v) => Some(v)
    case Sym(name) => if name in symbols then Some(symbols[name]) else None
    case Here => Some(pc)
    case Low(f) => var v := Eval(f, symbols, pc); if v.None? then None else Some(v.value % 0x100)
    case High(f) => var v := Eval(f, symbols, pc); if v.None? then None else Some(v.value / 0x100 % 0x100)
    case Plus(a, b) =>
      var v, w := Eval(a, symbols, pc), Eval(b, symbols, pc);
      if v.None? || w.None? then None else Some(v.value + w.value)
    case Minus(a, b) =>
      var v, w := Eval(a, symbols, pc), Eval(b, symbols, pc);
      if v.None? || w.None? then None else Some(v.value - w.value)
  }

  /** `try_resolve`: plain arithmetic over symbols already known, and nothing else. */
  function TryResolve(e: Expr, symbols: Symbols): Option<int> {
    match e
    case Num(v) => Some(v)
    case Sym(name) => if name in symbols then Some(symbols[name]) else None
    case Here => None
    case Low(_) => None
    case High(_) => None
    case Plus(a, b) =>
      var v, w := TryResolve(a, symbols), TryResolve(b, symbols);
      if v.None? || w.None? then None else Some(v.value + w.value)
    case Minus(a, b) =>
      var v, w := TryResolve(a, symbols), TryResolve(b, symbols);
      if v.None? || w.None? then None else Some(v.value - w.value)
  }

  predicate FitsZeroPage(v: Option<int>) {
    v.Some? && 0 <= v.value < 0x100
  }

  /** `instruction_mode`: the zero-page form only when the operand is already known to be small. */
  function ModeOf(op: Mnemonic, form: Form, symbols: Symbols): Mode {
    if IsBranch(op) then Relative
    else
      match form
      case Bare => Implied
      case Hash(_) => Immediate
      case CommaY(_) => AbsoluteY
      case Direct(e) => if HasZeroPageForm(op) && FitsZeroPage(TryResolve(e, symbols)) then ZeroPage else Absolute
  }

  function Length(mode: Mode): nat {
    match mode
    case Implied => 1
    case Immediate => 2
    case Relative => 2
    case ZeroPage => 2
    case Absolute => 3
    case AbsoluteY => 3
  }

  /** One statement of `collect_symbols`. */
  function Collect(s: Statement, symbols: Symbols, pc: int): Option<(Symbols, int)> {
    match s
    case Assign(name, e) =>
      var v := Eval(e, symbols, pc);
      if v.None? then None else Some((symbols[name := v.value], pc))
    case Origin(e) =>
      var v := Eval(e, symbols, pc);
      if v.None? then None else Some((symbols, v.value))
    case Data(items) => Some((symbols, pc + |items|))
    case Label(name) => Some((symbols[name := pc], pc))
    case Instr(op, form) => Some((symbols, pc + Length(ModeOf(op, form, symbols))))
  }

  /** `collect_symbols` before statement `k`: the symbols so far and the address counter. */
  function PassOne(statements: seq<Statement>, k: nat): Option<(Symbols, int)>
    requires k <= |statements|
  {
    if k == 0 then Some((map[], 0))
    else
      var before := PassOne(statements, k - 1);
      if before.None? then None else Collect(statements[k - 1], before.value.0, before.value.1)
  }

  /** One byte stored by the second pass: where the counter stood, its value, whether it is marked for relocation,
      and whether the section it came from started in the expansion page. */
  datatype Write = Write(pc: int, value: byte, marked: bool, c8: bool)

  /** The operand expression a branch takes as its target. */
  function BranchTarget(form: Form): Option<Expr> {
    match form
    case Bare => None
    case Hash(e) => Some(e)
    case Direct(e) => Some(e)
    case CommaY(_) => None
  }

  /** `emit_instruction`: operands are evaluated with the counter behind the opcode. */
  function EmitInstr(op: Mnemonic, form: Form, symbols: Symbols, pc: int, c8: bool): Option<seq<Write>> {
    var mode := ModeOf(op, form, symbols);
    var opcode := Opcode(op, mode);
    if opcode.None? then None
    else
      var first := Write(pc, opcode.value, false, c8);
      match mode
      case Implied => Some([first])
      case Immediate =>
        var v := if form.Hash? then Eval(form.immediate, symbols, pc + 1) else None;
        if v.None? then None else Some([first, Write(pc + 1, v.value % 0x100, false, c8)])
      case Relative =>
        var e := BranchTarget(form);
        var v := if e.Some? then Eval(e.value, symbols, pc + 1) else None;
        if v.None? || !(-128 <= v.value - (pc + 2) <= 127) then None
        else Some([first, Write(pc + 1, (v.value - (pc + 2)) % 0x100, false, c8)])
      case ZeroPage =>
        var v := if form.Direct? then Eval(form.address, symbols, pc + 1) else None;
        if v.None? then None else Some([first, Write(pc + 1, v.value % 0x100, false, c8)])
      case Absolute =>
        var v := if form.Direct? then Eval(form.address, symbols, pc + 1) else None;
        if v.None? then None else Some([first] + AddressWrites(v.value, pc, c8))
      case AbsoluteY =>
        var v := if form.CommaY? then Eval(form.indexed, symbols, pc + 1) else None;
        if v.None? then None else Some([first] + AddressWrites(v.value, pc, c8))
  }

  function AddressWrites(address: int, pc: int, c8: bool): seq<Write> {
    [Write(pc + 1, address % 0x100, false, c8),
     Write(pc + 2, address / 0x100 % 0x100, SLOT_PAGE <= address <= SLOT_LIMIT, c8)]
  }

  function EmitData(items: seq<Expr>, n: nat, symbols: Symbols, pc: int, c8: bool): Option<seq<Write>>
    requires n <= |items|
  {
    if n == 0 then Some([])
    else
      var before := EmitData(items, n - 1, symbols, pc, c8);
      var v := Eval(items[n - 1], symbols, pc + n - 1);
      if before.None? || v.None? then None else Some(before.value + [Write(pc + n - 1, v.value % 0x100, false, c8)])
  }

  datatype Progress = Progress(pc: int, c8: bool, writes: seq<Write>)

  /** `bytearray` indexing: a negative index counts from the end, anything else outside is an error. */
  function Index(pc: int): Option<nat> {
    if 0 <= pc < MEMORY_SIZE then Some(pc)
    else if -MEMORY_SIZE <= pc < 0 then Some(pc + MEMORY_SIZE)
    else None
  }

  predicate AllIndexed(writes: seq<Write>) {
    forall w | w in writes :: Index(w.pc).Some?
  }

  ghost predicate ConsecutiveFrom(writes: seq<Write>, pc: int, c8: bool) {
    forall j | 0 <= j < |writes| :: writes[j].pc == pc + j && writes[j].c8 == c8
  }

  /** One statement of the second pass. */
  function Advance(s: Statement, symbols: Symbols, now: Progress): Option<Progress> {
    match s
    case Assign(_, _) => Some(now)
    case Label(_) => Some(now)
    case Origin(e) =>
      var v := Eval(e, symbols, now.pc);
      if v.None? then None else Some(Progress(v.value, v.value >= C8_PAGE, now.writes))
    case Data(items) =>
      var w := EmitData(items, |items|, symbols, now.pc, now.c8);
      if w.None? || !AllIndexed(w.value) then None
      else Some(Progress(now.pc + |items|, now.c8, now.writes + w.value))
    case Instr(op, form) =>
      var w := EmitInstr(op, form, symbols, now.pc, now.c8);
      if w.None? || !AllIndexed(w.value) then None
      else Some(Progress(now.pc + |w.value|, now.c8, now.writes + w.value))
  }

  /** `build` before statement `k`. */
  function PassTwo(statements: seq<Statement>, symbols: Symbols, k: nat): Option<Progress>
    requires k <= |statements|
  {
    if k == 0 then Some(Progress(0, false, []))
    else
      var before := PassTwo(statements, symbols, k - 1);
      if before.None? then None else Advance(statements[k - 1], symbols, before.value)
  }

  // ----- the two passes agree -----

  predicate Defines(s: Statement, name: string) {
    (s.Assign? || s.Label?) && s.name == name
  }

  /** No symbol is defined twice. */
  ghost predicate NoRedefinition(statements: seq<Statement>) {
    forall i, j, name | 0 <= i < j < |statements| && Defines(statements[i], name) :: !Defines(statements[j], name)
  }

  /** A zero-page capable operand that is unknown in the first pass but small in the end. */
  predicate ShrinksLate(s: Statement, early: Symbols, final: Symbols) {
    && s.Instr? && !IsBranch(s.op) && HasZeroPageForm(s.op) && s.form.Direct?
    && TryResolve(s.form.address, early).None? && FitsZeroPage(TryResolve(s.form.address, final))
  }

  ghost predicate Extends(early: Symbols, final: Symbols) {
    forall name | name in early :: name in final && final[name] == early[name]
  }

  lemma {:induction false} EvalExtends(e: Expr, early: Symbols, final: Symbols, pc: int)
    requires Extends(early, final) && Eval(e, early, pc).Some?
    ensures Eval(e, final, pc) == Eval(e, early, pc)
  {
    match e
    case Low(f) => EvalExtends(f, early, final, pc);
    case High(f) => EvalExtends(f, early, final, pc);
    case Plus(a, b) => EvalExtends(a, early, final, pc); EvalExtends(b, early, final, pc);
    case Minus(a, b) => EvalExtends(a, early, final, pc); EvalExtends(b, early, final, pc);
    case _ =>
  }

  lemma {:induction false} ResolveExtends(e: Expr, early: Symbols, final: Symbols)
    requires Extends(early, final) && TryResolve(e, early).Some?
    ensures TryResolve(e, final) == TryResolve(e, early)
  {
    match e
    case Plus(a, b) => ResolveExtends(a, early, final); ResolveExtends(b, early, final);
    case Minus(a, b) => ResolveExtends(a, early, final); ResolveExtends(b, early, final);
    case _ =>
  }

  /** The two passes size an instruction alike exactly when its operand does not shrink late. */
  lemma SizesAgreeIff(s: Statement, early: Symbols, final: Symbols)
    requires s.Instr? && Extends(early, final)
    ensures Length(ModeOf(s.op, s.form, early)) == Length(ModeOf(s.op, s.form, final))
        <==> !ShrinksLate(s, early, final)
  {
    if s.form.Direct? && TryResolve(s.form.address, early).Some? {
      ResolveExtends(s.form.address, early, final);
    }
  }

  lemma {:induction false} SymbolsComeFromDefinitions(statements: seq<Statement>, k: nat, name: string)
    requires k <= |statements| && PassOne(statements, k).Some? && name in PassOne(statements, k).value.0
    ensures exists i | 0 <= i < k :: Defines(statements[i], name)
  {
    if name in PassOne(statements, k - 1).value.0 {
      SymbolsComeFromDefinitions(statements, k - 1, name);
    } else {
      assert Defines(statements[k - 1], name);
    }
  }

  lemma {:induction false} SymbolsOnlyGrow(statements: seq<Statement>, k: nat, m: nat)
    requires k <= m <= |statements| && PassOne(statements, m).Some? && NoRedefinition(statements)
    ensures PassOne(statements, k).Some? && Extends(PassOne(statements, k).value.0, PassOne(statements, m).value.0)
    decreases m - k
  {
    if k < m {
      SymbolsOnlyGrow(statements, k, m - 1);
      var before, after := PassOne(statements, m - 1).value.0, PassOne(statements, m).value.0;
      forall name | name in before
        ensures name in after && after[name] == before[name]
      {
        SymbolsComeFromDefinitions(statements, m - 1, name);
        var i :| 0 <= i < m - 1 && Defines(statements[i], name);
        assert !Defines(statements[m - 1], name);
      }
    }
  }

  lemma EmitLength(op: Mnemonic, form: Form, symbols: Symbols, pc: int, c8: bool)
    requires EmitInstr(op, form, symbols, pc, c8).Some?
    ensures |EmitInstr(op, form, symbols, pc, c8).value| == Length(ModeOf(op, form, symbols))
    ensures ConsecutiveFrom(EmitInstr(op, form, symbols, pc, c8).value, pc, c8)
  {
    hide Opcode, ModeOf, Eval;
  }

  lemma {:induction false} DataLength(items: seq<Expr>, n: nat, symbols: Symbols, pc: int, c8: bool)
    requires n <= |items| && EmitData(items, n, symbols, pc, c8).Some?
    ensures |EmitData(items, n, symbols, pc, c8).value| == n
    ensures ConsecutiveFrom(EmitData(items, n, symbols, pc, c8).value, pc, c8)
  {
    if n > 0 {
      DataLength(items, n - 1, symbols, pc, c8);
    }
  }

  /** A statement moves the counter alike under the symbols known before it and under the final ones. */
  predicate MovesAlike(s: Statement, early: Symbols, final: Symbols, pc: int) {
    match s
    case Instr(op, form) => Length(ModeOf(op, form, early)) == Length(ModeOf(op, form, final))
    case Origin(e) => Eval(e, early, pc) == Eval(e, final, pc)
    case _ => true
  }

  lemma StepsAgreeIff(s: Statement, early: Symbols, final: Symbols, now: Progress)
    requires Collect(s, early, now.pc).Some? && Advance(s, final, now).Some?
    ensures Advance(s, final, now).value.pc == Collect(s, early, now.pc).value.1
        <==> MovesAlike(s, early, final, now.pc)
  {
    hide Opcode, ModeOf, EmitInstr, EmitData, Eval, AllIndexed, Length;
    match s
    case Instr(op, form) => EmitLength(op, form, final, now.pc, now.c8);
    case _ =>
  }

  /** The first `n` statements all move the counter alike. */
  ghost predicate AllMoveAlike(statements: seq<Statement>, n: nat)
    requires n <= |statements|
  {
    forall k | 0 <= k < n && PassOne(statements, k).Some? ::
      MovesAlike(statements[k], PassOne(statements, k).value.0, Final(statements), PassOne(statements, k).value.1)
  }

  lemma {:induction false} FirstPassReaches(statements: seq<Statement>, k: nat, n: nat)
    requires k <= n <= |statements| && PassOne(statements, n).Some?
    ensures PassOne(statements, k).Some?
    decreases n - k
  {
    if k < n {
      hide Collect;
      FirstPassReaches(statements, k, n - 1);
    }
  }

  lemma {:induction false} CountersAgree(statements: seq<Statement>, k: nat)
    requires k <= |statements| && PassOne(statements, |statements|).Some? && AllMoveAlike(statements, k)
    requires PassTwo(statements, Final(statements), k).Some?
    ensures SameAddress(statements, k)
  {
    hide Advance, Collect, MovesAlike;
    var final := Final(statements);
    FirstPassReaches(statements, k, |statements|);
    if k > 0 {
      FirstPassReaches(statements, k - 1, |statements|);
      CountersAgree(statements, k - 1);
      StepsAgreeIff(statements[k - 1], PassOne(statements, k - 1).value.0, final,
          PassTwo(statements, final, k - 1).value);
    }
  }

  /** For every program both passes accept, redefinitions included: all addresses agree exactly when every instruction
      is sized alike, and every origin evaluates alike, under the symbols before it and under the final ones. */
  lemma AddressesAgreeIffMovedAlike(statements: seq<Statement>)
    requires PassOne(statements, |statements|).Some? && PassTwo(statements, Final(statements), |statements|).Some?
    ensures AddressesAgree(statements) <==> AllMoveAlike(statements, |statements|)
  {
    hide Advance, Collect, MovesAlike;
    var n, final := |statements|, Final(statements);
    if AllMoveAlike(statements, n) {
      forall k | 0 <= k <= n ensures SameAddress(statements, k) {
        SecondPassReaches(statements, final, k, n);
        CountersAgree(statements, k);
      }
    }
    if AddressesAgree(statements) {
      forall k | 0 <= k < n && PassOne(statements, k).Some?
        ensures MovesAlike(statements[k], PassOne(statements, k).value.0, final, PassOne(statements, k).value.1)
      {
        assert SameAddress(statements, k) && SameAddress(statements, k + 1);
        StepsAgreeIff(statements[k], PassOne(statements, k).value.0, final, PassTwo(statements, final, k).value);
      }
    }
  }

  /** None of the first `k` statements has an operand that shrinks late. */
  ghost predicate NoneShrinksLate(statements: seq<Statement>, k: nat, final: Symbols)
    requires k <= |statements|
  {
    forall i | 0 <= i < k && PassOne(statements, i).Some? ::
        !ShrinksLate(statements[i], PassOne(statements, i).value.0, final)
  }

  /** The program is one the assembler's users rely on: collected, nothing defined twice, nothing shrinking late. */
  ghost predicate Dependable(statements: seq<Statement>) {
    && PassOne(statements, |statements|).Some? && NoRedefinition(statements)
    && NoneShrinksLate(statements, |statements|, Final(statements))
  }

  function Final(statements: seq<Statement>): Symbols {
    var end := PassOne(statements, |statements|);
    if end.None? then map[] else end.value.0
  }

  /** Where no symbol is redefined, origins take care of themselves and only a late shrink remains. */
  lemma MovedAlikeIff(statements: seq<Statement>)
    requires PassOne(statements, |statements|).Some? && NoRedefinition(statements)
    ensures AllMoveAlike(statements, |statements|) <==> NoneShrinksLate(statements, |statements|, Final(statements))
  {
    hide NoRedefinition, Extends, ShrinksLate, MovesAlike, Collect;
    forall k | 0 <= k < |statements|
      ensures PassOne(statements, k).Some?
      ensures MovesAlike(statements[k], PassOne(statements, k).value.0, Final(statements),
          PassOne(statements, k).value.1)
              <==> !ShrinksLate(statements[k], PassOne(statements, k).value.0, Final(statements))
    {
      SymbolsOnlyGrow(statements, k, |statements|);
      FirstPassReaches(statements, k + 1, |statements|);
      MovesAlikeIff(statements[k], PassOne(statements, k).value.0, Final(statements), PassOne(statements, k).value.1);
    }
  }

  lemma MovesAlikeIff(s: Statement, early: Symbols, final: Symbols, pc: int)
    requires Extends(early, final) && Collect(s, early, pc).Some?
    ensures MovesAlike(s, early, final, pc) <==> !ShrinksLate(s, early, final)
  {
    hide ModeOf, Length, Eval, Extends;
    match s
    case Origin(e) => EvalExtends(e, early, final, pc);
    case Instr(_, _) => SizesAgreeIff(s, early, final);
    case _ =>
  }

  /** In a dependable program every statement is emitted at the address the first pass gave it. */
  lemma PassesAgree(statements: seq<Statement>, k: nat)
    requires k <= |statements| && Dependable(statements) && PassTwo(statements, Final(statements), k).Some?
    ensures PassOne(statements, k).Some?
    ensures PassTwo(statements, Final(statements), k).value.pc == PassOne(statements, k).value.1
  {
    hide NoRedefinition, MovesAlike, ShrinksLate, PassOne, PassTwo;
    MovedAlikeIff(statements);
    CountersAgree(statements, k);
  }

  /** So without redefinitions all addresses agree exactly when no operand shrinks late. */
  lemma AddressesAgreeIff(statements: seq<Statement>)
    requires PassOne(statements, |statements|).Some? && NoRedefinition(statements)
    requires PassTwo(statements, Final(statements), |statements|).Some?
    ensures NoneShrinksLate(statements, |statements|, Final(statements)) <==> AddressesAgree(statements)
  {
    AddressesAgreeIffMovedAlike(statements);
    MovedAlikeIff(statements);
  }

  ghost predicate SameAddress(statements: seq<Statement>, k: nat)
    requires k <= |statements|
  {
    && PassOne(statements, k).Some? && PassTwo(statements, Final(statements), k).Some?
    && PassTwo(statements, Final(statements), k).value.pc == PassOne(statements, k).value.1
  }

  ghost predicate AddressesAgree(statements: seq<Statement>) {
    forall k | 0 <= k <= |statements| :: SameAddress(statements, k)
  }

  lemma {:induction false} SecondPassReaches(statements: seq<Statement>, symbols: Symbols, k: nat, m: nat)
    requires k <= m <= |statements| && PassTwo(statements, symbols, m).Some?
    ensures PassTwo(statements, symbols, k).Some?
    ensures PassTwo(statements, symbols, k).value.writes <= PassTwo(statements, symbols, m).value.writes
    decreases m - k
  {
    if k < m {
      hide EmitInstr, EmitData, Eval, AllIndexed;
      SecondPassReaches(statements, symbols, k, m - 1);
    }
  }

  /** So a label ends up as the address of the statement behind it. */
  lemma LabelsAreAddresses(statements: seq<Statement>, k: nat)
    requires k < |statements| && statements[k].Label? && Dependable(statements)
    requires PassTwo(statements, Final(statements), k).Some?
    ensures statements[k].name in Final(statements)
    ensures Final(statements)[statements[k].name] == PassTwo(statements, Final(statements), k).value.pc
  {
    hide Advance, NoRedefinition, ShrinksLate;
    PassesAgree(statements, k);
    SymbolsOnlyGrow(statements, k + 1, |statements|);
  }

  /** A zero-page symbol assigned behind its use moves every later label away from its statement. */
  lemma LateShrinkWitness(statements: seq<Statement>)
    requires statements == [Instr(LDA, Direct(Sym("Z"))), Label("L"), Assign("Z", Num(5))]
    ensures PassOne(statements, 3) == Some((map["L" := 3, "Z" := 5], 3)) && NoRedefinition(statements)
    ensures PassTwo(statements, map["L" := 3, "Z" := 5], 1).Some?
        && PassTwo(statements, map["L" := 3, "Z" := 5], 1).value.pc == 2
  {
    assert TryResolve(Sym("Z"), map[]) == None;
    assert ModeOf(LDA, Direct(Sym("Z")), map[]) == Absolute;
    assert PassOne(statements, 1) == Some((map[], 3));
    assert PassOne(statements, 2) == Some((map["L" := 3], 3));
    var final := map["L" := 3, "Z" := 5];
    assert TryResolve(Sym("Z"), final) == Some(5) && Eval(Sym("Z"), final, 1) == Some(5);
    assert ModeOf(LDA, Direct(Sym("Z")), final) == ZeroPage;
    assert EmitInstr(LDA, Direct(Sym("Z")), final, 0, false)
        == Some([Write(0, 0xA5, false, false), Write(1, 5, false, false)]);
  }

  /** So does a symbol redefined behind its use, though nothing shrinks late. */
  lemma RedefinitionWitness(statements: seq<Statement>)
    requires statements == [Assign("Z", Num(5)), Instr(LDA, Direct(Sym("Z"))), Label("L"), Assign("Z", Num(0x300))]
    ensures var final := map["Z" := 0x300, "L" := 2];
            && PassOne(statements, 4) == Some((final, 2)) && NoneShrinksLate(statements, 4, final)
            && PassTwo(statements, final, 2).Some? && PassTwo(statements, final, 2).value.pc == 3
  {
    var early, final := map["Z" := 5], map["Z" := 0x300, "L" := 2];
    assert TryResolve(Sym("Z"), early) == Some(5) && TryResolve(Sym("Z"), final) == Some(0x300);
    assert ModeOf(LDA, Direct(Sym("Z")), early) == ZeroPage && ModeOf(LDA, Direct(Sym("Z")), final) == Absolute;
    assert PassOne(statements, 1) == Some((early, 0));
    assert PassOne(statements, 2) == Some((early, 2));
    assert PassOne(statements, 3) == Some((map["Z" := 5, "L" := 2], 2));
    assert early["L" := 2]["Z" := 0x300] == final;
    assert PassTwo(statements, final, 1) == Some(Progress(0, false, []));
    assert Eval(Sym("Z"), final, 1) == Some(0x300);
    var w := [Write(0, 0xAD, false, false), Write(1, 0, false, false), Write(2, 3, false, false)];
    assert [w[0]] + AddressWrites(0x300, 0, false) == w;
    assert EmitInstr(LDA, Direct(Sym("Z")), final, 0, false) == Some(w);
  }
}
