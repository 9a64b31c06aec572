/** The two-pass assembler of the mouse card ROM and the layout of its 256-byte page. */
module MouseRom {
  import opened Bytes

  const BASE := 0xC200
  const CODE_ORG := 0xC21B
  const CODE_END := 0xC2FB

  datatype Mnemonic =
    | AND | BCC | BCS | BEQ | BMI | BNE | BPL | BVC | BVS | CLC | CMP | EOR | JMP | JSR | LDA | LDX | LSR
    | PHA | PLA | RTS | SBC | SEC | STA | TAX | Unknown

  datatype Mode = Implied | Immediate | Relative | Absolute | AbsoluteX

  datatype Operand = Literal(value: nat) | Symbol(name: string)

  datatype Form = Bare | Hash(immediate: Operand) | Plain(address: Operand) | CommaX(indexed: Operand)

  datatype Statement = Label(name: string) | Op(mnemonic: Mnemonic, form: Form)

  /** What a statement means once its operand is known. A bare statement has operand zero. */
  datatype Instruction = Instruction(mnemonic: Mnemonic, mode: Mode, operand: int)

  type Symbols = map<string, int>

  predicate IsBranch(m: Mnemonic) {
    m in {BCC, BCS, BEQ, BMI, BNE, BPL, BVC, BVS}
  }

  function Opcode(m: Mnemonic, mode: Mode): Option<byte> {
    match (m, mode)
    case (AND, Immediate) => Some(0x29)
    case (BCS, Relative) => Some(0xB0)
    case (BEQ, Relative) => Some(0xF0)
    case (BNE, Relative) => Some(0xD0)
    case (CLC, Implied) => Some(0x18)
    case (CMP, Immediate) => Some(0xC9)
    case (EOR, Immediate) => Some(0x49)
    case (JMP, Absolute) => Some(0x4C)
    case (JSR, Absolute) => Some(0x20)
    case (LDA, Immediate) => Some(0xA9)
    case (LDA, Absolute) => Some(0xAD)
    case (LDA, AbsoluteX) => Some(0xBD)
    case (LDX, Immediate) => Some(0xA2)
    case (LSR, Implied) => Some(0x4A)
    case (PHA, Implied) => Some(0x48)
    case (PLA, Implied) => Some(0x68)
    case (RTS, Implied) => Some(0x60)
    case (SBC, Immediate) => Some(0xE9)
    case (SEC, Implied) => Some(0x38)
    case (STA, Absolute) => Some(0x8D)
    case (STA, AbsoluteX) => Some(0x9D)
    case (TAX, Implied) => Some(0xAA)
    case _ => None
  }

  /** The processor's own reading of an opcode byte. */
  function Decode(b: byte): Option<(Mnemonic, Mode)> {
    match b
    case 0x29 => Some((AND, Immediate))
    case 0xB0 => Some((BCS, Relative))
    case 0xF0 => Some((BEQ, Relative))
    case 0xD0 => Some((BNE, Relative))
    case 0x18 => Some((CLC, Implied))
    case 0xC9 => Some((CMP, Immediate))
    case 0x49 => Some((EOR, Immediate))
    case 0x4C => Some((JMP, Absolute))
    case 0x20 => Some((JSR, Absolute))
    case 0xA9 => Some((LDA, Immediate))
    case 0xAD => Some((LDA, Absolute))
    case 0xBD => Some((LDA, AbsoluteX))
    case 0xA2 => Some((LDX, Immediate))
    case 0x4A => Some((LSR, Implied))
    case 0x48 => Some((PHA, Implied))
    case 0x68 => Some((PLA, Implied))
    case 0x60 => Some((RTS, Implied))
    case 0xE9 => Some((SBC, Immediate))
    case 0x38 => Some((SEC, Implied))
    case 0x8D => Some((STA, Absolute))
    case 0x9D => Some((STA, AbsoluteX))
    case 0xAA => Some((TAX, Implied))
    case _ => None
  }

  lemma DecodeOfOpcode(m: Mnemonic, mode: Mode)
    requires Opcode(m, mode).Some?
    ensures Decode(Opcode(m, mode).value) == Some((m, mode))
  {
  }

  function Length(mode: Mode): nat {
    match mode
    case Implied => 1
    case Immediate => 2
    case Relative => 2
    case Absolute => 3
    case AbsoluteX => 3
  }

  /** `statement_size`, from the text alone. */
  function Size(s: Statement): nat {
    match s
    case Label(_) => 0
    case Op(m, form) =>
      if form.Bare? then 1 else if IsBranch(m) then 2 else if form.Hash? then 2 else 3
  }

  function Resolve(o: Operand, symbols: Symbols): Option<int> {
    match o
    case Literal(v) => Some(v)
    case Symbol(name) => if name in symbols then Some(symbols[name]) else None
  }

  /** The instruction a statement stands for, or nothing if the assembler refuses it. */
  function Meaning(s: Statement, symbols: Symbols): Option<Instruction>
    requires s.Op?
  {
    var m := s.mnemonic;
    match s.form
    case Bare => Some(Instruction(m, Implied, 0))
    case Hash(o) =>
      var v := Resolve(o, symbols);
      if IsBranch(m) || v.None? then None else Some(Instruction(m, Immediate, v.value))
    case Plain(o) =>
      var v := Resolve(o, symbols);
      if v.None? then None else Some(Instruction(m, if IsBranch(m) then Relative else Absolute, v.value))
    case CommaX(o) =>
      var v := Resolve(o, symbols);
      if IsBranch(m) || v.None? then None else Some(Instruction(m, AbsoluteX, v.value))
  }

  /** The bytes of one instruction at `pc`. */
  function Encode(i: Instruction, pc: int): Option<seq<byte>> {
    var opcode := Opcode(i.mnemonic, i.mode);
    if opcode.None? then None
    else
      match i.mode
      case Implied => Some([opcode.value])
      case Immediate => if i.operand > 0xFF || i.operand < 0 then None else Some([opcode.value, i.operand])
      case Relative =>
        var rel := i.operand - (pc + 2);
        if rel < -128 || rel > 127 then None else Some([opcode.value, rel % 0x100])
      case Absolute => Some([opcode.value, i.operand % 0x100, i.operand / 0x100 % 0x100])
      case AbsoluteX => Some([opcode.value, i.operand % 0x100, i.operand / 0x100 % 0x100])
  }

  /** First pass: label addresses. A name may be defined only once. */
  function PassOne(statements: seq<Statement>, symbols: Symbols, pc: int): Option<(Symbols, int)> {
    if statements == [] then Some((symbols, pc))
    else if statements[0].Label? then
      if statements[0].name in symbols then None
      else PassOne(statements[1..], symbols[statements[0].name := pc], pc)
    else PassOne(statements[1..], symbols, pc + Size(statements[0]))
  }

  /** Second pass: the bytes. */
  function PassTwo(statements: seq<Statement>, symbols: Symbols, pc: int): Option<seq<byte>> {
    if statements == [] then Some([])
    else if statements[0].Label? then PassTwo(statements[1..], symbols, pc)
    else
      var i := Meaning(statements[0], symbols);
      if i.None? then None
      else
        var bytes := Encode(i.value, pc);
        if bytes.None? then None
        else
          var rest := PassTwo(statements[1..], symbols, pc + |bytes.value|);
          if rest.None? then None else Some(bytes.value + rest.value)
  }

  /** The instructions of a program, labels resolved. */
  function Meanings(statements: seq<Statement>, symbols: Symbols): (r: seq<Instruction>) {
    if statements == [] then []
    else if statements[0].Label? || Meaning(statements[0], symbols).None? then Meanings(statements[1..], symbols)
    else [Meaning(statements[0], symbols).value] + Meanings(statements[1..], symbols)
  }

  /** Read a byte string back as instructions. */
  function Disassemble(code: seq<byte>, pc: int): Option<seq<Instruction>>
    decreases |code|
  {
    if code == [] then Some([])
    else
      var d := Decode(code[0]);
      if d.None? || |code| < Length(d.value.1) then None
      else
        var (m, mode) := d.value;
        var operand: int := match mode
          case Implied => 0
          case Immediate => code[1]
          case Relative => pc + 2 + (if code[1] < 0x80 then code[1] as int else code[1] as int - 0x100)
          case Absolute => code[1] as int + code[2] as int * 0x100
          case AbsoluteX => code[1] as int + code[2] as int * 0x100;
        var rest := Disassemble(code[Length(mode)..], pc + Length(mode));
        if rest.None? then None else Some([Instruction(m, mode, operand)] + rest.value)
  }

  predicate Is16Bit(i: Instruction) {
    i.mode in {Absolute, AbsoluteX} ==> 0 <= i.operand < 0x1_0000
  }

  /** Both passes agree on the size of every statement the second one accepts. */
  lemma SizesAgree(s: Statement, symbols: Symbols, pc: int)
    requires s.Op? && Meaning(s, symbols).Some? && Encode(Meaning(s, symbols).value, pc).Some?
    ensures |Encode(Meaning(s, symbols).value, pc).value| == Size(s) == Length(Meaning(s, symbols).value.mode)
  {
    var i := Meaning(s, symbols).value;
    assert IsBranch(i.mnemonic) && i.mode == Implied ==> Opcode(i.mnemonic, i.mode).None?;
  }

  lemma {:induction false} PassOneAdvances(statements: seq<Statement>, symbols: Symbols, final: Symbols, pc: int)
    requires PassOne(statements, symbols, pc).Some? && PassTwo(statements, final, pc).Some?
    ensures PassOne(statements, symbols, pc).value.1 == pc + |PassTwo(statements, final, pc).value|
    decreases statements
  {
    if statements != [] {
      if statements[0].Label? {
        PassOneAdvances(statements[1..], symbols[statements[0].name := pc], final, pc);
      } else {
        SizesAgree(statements[0], final, pc);
        PassOneAdvances(statements[1..], symbols, final, pc + Size(statements[0]));
      }
    }
  }

  lemma {:induction false} SymbolsAreKept(statements: seq<Statement>, symbols: Symbols, pc: int, name: string)
    requires PassOne(statements, symbols, pc).Some? && name in symbols
    ensures name in PassOne(statements, symbols, pc).value.0
        && PassOne(statements, symbols, pc).value.0[name] == symbols[name]
    decreases statements
  {
    if statements != [] {
      if statements[0].Label? {
        SymbolsAreKept(statements[1..], symbols[statements[0].name := pc], pc, name);
      } else {
        SymbolsAreKept(statements[1..], symbols, pc + Size(statements[0]), name);
      }
    }
  }

  /** Every label stands for the origin plus the bytes emitted before it. */
  lemma {:induction false} LabelsAreAddresses(
      statements: seq<Statement>, symbols: Symbols, final: Symbols, pc: int, k: nat)
    requires PassOne(statements, symbols, pc).Some? && PassTwo(statements, final, pc).Some?
    requires k < |statements| && statements[k].Label?
    ensures PassTwo(statements[..k], final, pc).Some?
    ensures var r := PassOne(statements, symbols, pc).value.0;
            statements[k].name in r && r[statements[k].name] == pc + |PassTwo(statements[..k], final, pc).value|
    decreases statements
  {
    if k == 0 {
      SymbolsAreKept(statements[1..], symbols[statements[0].name := pc], pc, statements[0].name);
    } else {
      assert statements[..k][1..] == statements[1..][..k - 1];
      if statements[0].Label? {
        LabelsAreAddresses(statements[1..], symbols[statements[0].name := pc], final, pc, k - 1);
      } else {
        SizesAgree(statements[0], final, pc);
        LabelsAreAddresses(statements[1..], symbols, final, pc + Size(statements[0]), k - 1);
      }
    }
  }

  lemma EncodedReadsBack(i: Instruction, pc: int, rest: seq<byte>)
    requires Encode(i, pc).Some? && (i.mode == Implied ==> i.operand == 0)
    ensures var bytes := Encode(i, pc).value;
            var code := bytes + rest;
            var tail := Disassemble(rest, pc + |bytes|);
            && |bytes| == Length(i.mode)
            && (tail.None? ==> Disassemble(code, pc).None?)
            && (tail.Some? ==> Disassemble(code, pc).Some? && Disassemble(code, pc).value[1..] == tail.value
                               && |Disassemble(code, pc).value| > 0)
            && (tail.Some? ==> (Disassemble(code, pc).value[0] == i <==> Is16Bit(i)))
  {
    DecodeOfOpcode(i.mnemonic, i.mode);
    var bytes := Encode(i, pc).value;
    assert (bytes + rest)[Length(i.mode)..] == rest;
    if i.mode in {Absolute, AbsoluteX} {
      WordReadsBack(i.operand);
    }
  }

  lemma WordReadsBack(v: int)
    ensures v % 0x100 + v / 0x100 % 0x100 * 0x100 == v <==> 0 <= v < 0x1_0000
  {
  }

  /** What disassembling `code` gives back of `program`: one instruction for one, and all the same exactly when every
      absolute operand fits sixteen bits. */
  ghost predicate ReadsBack(code: seq<byte>, pc: int, program: seq<Instruction>) {
    var read := Disassemble(code, pc);
    && read.Some? && |read.value| == |program|
    && (read.value == program <==> forall i | i in program :: Is16Bit(i))
  }

  lemma ReadsBackOneMore(i: Instruction, pc: int, rest: seq<byte>, program: seq<Instruction>)
    requires Encode(i, pc).Some? && (i.mode == Implied ==> i.operand == 0)
    requires ReadsBack(rest, pc + |Encode(i, pc).value|, program)
    ensures ReadsBack(Encode(i, pc).value + rest, pc, [i] + program)
  {
    EncodedReadsBack(i, pc, rest);
    hide Disassemble, Encode, Is16Bit;
    var read := Disassemble(Encode(i, pc).value + rest, pc).value;
    assert read == [read[0]] + read[1..];
    assert ([i] + program)[0] == i && ([i] + program)[1..] == program;
    assert (forall j | j in [i] + program :: Is16Bit(j)) <==> Is16Bit(i) && forall j | j in program :: Is16Bit(j);
  }

  /** Disassembling the emitted code gives back the program, instruction for instruction, exactly when every absolute
      operand fits sixteen bits; larger ones are truncated without a word. */
  lemma {:induction false} DisassemblyIsInverse(statements: seq<Statement>, symbols: Symbols, pc: int)
    requires PassTwo(statements, symbols, pc).Some?
    ensures ReadsBack(PassTwo(statements, symbols, pc).value, pc, Meanings(statements, symbols))
    decreases statements
  {
    hide Encode, Disassemble, Opcode;
    if statements != [] {
      if statements[0].Label? {
        DisassemblyIsInverse(statements[1..], symbols, pc);
      } else {
        var i := Meaning(statements[0], symbols).value;
        hide ReadsBack, Meaning;
        var bytes := Encode(i, pc).value;
        DisassemblyIsInverse(statements[1..], symbols, pc + |bytes|);
        ImpliedIsZero(statements[0], symbols);
        ReadsBackOneMore(i, pc, PassTwo(statements[1..], symbols, pc + |bytes|).value,
            Meanings(statements[1..], symbols));
      }
    } else {
      NothingReadsBack(pc);
    }
  }

  lemma NothingReadsBack(pc: int)
    ensures ReadsBack([], pc, [])
  {
  }

  lemma ImpliedIsZero(s: Statement, symbols: Symbols)
    requires s.Op? && Meaning(s, symbols).Some?
    ensures Meaning(s, symbols).value.mode == Implied ==> Meaning(s, symbols).value.operand == 0
  {
  }

  /** A jump to $12345 is accepted and assembled as a jump to $2345. */
  lemma TruncatedJumpAccepted()
    ensures var program := [Op(JMP, Plain(Literal(0x1_2345)))];
            && Assembled([], program) == Some(([0x4C, 0x45, 0x23], PINNED_SYMBOLS))
            && Disassemble([0x4C, 0x45, 0x23], CODE_ORG) == Some([Instruction(JMP, Absolute, 0x2345)])
  {
    var program := [Op(JMP, Plain(Literal(0x1_2345)))];
    assert program[1..] == [] && PINNED_SYMBOLS + map[] == PINNED_SYMBOLS;
    assert PassOne([], PINNED_SYMBOLS, CODE_ORG + 3) == Some((PINNED_SYMBOLS, CODE_ORG + 3));
    assert PassOne(program, PINNED_SYMBOLS, CODE_ORG) == Some((PINNED_SYMBOLS, CODE_ORG + 3));
    assert Encode(Instruction(JMP, Absolute, 0x1_2345), CODE_ORG) == Some([0x4C, 0x45, 0x23]);
    assert PassTwo([], PINNED_SYMBOLS, CODE_ORG + 3) == Some([]);
    var code: seq<byte> := [0x4C, 0x45, 0x23];
    assert code + [] == code;
    assert PassTwo(program, PINNED_SYMBOLS, CODE_ORG) == Some(code);
    var read := Instruction(JMP, Absolute, 0x2345);
    assert code[3..] == [] && Disassemble(code[3..], CODE_ORG + 3) == Some([]) && [read] + [] == [read];
    assert Disassemble(code, CODE_ORG) == Some([read]);
  }

  const PINNED_SYMBOLS: Symbols := map["slotregs" := BASE, "secrts" := BASE + 0x05, "stcmd" := BASE + 0x0D]

  /** The equates in order; a name may be equated only once. */
  function Equated(equates: seq<(string, nat)>, n: nat): Option<Symbols>
    requires n <= |equates|
  {
    if n == 0 then Some(map[])
    else
      var before := Equated(equates, n - 1);
      if before.None? || equates[n - 1].0 in before.value then None
      else Some(before.value[equates[n - 1].0 := equates[n - 1].1])
  }

  /** The result of an assembly: its code and its symbols, unless some step refuses the program. */
  function Assembled(equates: seq<(string, nat)>, statements: seq<Statement>): Option<(seq<byte>, Symbols)> {
    var equated := Equated(equates, |equates|);
    if equated.None? then None
    else
      var first := PassOne(statements, PINNED_SYMBOLS + equated.value, CODE_ORG);
      if first.None? || first.value.1 > CODE_END then None
      else
        var code := PassTwo(statements, first.value.0, CODE_ORG);
        if code.None? then None else Some((code.value, first.value.0))
  }

  method Assemble(equates: seq<(string, nat)>, statements: seq<Statement>) returns (r: Option<(seq<byte>, Symbols)>)
    ensures r == Assembled(equates, statements)
  {
    hide Opcode, Encode, Meaning;
    var equated: Symbols := map[];
    for n := 0 to |equates|
      invariant Equated(equates, n) == Some(equated)
    {
      if equates[n].0 in equated {
        EquatesStayRefused(equates, n + 1, |equates|);
        return None;
      }
      equated := equated[equates[n].0 := equates[n].1];
    }
    var symbols, pc := PINNED_SYMBOLS + equated, CODE_ORG;
    for k := 0 to |statements|
      invariant PassOne(statements, PINNED_SYMBOLS + equated, CODE_ORG) == PassOne(statements[k..], symbols, pc)
    {
      var s := statements[k];
      if s.Label? {
        if s.name in symbols {
          return None;
        }
        symbols := symbols[s.name := pc];
      } else {
        pc := pc + Size(s);
      }
    }
    if pc > CODE_END {
      return None;
    }
    var code: seq<byte> := [];
    pc := CODE_ORG;
    PrependNothing(PassTwo(statements, symbols, CODE_ORG));
    assert statements[0..] == statements;
    for k := 0 to |statements|
      invariant pc == CODE_ORG + |code|
      invariant PassTwo(statements, symbols, CODE_ORG) == Prepend(code, PassTwo(statements[k..], symbols, pc))
    {
      var s := statements[k];
      if s.Op? {
        var i := Meaning(s, symbols);
        if i.None? {
          return None;
        }
        var bytes := Encode(i.value, pc);
        if bytes.None? {
          return None;
        }
        PrependTwice(code, bytes.value, PassTwo(statements[k + 1..], symbols, pc + |bytes.value|));
        code := code + bytes.value;
        pc := pc + |bytes.value|;
      }
    }
    assert code + [] == code;
    r := Some((code, symbols));
  }

  function Prepend(code: seq<byte>, rest: Option<seq<byte>>): Option<seq<byte>> {
    if rest.None? then None else Some(code + rest.value)
  }

  lemma PrependNothing(rest: Option<seq<byte>>)
    ensures Prepend([], rest) == rest
  {
    if rest.Some? {
      assert [] + rest.value == rest.value;
    }
  }

  lemma PrependTwice(a: seq<byte>, b: seq<byte>, rest: Option<seq<byte>>)
    ensures Prepend(a, Prepend(b, rest)) == Prepend(a + b, rest)
  {
    if rest.Some? {
      assert a + (b + rest.value) == (a + b) + rest.value;
    }
  }

  lemma {:induction false} EquatesStayRefused(equates: seq<(string, nat)>, m: nat, n: nat)
    requires m <= n <= |equates| && Equated(equates, m).None?
    ensures Equated(equates, n).None?
    decreases n - m
  {
    if m < n {
      EquatesStayRefused(equates, m, n - 1);
    }
  }

  /** How many of the first `k` statements are operations. */
  function Operations(statements: seq<Statement>, k: nat): nat
    requires k <= |statements|
  {
    if k == 0 then 0 else Operations(statements, k - 1) + if statements[k - 1].Op? then 1 else 0
  }

  /** What an operand names: a number itself, or a symbol's value. */
  predicate Names(o: Operand, symbols: Symbols, v: int) {
    (o.Literal? && v == o.value) || (o.Symbol? && o.name in symbols && v == symbols[o.name])
  }

  /** The instruction says what the statement says: the same mnemonic, the addressing mode its notation stands for, and
      the operand it names. */
  predicate Says(i: Instruction, s: Statement, symbols: Symbols)
    requires s.Op?
  {
    && i.mnemonic == s.mnemonic
    && (s.form.Bare? <==> i.mode == Implied)
    && (s.form.Hash? <==> i.mode == Immediate)
    && (s.form.CommaX? <==> i.mode == AbsoluteX)
    && (s.form.Plain? && s.mnemonic in {BCC, BCS, BEQ, BMI, BNE, BPL, BVC, BVS} <==> i.mode == Relative)
    && (s.form.Bare? ==> i.operand == 0)
    && (s.form.Hash? ==> Names(s.form.immediate, symbols, i.operand))
    && (s.form.Plain? ==> Names(s.form.address, symbols, i.operand))
    && (s.form.CommaX? ==> Names(s.form.indexed, symbols, i.operand))
  }

  lemma MeaningSays(s: Statement, symbols: Symbols)
    requires s.Op? && Meaning(s, symbols).Some?
    ensures Says(Meaning(s, symbols).value, s, symbols)
  {
  }

  lemma {:induction false} MeaningsSay(statements: seq<Statement>, symbols: Symbols, pc: int, k: nat)
    requires PassTwo(statements, symbols, pc).Some? && k < |statements| && statements[k].Op?
    ensures Operations(statements, k) < |Meanings(statements, symbols)|
    ensures Says(Meanings(statements, symbols)[Operations(statements, k)], statements[k], symbols)
    decreases statements
  {
    hide Encode, Says, Meaning;
    if k == 0 {
      MeaningSays(statements[0], symbols);
    } else {
      var rest := statements[1..];
      OperationsOfTail(statements, k);
      assert rest[k - 1] == statements[k];
      if statements[0].Label? {
        MeaningsSay(rest, symbols, pc, k - 1);
      } else {
        var bytes := Encode(Meaning(statements[0], symbols).value, pc).value;
        MeaningsSay(rest, symbols, pc + |bytes|, k - 1);
      }
    }
  }

  lemma {:induction false} OperationsOfTail(statements: seq<Statement>, k: nat)
    requires 0 < k <= |statements|
    ensures Operations(statements, k) == (if statements[0].Op? then 1 else 0) + Operations(statements[1..], k - 1)
  {
    if k > 1 {
      OperationsOfTail(statements, k - 1);
    }
  }

  /** In the code of an accepted program with 16-bit operands, the disassembled instruction of every operation says what
      its statement says. */
  lemma CodeSaysTheProgram(equates: seq<(string, nat)>, statements: seq<Statement>, k: nat)
    requires Assembled(equates, statements).Some? && k < |statements| && statements[k].Op?
    requires var symbols := Assembled(equates, statements).value.1;
             forall i | i in Meanings(statements, symbols) :: Is16Bit(i)
    ensures var (code, symbols) := Assembled(equates, statements).value;
            var read := Disassemble(code, CODE_ORG);
            && read.Some? && Operations(statements, k) < |read.value|
            && Says(read.value[Operations(statements, k)], statements[k], symbols)
  {
    hide Says, Disassemble, Meanings, PassOne, Is16Bit;
    var (code, symbols) := Assembled(equates, statements).value;
    DisassemblyIsInverse(statements, symbols, CODE_ORG);
    MeaningsSay(statements, symbols, CODE_ORG, k);
  }

  /** The symbols are the three pinned ones, the equates, and the labels at their addresses; an equate overrides a
      pinned name, and no label may take a name already given. */
  lemma {:induction false} EquatesAreKept(equates: seq<(string, nat)>, n: nat, j: nat)
    requires j < n <= |equates| && Equated(equates, n).Some?
    ensures equates[j].0 in Equated(equates, n).value && Equated(equates, n).value[equates[j].0] == equates[j].1
  {
    if j < n - 1 {
      EquatesAreKept(equates, n - 1, j);
    }
  }

  lemma SymbolsOfAccepted(equates: seq<(string, nat)>, statements: seq<Statement>, j: nat)
    requires Assembled(equates, statements).Some? && j < |equates|
    ensures var symbols := Assembled(equates, statements).value.1;
            equates[j].0 in symbols && symbols[equates[j].0] == equates[j].1
  {
    EquatesAreKept(equates, |equates|, j);
    SymbolsAreKept(statements, PINNED_SYMBOLS + Equated(equates, |equates|).value, CODE_ORG, equates[j].0);
  }

  /** For every accepted program: labels are exact addresses, the code fits its region, and when all absolute operands
      fit sixteen bits the code reads back as the program. */
  lemma AcceptedProgram(equates: seq<(string, nat)>, statements: seq<Statement>)
    requires Assembled(equates, statements).Some?
    ensures var (code, symbols) := Assembled(equates, statements).value;
            && |code| <= CODE_END - CODE_ORG
            && (forall k | 0 <= k < |statements| && statements[k].Label? ::
                  && PassTwo(statements[..k], symbols, CODE_ORG).Some?
                  && statements[k].name in symbols
                  && symbols[statements[k].name] == CODE_ORG + |PassTwo(statements[..k], symbols, CODE_ORG).value|)
            && (Disassemble(code, CODE_ORG) == Some(Meanings(statements, symbols)) <==>
                forall i | i in Meanings(statements, symbols) :: Is16Bit(i))
  {
    hide PassOne, PassTwo, Disassemble, Meanings;
    var (code, symbols) := Assembled(equates, statements).value;
    var initial := PINNED_SYMBOLS + Equated(equates, |equates|).value;
    PassOneAdvances(statements, initial, symbols, CODE_ORG);
    DisassemblyIsInverse(statements, symbols, CODE_ORG);
    forall k | 0 <= k < |statements| && statements[k].Label?
      ensures PassTwo(statements[..k], symbols, CODE_ORG).Some? && statements[k].name in symbols
      ensures symbols[statements[k].name] == CODE_ORG + |PassTwo(statements[..k], symbols, CODE_ORG).value|
    {
      LabelsAreAddresses(statements, initial, symbols, CODE_ORG, k);
    }
  }

  /** Bytes the AppleMouse identification and the shared stubs fix. */
  const PINNED: map<int, byte> := map[
    0x00 := 0xA2, 0x01 := 0x02, 0x02 := 0x60, 0x05 := 0x38, 0x06 := 0x60, 0x07 := 0x18, 0x0B := 0x01, 0x0C := 0x20,
    0x0D := 0x8D, 0x0E := 0xAC, 0x0F := 0xC0, 0x10 := 0x18, 0x11 := 0x60, 0xFB := 0xD6]

  const VECTOR_ORDER: seq<string> := [
    "setmouse", "servemouse", "readmouse", "clearmouse", "posmouse", "clampmouse", "homemouse", "initmouse",
    "readclamp"]

  datatype LayoutError = VectorUndefined | VectorOutsidePage | CollidesWithPinned | OverrunsIdByte

  predicate VectorFits(symbols: Symbols, name: string) {
    name in symbols && BASE <= symbols[name] <= BASE + 0xFF
  }

  /** What the finished page holds at each offset. */
  function PageByte(code: seq<byte>, symbols: Symbols, off: int): byte
    requires 0 <= off < 256 && |code| <= CODE_END - CODE_ORG
    requires forall name | name in VECTOR_ORDER :: VectorFits(symbols, name)
  {
    if off in PINNED then PINNED[off]
    else if 0x12 <= off < 0x1B then
      assert VECTOR_ORDER[off - 0x12] in VECTOR_ORDER && VectorFits(symbols, VECTOR_ORDER[off - 0x12]);
      symbols[VECTOR_ORDER[off - 0x12]] - BASE
    else if 0x1B <= off < 0x1B + |code| then code[off - 0x1B]
    else 0xEA
  }

  /** Between the vectors and the ID byte nothing is pinned. */
  lemma PinnedOffsets(off: int)
    ensures 0x12 <= off < 0xFB ==> off !in PINNED
    ensures off == 0xFB ==> off in PINNED
  {
  }

  method PlacePins(page: array<byte>)
    requires page.Length == 256
    modifies page
    ensures forall off | 0 <= off < 256 :: page[off] == if off in PINNED then PINNED[off] else old(page[off])
  {
    forall off | off in PINNED && 0 <= off < 256 {
      page[off] := PINNED[off];
    }
  }

  /** The vector table, one low byte a routine. */
  method PlaceVectors(page: array<byte>, symbols: Symbols) returns (bad: Option<LayoutError>)
    requires page.Length == 256
    modifies page
    ensures bad.None? <==> forall name | name in VECTOR_ORDER :: VectorFits(symbols, name)
    ensures bad.Some? ==> bad.value in {VectorUndefined, VectorOutsidePage}
    ensures bad.None? ==> forall off | 0 <= off < 256 ::
      page[off] == if 0x12 <= off < 0x1B then LowByte(symbols, VECTOR_ORDER[off - 0x12]) else old(page[off])
  {
    for i := 0 to |VECTOR_ORDER|
      invariant forall name | name in VECTOR_ORDER[..i] :: VectorFits(symbols, name)
      invariant forall off | 0 <= off < 256 ::
        page[off] == if 0x12 <= off < 0x12 + i then LowByte(symbols, VECTOR_ORDER[off - 0x12]) else old(page[off])
    {
      hide LowByte;
      var name := VECTOR_ORDER[i];
      assert name in VECTOR_ORDER && VECTOR_ORDER[..i + 1] == VECTOR_ORDER[..i] + [name];
      if name !in symbols {
        return Some(VectorUndefined);
      }
      if !(BASE <= symbols[name] <= BASE + 0xFF) {
        return Some(VectorOutsidePage);
      }
      page[0x12 + i] := LowByte(symbols, name);
    }
    assert VECTOR_ORDER[..|VECTOR_ORDER|] == VECTOR_ORDER;
    bad := None;
  }

  /** The code region; neither check can fire for code that fits it. */
  method PlaceCode(page: array<byte>, code: seq<byte>) returns (bad: Option<LayoutError>)
    requires page.Length == 256
    modifies page
    ensures bad.None? <==> |code| <= CODE_END - CODE_ORG
    ensures bad.None? ==> forall off | 0 <= off < 256 ::
      page[off] == if 0x1B <= off < 0x1B + |code| then code[off - 0x1B] else old(page[off])
  {
    for i := 0 to |code|
      invariant i <= CODE_END - CODE_ORG
      invariant forall off | 0 <= off < 256 ::
          page[off] == if 0x1B <= off < 0x1B + i then code[off - 0x1B] else old(page[off])
    {
      var off := CODE_ORG - BASE + i;
      PinnedOffsets(off);
      if off in PINNED {
        return Some(CollidesWithPinned);
      }
      if off >= 0xFB {
        return Some(OverrunsIdByte);
      }
      page[off] := code[i];
    }
    bad := None;
  }

  /** `compose`: for code that fits its region neither placement check can fire, and the page keeps every pinned byte,
      every vector and every code byte, with filler in between. */
  method Compose(code: seq<byte>, symbols: Symbols) returns (r: Result<seq<byte>, LayoutError>)
    ensures r.Ok? <==> |code| <= CODE_END - CODE_ORG && forall name | name in VECTOR_ORDER :: VectorFits(symbols, name)
    ensures |code| <= CODE_END - CODE_ORG && r.Err? ==> r.error in {VectorUndefined, VectorOutsidePage}
    ensures r.Ok? ==> |r.value| == 256 && forall off | 0 <= off < 256 :: r.value[off] == PageByte(code, symbols, off)
    ensures r.Ok? ==> IsPageOf(r.value, code, symbols)
  {
    hide LowByte, VectorFits;
    var page := new byte[256](_ => 0xEA);
    PlacePins(page);
    var bad := PlaceVectors(page, symbols);
    if bad.Some? {
      return Err(bad.value);
    }
    bad := PlaceCode(page, code);
    if bad.Some? {
      return Err(bad.value);
    }
    forall off | 0 <= off < 256
      ensures page[off] == PageByte(code, symbols, off)
    {
      PinnedOffsets(off);
      VectorByte(symbols, off);
    }
    r := Ok(page[..]);
  }

  ghost predicate IsPageOf(page: seq<byte>, code: seq<byte>, symbols: Symbols) {
    && |page| == 256 && |code| <= CODE_END - CODE_ORG
    && (forall name | name in VECTOR_ORDER :: VectorFits(symbols, name))
    && forall off | 0 <= off < 256 :: page[off] == PageByte(code, symbols, off)
  }

  /** The identification bytes, and the stubs that the program calls by the pinned symbols: LDX #$02 and RTS at
      slotregs, SEC and RTS at secrts, STA $C0AC, CLC and RTS at stcmd. */
  lemma StubsStand(page: seq<byte>, code: seq<byte>, symbols: Symbols)
    requires IsPageOf(page, code, symbols)
    ensures PINNED_SYMBOLS == map["slotregs" := 0xC200, "secrts" := 0xC205, "stcmd" := 0xC20D]
    ensures page[0x00..0x03] == [0xA2, 0x02, 0x60] && page[0x05..0x07] == [0x38, 0x60]
    ensures page[0x0D..0x12] == [0x8D, 0xAC, 0xC0, 0x18, 0x60]
    ensures page[0x07] == 0x18 && page[0x0B] == 0x01 && page[0x0C] == 0x20 && page[0xFB] == 0xD6
  {
    hide PINNED, PageByte, IsPageOf, VectorFits;
    PinsAre();
    PinsStand(page, code, symbols);
    assert page[0x00..0x03] == [page[0], page[1], page[2]] && page[0x05..0x07] == [page[5], page[6]];
    assert page[0x0D..0x12] == [page[0x0D], page[0x0E], page[0x0F], page[0x10], page[0x11]];
  }

  lemma PinsStand(page: seq<byte>, code: seq<byte>, symbols: Symbols)
    requires IsPageOf(page, code, symbols)
    ensures |page| == 256 && forall off | off in PINNED && 0 <= off < 256 :: page[off] == PINNED[off]
  {
    hide PINNED, VectorFits;
  }

  lemma PinsAre()
    ensures forall off | off in {0, 1, 2, 5, 6, 7, 0x0B, 0x0C, 0x0D, 0x0E, 0x0F, 0x10, 0x11, 0xFB} :: off in PINNED
    ensures PINNED[0] == 0xA2 && PINNED[1] == 0x02 && PINNED[2] == 0x60 && PINNED[5] == 0x38 && PINNED[6] == 0x60
    ensures PINNED[7] == 0x18 && PINNED[0x0B] == 0x01 && PINNED[0x0C] == 0x20 && PINNED[0x0D] == 0x8D
    ensures PINNED[0x0E] == 0xAC && PINNED[0x0F] == 0xC0 && PINNED[0x10] == 0x18 && PINNED[0x11] == 0x60
    ensures PINNED[0xFB] == 0xD6
  {
  }

  /** The vectors, in the order the AppleMouse firmware protocol gives them, lead to their routines in the page. */
  lemma VectorsStand(page: seq<byte>, code: seq<byte>, symbols: Symbols)
    requires IsPageOf(page, code, symbols)
    ensures IsVector(page, 0x12, symbols, "setmouse") && IsVector(page, 0x13, symbols, "servemouse")
    ensures IsVector(page, 0x14, symbols, "readmouse") && IsVector(page, 0x15, symbols, "clearmouse")
    ensures IsVector(page, 0x16, symbols, "posmouse") && IsVector(page, 0x17, symbols, "clampmouse")
    ensures IsVector(page, 0x18, symbols, "homemouse") && IsVector(page, 0x19, symbols, "initmouse")
    ensures IsVector(page, 0x1A, symbols, "readclamp")
  {
    hide IsPageOf, IsVector;
    VectorStands(page, code, symbols, 0);
    VectorStands(page, code, symbols, 1);
    VectorStands(page, code, symbols, 2);
    VectorStands(page, code, symbols, 3);
    VectorStands(page, code, symbols, 4);
    VectorStands(page, code, symbols, 5);
    VectorStands(page, code, symbols, 6);
    VectorStands(page, code, symbols, 7);
    VectorStands(page, code, symbols, 8);
  }

  lemma VectorStands(page: seq<byte>, code: seq<byte>, symbols: Symbols, i: nat)
    requires IsPageOf(page, code, symbols) && i < |VECTOR_ORDER|
    ensures IsVector(page, 0x12 + i, symbols, VECTOR_ORDER[i])
  {
    hide LowByte;
    var name := VECTOR_ORDER[i];
    hide VECTOR_ORDER;
    assert name in VECTOR_ORDER && VectorFits(symbols, name);
    PinnedOffsets(0x12 + i);
    NineVectors();
    assert page[0x12 + i] == PageByte(code, symbols, 0x12 + i);
  }

  lemma NineVectors()
    ensures |VECTOR_ORDER| == 9
  {
  }

  /** Behind them stands the code, and filler in every byte left over. */
  lemma CodeStands(page: seq<byte>, code: seq<byte>, symbols: Symbols)
    requires IsPageOf(page, code, symbols)
    ensures page[0x1B..0x1B + |code|] == code
    ensures forall off | off in {3, 4, 8, 9, 10} || 0x1B + |code| <= off < 0xFB || 0xFC <= off < 0x100 ::
      page[off] == 0xEA
  {
    hide VectorFits;
    PinsAre();
    forall off | 0x1B <= off < 0x1B + |code| ensures page[off] == code[off - 0x1B] {
      PinnedOffsets(off);
    }
  }

  predicate IsVector(page: seq<byte>, off: nat, symbols: Symbols, name: string)
    requires |page| == 256
  {
    off < 256 && name in symbols && symbols[name] as int == 0xC200 + page[off] as int
  }

  lemma VectorByte(symbols: Symbols, off: int)
    requires forall name | name in VECTOR_ORDER :: VectorFits(symbols, name)
    ensures 0x12 <= off < 0x1B ==>
      && VECTOR_ORDER[off - 0x12] in symbols
      && LowByte(symbols, VECTOR_ORDER[off - 0x12]) as int == symbols[VECTOR_ORDER[off - 0x12]] - BASE
  {
    if 0x12 <= off < 0x1B {
      assert VectorFits(symbols, VECTOR_ORDER[off - 0x12]);
    }
  }

  function LowByte(symbols: Symbols, name: string): byte {
    if name in symbols then symbols[name] % 0x100 else 0
  }
}
