/** The assembler's loops over its two passes, filling the memory image and the relocation map in place. */
module BootMenuAssembler {
  import opened Bytes
  import opened BootMenuRom
  import opened BootMenuBuild

  datatype Rom = Rom(slot: seq<byte>, slotReloc: seq<byte>, c8: seq<byte>, symbols: Symbols)

  method CollectSymbols(statements: seq<Statement>) returns (r: Option<Symbols>)
    ensures r == (if PassOne(statements, |statements|).Some? then Some(Final(statements)) else None)
  {
    hide Eval, ModeOf, Length;
    var symbols: Symbols := map[];
    var pc := 0;
    for k := 0 to |statements|
      invariant PassOne(statements, k) == Some((symbols, pc))
    {
      if PassOne(statements, |statements|).Some? {
        FirstPassReaches(statements, k + 1, |statements|);
      }
      match statements[k]
      case Assign(name, e) =>
        var v := Eval(e, symbols, pc);
        if v.None? { return None; }
        symbols := symbols[name := v.value];
      case Origin(e) =>
        var v := Eval(e, symbols, pc);
        if v.None? { return None; }
        pc := v.value;
      case Data(items) =>
        pc := pc + |items|;
      case Label(name) =>
        symbols := symbols[name := pc];
      case Instr(op, form) =>
        pc := pc + Length(ModeOf(op, form, symbols));
    }
    return Some(symbols);
  }

  lemma {:induction false} SecondPassStops(statements: seq<Statement>, symbols: Symbols, k: nat, n: nat)
    requires k <= n <= |statements|
    ensures PassTwo(statements, symbols, k).None? ==> PassTwo(statements, symbols, n).None?
    decreases n - k
  {
    if k < n {
      hide Advance;
      SecondPassStops(statements, symbols, k, n - 1);
    }
  }

  /** `data[pc] = value` on a bytearray. */
  method Store(cells: array<byte>, pc: int, value: byte) returns (ok: bool)
    requires cells.Length == MEMORY_SIZE
    modifies cells
    ensures ok == Index(pc).Some?
    ensures cells[..] == if ok then old(cells[..])[Index(pc).value := value] else old(cells[..])
  {
    var at := Index(pc);
    ok := at.Some?;
    if ok {
      cells[at.value] := value;
    }
  }

  lemma AppliedOneMore(memory: Cells, writes: seq<Write>, w: Write)
    requires Index(w.pc).Some?
    ensures Apply(memory, writes + [w]) == Apply(memory, writes)[Index(w.pc).value := w.value]
    ensures Marks(memory, writes + [w])
            == if w.marked then Marks(memory, writes)[Index(w.pc).value := 1] else Marks(memory, writes)
    ensures AllIndexed(writes) ==> AllIndexed(writes + [w])
    ensures Top(writes + [w], w.c8) == if w.pc + 1 > Top(writes, w.c8) then w.pc + 1 else Top(writes, w.c8)
    ensures Top(writes + [w], !w.c8) == Top(writes, !w.c8)
  {
    assert (writes + [w])[..|writes|] == writes;
  }

  /** Both arrays hold what the writes so far left in the given images. */
  ghost predicate Holds(memory: array<byte>, reloc: array<byte>, image: Cells, marks: Cells, writes: seq<Write>)
    reads memory, reloc
  {
    && memory != reloc && memory.Length == MEMORY_SIZE && reloc.Length == MEMORY_SIZE
    && memory[..] == Apply(image, writes) && reloc[..] == Marks(marks, writes)
  }

  /** One byte of the second pass, continuing a run. */
  method Put(memory: array<byte>, reloc: array<byte>, pc: int, value: byte, marked: bool,
             ghost c8: bool, ghost image: Cells, ghost marks: Cells, ghost writes: seq<Write>)
    returns (ok: bool)
    requires Holds(memory, reloc, image, marks, writes)
    modifies memory, reloc
    ensures ok == Index(pc).Some?
    ensures ok ==> Holds(memory, reloc, image, marks, writes + [Write(pc, value, marked, c8)])
  {
    hide Index, Apply, Marks;
    ok := Store(memory, pc, value);
    if ok {
      AppliedOneMore(image, writes, Write(pc, value, marked, c8));
      AppliedOneMore(marks, writes, Write(pc, value, marked, c8));
      if marked {
        var marking := Store(reloc, pc, 1);
      }
    }
  }

  method EmitInstruction(
      memory: array<byte>, reloc: array<byte>, start: int, op: Mnemonic, form: Form, symbols: Symbols,
                         ghost c8: bool, ghost image: Cells, ghost marks: Cells, ghost writes: seq<Write>)
    returns (r: Option<int>)
    requires Holds(memory, reloc, image, marks, writes)
    modifies memory, reloc
    ensures var w := EmitInstr(op, form, symbols, start, c8);
            && (r.Some? <==> w.Some? && AllIndexed(w.value))
            && (r.Some? ==> r.value == start + |w.value| && Holds(memory, reloc, image, marks, writes + w.value))
  {
    hide Holds, Eval, ModeOf, Opcode, Index;
    var pc := start;
    var mode := ModeOf(op, form, symbols);
    var opcode := Opcode(op, mode);
    if opcode.None? { return None; }
    ghost var done := [Write(pc, opcode.value, false, c8)];
    var ok := Put(memory, reloc, pc, opcode.value, false, c8, image, marks, writes);
    pc := pc + 1;
    var operand := OperandOf(mode, form);
    if mode == Implied {
      return if ok then Some(pc) else None;
    }
    var v := if operand.Some? then Eval(operand.value, symbols, pc) else None;
    if !ok || v.None? { return None; }
    if mode == Relative {
      var offset := v.value - (pc + 1);
      if offset < -128 || offset > 127 { return None; }
      ok := Put(memory, reloc, pc, offset % 0x100, false, c8, image, marks, writes + done);
      ghost var both := [done[0], Write(pc, offset % 0x100, false, c8)];
      assert writes + done + [both[1]] == writes + both;
      assert EmitInstr(op, form, symbols, start, c8) == Some(both);
      return if ok then Some(pc + 1) else None;
    }
    if mode == Absolute || mode == AbsoluteY {
      ok := PutAddress(memory, reloc, pc, v.value, c8, image, marks, writes + done);
      assert writes + done + AddressWrites(v.value, start, c8) == writes + (done + AddressWrites(v.value, start, c8));
      assert EmitInstr(op, form, symbols, start, c8) == Some(done + AddressWrites(v.value, start, c8));
      return if ok then Some(pc + 2) else None;
    }
    ok := Put(memory, reloc, pc, v.value % 0x100, false, c8, image, marks, writes + done);
    ghost var both := [done[0], Write(pc, v.value % 0x100, false, c8)];
    assert writes + done + [both[1]] == writes + both;
    assert EmitInstr(op, form, symbols, start, c8) == Some(both);
    return if ok then Some(pc + 1) else None;
  }

  /** The two bytes of an address operand, the high one marked when the address lies in the slot page. */
  method PutAddress(memory: array<byte>, reloc: array<byte>, pc: int, address: int,
                    ghost c8: bool, ghost image: Cells, ghost marks: Cells, ghost writes: seq<Write>)
    returns (ok: bool)
    requires Holds(memory, reloc, image, marks, writes)
    modifies memory, reloc
    ensures ok <==> AllIndexed(AddressWrites(address, pc - 1, c8))
    ensures ok ==> Holds(memory, reloc, image, marks, writes + AddressWrites(address, pc - 1, c8))
  {
    hide Holds, Index;
    ghost var w := AddressWrites(address, pc - 1, c8);
    ok := Put(memory, reloc, pc, address % 0x100, false, c8, image, marks, writes);
    assert w[0] in w && w[1] in w;
    if ok {
      var inPage := SLOT_PAGE <= address <= SLOT_LIMIT;
      ok := Put(memory, reloc, pc + 1, address / 0x100 % 0x100, inPage, c8, image, marks, writes + [w[0]]);
      assert writes + [w[0]] + [w[1]] == writes + w;
    }
  }

  function OperandOf(mode: Mode, form: Form): Option<Expr> {
    match mode
    case Implied => None
    case Immediate => if form.Hash? then Some(form.immediate) else None
    case Relative => BranchTarget(form)
    case ZeroPage => if form.Direct? then Some(form.address) else None
    case Absolute => if form.Direct? then Some(form.address) else None
    case AbsoluteY => if form.CommaY? then Some(form.indexed) else None
  }

  /** The `.byte` loop, one item at a time; `top` is the section's high-water mark. */
  method EmitItems(memory: array<byte>, reloc: array<byte>, start: int, items: seq<Expr>, symbols: Symbols, top0: nat,
                   ghost c8: bool, ghost image: Cells, ghost marks: Cells, ghost writes: seq<Write>)
    returns (r: Option<int>, top: nat)
    requires Holds(memory, reloc, image, marks, writes) && top0 == Top(writes, c8)
    modifies memory, reloc
    ensures var w := EmitData(items, |items|, symbols, start, c8);
            && (r.Some? <==> w.Some? && AllIndexed(w.value))
            && (r.Some? ==> && r.value == start + |items| && Holds(memory, reloc, image, marks, writes + w.value)
                            && top == Top(writes + w.value, c8) && Top(writes + w.value, !c8) == Top(writes, !c8))
  {
    hide Holds, Eval, Index, Top;
    var pc := start;
    top := top0;
    ghost var done: seq<Write> := [];
    assert writes + done == writes;
    for n := 0 to |items|
      invariant pc == start + n && EmitData(items, n, symbols, start, c8) == Some(done) && AllIndexed(done)
      invariant Holds(memory, reloc, image, marks, writes + done)
      invariant top == Top(writes + done, c8) && Top(writes + done, !c8) == Top(writes, !c8)
    {
      DataStops(items, n + 1, |items|, symbols, start, c8);
      var v := Eval(items[n], symbols, pc);
      if v.None? { return None, top; }
      ghost var w := Write(pc, v.value % 0x100, false, c8);
      var ok := Put(memory, reloc, pc, v.value % 0x100, false, c8, image, marks, writes + done);
      if !ok {
        assert w in EmitData(items, n + 1, symbols, start, c8).value;
        return None, top;
      }
      AppliedOneMore(image, writes + done, w);
      assert writes + done + [w] == writes + (done + [w]);
      done := done + [w];
      pc := pc + 1;
      if pc > top { top := pc; }
    }
    return Some(pc), top;
  }

  lemma {:induction false} DataStops(items: seq<Expr>, k: nat, n: nat, symbols: Symbols, pc: int, c8: bool)
    requires k <= n <= |items|
    ensures EmitData(items, k, symbols, pc, c8).None? ==> EmitData(items, n, symbols, pc, c8).None?
    ensures EmitData(items, k, symbols, pc, c8).Some? && EmitData(items, n, symbols, pc, c8).Some?
            ==> EmitData(items, k, symbols, pc, c8).value <= EmitData(items, n, symbols, pc, c8).value
    decreases n - k
  {
    if k < n {
      hide Eval;
      DataStops(items, k, n - 1, symbols, pc, c8);
    }
  }

  /** Bytes stored at consecutive counters move a section's mark to the end of the last one. */
  lemma {:induction false} TopAfter(writes: seq<Write>, w: seq<Write>, pc: int, c8: bool)
    requires ConsecutiveFrom(w, pc, c8) && |w| > 0
    ensures Top(writes + w, c8) == if pc + |w| > Top(writes, c8) then pc + |w| else Top(writes, c8)
    ensures Top(writes + w, !c8) == Top(writes, !c8)
  {
    var n := |w| - 1;
    assert (writes + w)[..|writes + w| - 1] == writes + w[..n];
    if n > 0 {
      TopAfter(writes, w[..n], pc, c8);
    } else {
      assert writes + w[..n] == writes;
    }
  }

  /** `build`: the finished pages, or nothing when an operand, a branch, an index or a section limit is refused. */
  method Build(statements: seq<Statement>) returns (r: Option<Rom>)
    ensures r.Some? <==> Accepted(statements)
    ensures r.Some? ==>
      && r.value.symbols == Final(statements)
      && r.value.slot == Image(statements)[SLOT_PAGE..C8_PAGE][0xFF := 0]
      && r.value.slotReloc == Marks(UNMARKED, Writes(statements))[SLOT_PAGE..C8_PAGE][0xFF := 0]
      && r.value.c8 == Image(statements)[C8_PAGE..C8_LIMIT]
  {
    hide EmitInstr, EmitData, Eval, ModeOf, Length, Opcode, AllIndexed, Top, Apply, Marks;
    var collected := CollectSymbols(statements);
    if collected.None? { return None; }
    var symbols := collected.value;
    var memory := new byte[MEMORY_SIZE](_ => 0xEA);
    var reloc := new byte[MEMORY_SIZE](_ => 0);
    var slotTop, c8Top, pc, inC8 := 0, 0, 0, false;
    ghost var writes: seq<Write> := [];
    NothingWritten(memory, reloc);
    for k := 0 to |statements|
      invariant PassTwo(statements, symbols, k) == Some(Progress(pc, inC8, writes))
      invariant Holds(memory, reloc, BLANK, UNMARKED, writes)
      invariant slotTop == Top(writes, false) && c8Top == Top(writes, true)
    {
      hide Holds;
      SecondPassStops(statements, symbols, k + 1, |statements|);
      match statements[k]
      case Assign(_, _) =>
      case Label(_) =>
      case Origin(e) =>
        var v := Eval(e, symbols, pc);
        if v.None? { return None; }
        pc := v.value;
        inC8 := pc >= C8_PAGE;
      case Data(items) =>
        var next, top := EmitItems(memory, reloc, pc, items, symbols, if inC8 then c8Top else slotTop,
                                   inC8, BLANK, UNMARKED, writes);
        if next.None? { return None; }
        writes := writes + EmitData(items, |items|, symbols, pc, inC8).value;
        pc := next.value;
        if inC8 { c8Top := top; } else { slotTop := top; }
      case Instr(op, form) =>
        var next := EmitInstruction(memory, reloc, pc, op, form, symbols, inC8, BLANK, UNMARKED, writes);
        if next.None? { return None; }
        EmitLength(op, form, symbols, pc, inC8);
        InstructionsAreNotEmpty(op, form, symbols);
        TopAfter(writes, EmitInstr(op, form, symbols, pc, inC8).value, pc, inC8);
        writes := writes + EmitInstr(op, form, symbols, pc, inC8).value;
        pc := next.value;
        if inC8 {
          if pc > c8Top { c8Top := pc; }
        } else {
          if pc > slotTop { slotTop := pc; }
        }
    }
    if slotTop > SLOT_LIMIT || c8Top > C8_LIMIT { return None; }
    var slot, slotReloc := memory[SLOT_PAGE..C8_PAGE], reloc[SLOT_PAGE..C8_PAGE];
    slot, slotReloc := slot[0xFF := 0], slotReloc[0xFF := 0];
    return Some(Rom(slot, slotReloc, memory[C8_PAGE..C8_LIMIT], symbols));
  }

  lemma InstructionsAreNotEmpty(op: Mnemonic, form: Form, symbols: Symbols)
    ensures Length(ModeOf(op, form, symbols)) > 0
  {
    hide ModeOf;
  }

  lemma NothingWritten(memory: array<byte>, reloc: array<byte>)
    requires memory != reloc && memory.Length == MEMORY_SIZE && reloc.Length == MEMORY_SIZE
    requires (forall i | 0 <= i < MEMORY_SIZE :: memory[i] == 0xEA)
        && (forall i | 0 <= i < MEMORY_SIZE :: reloc[i] == 0)
    ensures Holds(memory, reloc, BLANK, UNMARKED, []) && Top([], false) == 0 && Top([], true) == 0
  {
    assert memory[..] == BLANK && reloc[..] == UNMARKED;
  }
}
