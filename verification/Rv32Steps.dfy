/** One step of the emulator on the encoding of an instruction does what the instruction means. */
module Rv32Steps {
  import opened PowersOfTwo
  import opened Rv32
  import opened Rv32Precise
  import opened Rv32Bits
  import opened Rv32Encoding
  import opened Rv32Meaning

  // ---------- what an instruction asks for ----------

  function Pc(d: Cpu): int { d.csr[PC] }

  /** Retire, and go on at `next`. */
  predicate Next(e: Effect, next: int) {
    e.Retire? && var pc: int := e.pc; Congruent(pc + 4, next)
  }

  /** Write `v` to `rd` and go on at `next`. */
  predicate Moves(d: Cpu, e: Effect, rd: nat, v: word, next: int) {
    Next(e, next) && e.rd == rd && e.value == v && e.csr == d.csr && e.bytes == []
  }

  /** The offset into memory of the address a register and an immediate add up to. */
  function Offset(d: Cpu, rs1: reg, imm: int): nat
    requires Valid(d)
  {
    var a: int, o: int := d.regs[rs1], d.offset;
    (a + imm - o) % 0x1_0000_0000
  }

  function Address(d: Cpu, rs1: reg, imm: int): word
    requires Valid(d)
  {
    var a: int := d.regs[rs1];
    (a + imm) % 0x1_0000_0000
  }

  predicate Device(x: word) { 0x1000_0000 <= x < 0x1200_0000 }

  ghost predicate Loads(d: Cpu, e: Effect, w: Width, rd: reg, rs1: reg, imm: int)
    requires Valid(d)
  {
    var at, x := Offset(d, rs1, imm), Address(d, rs1, imm);
    if at + 4 <= |d.mem| then
      e.Retire? && LoadMeans(w, d.mem, at, e.value) && Moves(d, e, rd, e.value, Pc(d) + 4)
    else if !Device(x) then e == Fault(6, x)
    else
      Moves(d, e, rd, if x == 0x1100_bff8 then d.csr[TIMERL] else if x == 0x1100_bffc then d.csr[TIMERH] else 0,
            Pc(d) + 4)
  }

  /** A store: at most four bytes of memory, the timer match registers or the power switch. */
  ghost predicate Stores(d: Cpu, e: Effect, w: Width, rs1: reg, rs2: reg, imm: int)
    requires Valid(d)
  {
    var at, x, v := Offset(d, rs1, imm), Address(d, rs1, imm), d.regs[rs2];
    if at + 4 <= |d.mem| then
      && Next(e, Pc(d) + 4) && e.rd == 0 && e.csr == d.csr
      && e.at == at && BytesOf(e.bytes, v, Bytewidth(w))
    else if !Device(x) then e == Fault(8, x)
    else if x == 0x1110_0000 then
      e.Leave? && e.result == v && Congruent(e.csr[PC], Pc(d) + 4) && e.csr == d.csr[PC := e.csr[PC]]
    else
      && Next(e, Pc(d) + 4) && e.rd == 0 && e.bytes == []
      && e.csr == if x == 0x1100_4000 then d.csr[MATCHL := v] else if x == 0x1100_4004 then d.csr[MATCHH := v]
                  else d.csr
  }

  /** An atomic on the word at `at`: what it writes back, if anything. */
  ghost predicate Atomics(d: Cpu, e: Effect, i: Instr)
    requires Valid(d) && (i.LR? || i.SC? || i.AMO?)
  {
    var at := Offset(d, i.rs1, 0);
    if at + 4 > |d.mem| then e == Fault(8, d.regs[i.rs1])
    else
      && Next(e, Pc(d) + 4) && e.rd == i.rd
      && if i.LR? then
           && LoadMeans(W32, d.mem, at, e.value) && e.bytes == [] && e.csr == d.csr[FLAGS := e.csr[FLAGS]]
           && e.csr[FLAGS] % 8 == d.csr[FLAGS] % 8 && e.csr[FLAGS] / 8 == at % 0x2000_0000
         else if i.SC? then
           && e.csr == d.csr
           && if d.csr[FLAGS] / 8 == at % 0x2000_0000 then
                e.value == 0 && e.at == at && BytesOf(e.bytes, d.regs[i.rs2], 4)
              else e.value == 1 && e.bytes == []
         else
           && LoadMeans(W32, d.mem, at, e.value) && e.csr == d.csr && e.at == at
           && exists now: word :: AmoMeans(i.aop, e.value, d.regs[i.rs2], now) && BytesOf(e.bytes, now, 4)
  }

  /** A control register is read into `rd` and modified with `x`. */
  ghost predicate Controls(d: Cpu, e: Effect, op: CsrOp, rd: reg, x: word, k: nat)
    requires k < 16
  {
    && Next(e, Pc(d) + 4) && e.rd == rd && e.value == d.csr[k] && e.bytes == []
    && e.csr == d.csr[k := e.csr[k]] && CsrMeans(op, d.csr[k], x, e.csr[k])
  }

  /** A value and the next instruction. */
  ghost predicate Computes(d: Cpu, e: Effect, rd: reg) {
    e.Retire? && Moves(d, e, rd, e.value, Pc(d) + 4)
  }

  /** The address of the next instruction in `rd`, and a jump. */
  predicate Links(d: Cpu, e: Effect, rd: reg, target: int) {
    e.Retire? && Congruent(e.value, Pc(d) + 4) && Moves(d, e, rd, e.value, target)
  }

  predicate Branches(d: Cpu, e: Effect, taken: bool, off: int) {
    e.Retire? && Moves(d, e, 0, e.value, Pc(d) + if taken then off else 4)
  }

  ghost predicate Sleeps(d: Cpu, e: Effect) {
    && e.Leave? && e.result == 1 && Congruent(e.csr[PC], Pc(d) + 4)
    && BitOn(e.csr[MSTATUS], 3) && BitOn(e.csr[FLAGS], 2)
    && e.csr == d.csr[PC := e.csr[PC]][MSTATUS := e.csr[MSTATUS]][FLAGS := e.csr[FLAGS]]
  }

  /** The meaning of every instruction, as what it asks for. */
  ghost predicate Asks(d: Cpu, e: Effect, i: Instr)
    requires Valid(d) && Encodable(i)
  {
    match i
    case LUI(rd, upper) => Computes(d, e, rd) && e.value == upper * 0x1000
    case AUIPC(rd, upper) => Computes(d, e, rd) && Congruent(e.value, Pc(d) + upper * 0x1000)
    case JAL(rd, off) => Links(d, e, rd, Pc(d) + off)
    case JALR(rd, rs1, imm) => Links(d, e, rd, Address(d, rs1, imm) - Address(d, rs1, imm) % 2)
    case BRANCH(cmp, rs1, rs2, off) => Branches(d, e, CmpHolds(cmp, d.regs[rs1], d.regs[rs2]), off)
    case LOAD(w, rd, rs1, imm) => Loads(d, e, w, rd, rs1, imm)
    case STORE(w, rs1, rs2, imm) => Stores(d, e, w, rs1, rs2, imm)
    case OPIMM(op, rd, rs1, imm) =>
      Computes(d, e, rd) && AluMeans(op, d.regs[rs1], imm % 0x1_0000_0000, e.value)
    case OP(op, rd, rs1, rs2) => Computes(d, e, rd) && AluMeans(op, d.regs[rs1], d.regs[rs2], e.value)
    case MULDIV(op, rd, rs1, rs2) => Computes(d, e, rd) && MulMeans(op, d.regs[rs1], d.regs[rs2], e.value)
    case CSR(op, rd, rs1, k) => Controls(d, e, op, rd, d.regs[rs1], k)
    case CSRI(op, rd, uimm, k) => Controls(d, e, op, rd, uimm, k)
    case FENCE => Computes(d, e, 0)
    case ECALL => e.Fault? && e.trap == 1 + if d.csr[FLAGS] % 4 == 0 then 8 else 11
    case EBREAK => e.Fault? && e.trap == 1 + 3
    case WFI => Sleeps(d, e)
    case _ => Atomics(d, e, i)
  }

  // ---------- executing what was decoded ----------

  lemma SameWord(x: int, y: int)
    requires Congruent(x, y)
    ensures x % 0x1_0000_0000 == y % 0x1_0000_0000
  {
  }

  /** A sum with a wrapped summand. */
  lemma WrappedSum(a: int, x: int)
    ensures var w: int := W(x); W(a + w) == (a + x) % 0x1_0000_0000
  {
    WCongruent(x);
    var w: int := W(x);
    SameWord(a + w, a + x);
  }

  /** The program counter four before a target, which the step then adds. */
  lemma Target(x: int)
    ensures var w: int := W(x - 4); Congruent(w + 4, x)
  {
    WCongruent(x - 4);
  }

  lemma WrappedTarget(a: int, x: int)
    ensures var w: int := W(x);
      var t: int := W(a + w - 4);
      Congruent(t + 4, a + x)
  {
    var w: int := W(x);
    Target(a + w);
    WCongruent(x);
    Chain(W(a + w - 4) + 4, a + w, a + x);
  }

  lemma Chain(x: int, y: int, z: int)
    requires Congruent(x, y) && Congruent(y, z)
    ensures Congruent(x, z)
  {
  }

  lemma JumpAsks(d: Cpu, e: Effect, rd: reg, off: int)
    requires var w: int := W(off); e == Retire(rd, W(Pc(d) + 4), W(Pc(d) + w - 4), d.csr, 0, [])
    ensures Links(d, e, rd, Pc(d) + off)
  {
    WCongruent(Pc(d) + 4);
    WrappedTarget(Pc(d), off);
  }

  lemma LinkAsks(d: Cpu, e: Effect, rd: reg, t: int)
    requires e == Retire(rd, W(Pc(d) + 4), W(t - t % 2 - 4), d.csr, 0, [])
    ensures Links(d, e, rd, t - t % 2)
  {
    WCongruent(Pc(d) + 4);
    Target(t - t % 2);
  }

  predicate Compares(cmp: Cmp, a: word, b: word) {
    match cmp
    case EQ => a == b
    case NE => a != b
    case LT => Signed(a) < Signed(b)
    case GE => Signed(a) >= Signed(b)
    case LTU => a < b
    case GEU => a >= b
  }

  lemma ComparesIs(cmp: Cmp, a: word, b: word)
    ensures Compares(cmp, a, b) == CmpHolds(cmp, a, b)
  {
    IntIsSigned(a);
    IntIsSigned(b);
  }

  lemma BranchTakes(d: Cpu, cmp: Cmp, a: word, b: word, off: word)
    ensures var w: int := off;
      BranchOn(d, CmpCode(cmp), a, b, off)
      == Retire(0, 0, if Compares(cmp, a, b) then W(Pc(d) + w - 4) else d.csr[PC], d.csr, 0, [])
  {
  }

  lemma BranchAsks(d: Cpu, e: Effect, taken: bool, off: int)
    requires var w: int := W(off);
      e == Retire(0, 0, if taken then W(Pc(d) + w - 4) else d.csr[PC], d.csr, 0, [])
    ensures Branches(d, e, taken, off)
  {
    WrappedTarget(Pc(d), off);
  }

  lemma RegisterAsks(d: Cpu, e: Effect, op: AluOp, rd: reg, a: word, b: word, sub: bool)
    requires sub == (op.SUB? || op.SRA?)
    requires e == Retire(rd, Alu(AluCode(op), a, b, sub, sub), d.csr[PC], d.csr, 0, [])
    ensures Computes(d, e, rd) && AluMeans(op, a, b, e.value)
  {
    AluIs(op, a, b, sub, sub);
  }

  lemma MultiplyAsks(d: Cpu, e: Effect, op: MulOp, rd: reg, a: word, b: word)
    requires e == Retire(rd, Multiply(MulCode(op), a, b), d.csr[PC], d.csr, 0, [])
    ensures Computes(d, e, rd) && MulMeans(op, a, b, e.value)
  {
    MulIs(op, a, b);
  }

  /** A shift looks at the low five bits of its second operand only. */
  lemma SameShift(op: AluOp, a: word, b: word, x: word, v: word)
    requires Shift(op) && b % 32 == x % 32 && AluMeans(op, a, b, v)
    ensures AluMeans(op, a, x, v)
  {
  }

  lemma ShiftAmount(imm: int, k: nat)
    requires 0 <= imm < 32 && (k == 0 || k == 0x400)
    ensures W(imm + k) % 32 == imm % 0x1_0000_0000 % 32
  {
  }

  lemma ImmediateAsks(d: Cpu, e: Effect, op: AluOp, rd: reg, a: word, imm: int, arith: bool)
    requires Encodable(OPIMM(op, rd, 0, imm)) && (Shift(op) ==> arith == op.SRA?)
    requires var k := if op.SRA? then 0x400 else 0;
      e == Retire(rd, Alu(AluCode(op), a, W(imm + k), false, arith), d.csr[PC], d.csr, 0, [])
    ensures Computes(d, e, rd) && AluMeans(op, a, imm % 0x1_0000_0000, e.value)
  {
    var k := if op.SRA? then 0x400 else 0;
    AluIs(op, a, W(imm + k), false, arith);
    if Shift(op) {
      ShiftAmount(imm, k);
      SameShift(op, a, W(imm + k), imm % 0x1_0000_0000, e.value);
    }
  }

  /** Adding the base of memory back to an offset gives the address. */
  lemma OffsetBack(a: int, o: word, at: word)
    requires at == (a - o) % 0x1_0000_0000
    ensures W(at + o) == a % 0x1_0000_0000
  {
    var x: int, y: int := at, o;
    WCongruent(a - o);
    SameWord(x + y, a);
  }

  lemma LoadsMean(w: Width, mem: seq<byte>, at: nat, v: word)
    requires at + 4 <= |mem|
    requires var b: word, h := mem[at], Half(mem, at);
      v == match w
           case W8 => (if b >= 0x80 then b + 0xffff_ff00 else b)
           case W16 => (if h >= 0x8000 then h + 0xffff_0000 else h)
           case W32 => Quad(mem, at)
           case U8 => b
           case U16 => h
    ensures LoadMeans(w, mem, at, v)
  {
  }

  lemma LoadAsks(d: Cpu, w: Width, rd: reg, rs1: reg, imm: int, at: word)
    requires Valid(d) && at == Offset(d, rs1, imm)
    ensures Loads(d, LoadFrom(d, WidthCode(w), rd, at), w, rd, rs1, imm)
  {
    var e := LoadFrom(d, WidthCode(w), rd, at);
    OffsetBack(d.regs[rs1] + imm, d.offset, at);
    if at + 4 <= |d.mem| {
      LoadsMean(w, d.mem, at, e.value);
    }
  }

  lemma StoreAsks(d: Cpu, w: Width, rs1: reg, rs2: reg, imm: int, at: word)
    requires Valid(d) && !w.U8? && !w.U16? && at == Offset(d, rs1, imm)
    ensures Stores(d, StoreTo(d, WidthCode(w), at, d.regs[rs2]), w, rs1, rs2, imm)
  {
    OffsetBack(d.regs[rs1] + imm, d.offset, at);
    BytesAre(d.regs[rs2]);
    WCongruent(Pc(d) + 4);
  }

  lemma ReserveAsks(d: Cpu, rd: reg, rs1: reg, rs2: reg, at: word)
    requires Valid(d) && at == Offset(d, rs1, 0)
    ensures Atomics(d, AtomicOn(d, 2, rd, at, d.regs[rs2]), LR(rd, rs1))
  {
    OffsetBack(d.regs[rs1], d.offset, at);
    ShiftedSlot(d.csr[FLAGS], at);
  }

  lemma ConditionalAsks(d: Cpu, rd: reg, rs1: reg, rs2: reg, at: word)
    requires Valid(d) && at == Offset(d, rs1, 0)
    ensures Atomics(d, AtomicOn(d, 3, rd, at, d.regs[rs2]), SC(rd, rs1, rs2))
  {
    OffsetBack(d.regs[rs1], d.offset, at);
    BytesAre(d.regs[rs2]);
  }

  lemma AmoAsks(d: Cpu, op: AmoOp, rd: reg, rs1: reg, rs2: reg, at: word)
    requires Valid(d) && at == Offset(d, rs1, 0)
    ensures Atomics(d, AtomicOn(d, AmoCode(op), rd, at, d.regs[rs2]), AMO(op, rd, rs1, rs2))
  {
    OffsetBack(d.regs[rs1], d.offset, at);
    if at + 4 <= |d.mem| {
      var was := Quad(d.mem, at);
      AmoIs(op, was, d.regs[rs2]);
      BytesAre(Amo(AmoCode(op), was, d.regs[rs2]));
    }
  }

  lemma ControlAsks(d: Cpu, op: CsrOp, rd: reg, x: word, k: nat, cycle: word)
    requires Writable(k)
    ensures Controls(d, ControlOn(d, CsrCode(op), CsrNumber(k), rd, x, cycle), op, rd, x, k)
  {
    CsrIs(op, d.csr[k], x);
  }

  lemma OrSets(a: word, w: word, k: nat)
    requires k < 32 && BitOn(w, k)
    ensures BitOn(Or(a, w), k)
  {
    OrBits(a, w, k);
  }

  lemma FirstBits()
    ensures BitOn(8, 3) && BitOn(4, 2)
  {
    assert Pow2(2) == 4 && Pow2(3) == 8;
  }

  lemma SleepAsks(d: Cpu)
    ensures Sleeps(d, Privileged(d, 0x105))
  {
    FirstBits();
    OrSets(d.csr[MSTATUS], 8, 3);
    OrSets(d.csr[FLAGS], 4, 2);
    WCongruent(Pc(d) + 4);
  }

  // ---------- from the word to what it asks for ----------

  lemma OffsetIs(d: Cpu, rs1: reg, imm: int)
    requires Valid(d)
    ensures var w: int := W(imm); W(d.regs[rs1] + w - d.offset) == Offset(d, rs1, imm)
  {
    WrappedSum(d.regs[rs1] - d.offset, imm);
  }

  lemma ExecUpper(d: Cpu, ir: word, cycle: word)
    requires Valid(d) && (ir % 0x80 == 0x37 || ir % 0x80 == 0x17)
    ensures Execute(d, ir, cycle)
      == Write(d, Rd(ir), if ir % 0x80 == 0x37 then ImmU(ir) else W(d.csr[PC] + ImmU(ir)))
  {
  }

  lemma ExecJump(d: Cpu, ir: word, cycle: word)
    requires Valid(d) && (ir % 0x80 == 0x6f || ir % 0x80 == 0x67)
    ensures ir % 0x80 == 0x6f ==>
      Execute(d, ir, cycle) == Retire(Rd(ir), W(Pc(d) + 4), W(Pc(d) + ImmJ(ir) - 4), d.csr, 0, [])
    ensures ir % 0x80 == 0x67 ==>
      var t := W(d.regs[Rs1(ir)] + ImmI(ir));
      Execute(d, ir, cycle) == Retire(Rd(ir), W(Pc(d) + 4), W(t - t % 2 - 4), d.csr, 0, [])
  {
  }

  lemma ExecOthers(d: Cpu, ir: word, cycle: word)
    requires Valid(d)
    ensures ir % 0x80 == 0x63 ==> Execute(d, ir, cycle) == Branch(d, ir)
    ensures ir % 0x80 == 0x03 ==> Execute(d, ir, cycle) == Load(d, ir)
    ensures ir % 0x80 == 0x23 ==> Execute(d, ir, cycle) == Store(d, ir)
    ensures ir % 0x80 == 0x13 || ir % 0x80 == 0x33 ==> Execute(d, ir, cycle) == Compute(d, ir)
    ensures ir % 0x80 == 0x73 ==> Execute(d, ir, cycle) == System(d, ir, cycle)
    ensures ir % 0x80 == 0x2f ==> Execute(d, ir, cycle) == Atomic(d, ir)
    ensures ir % 0x80 == 0x0f ==> Execute(d, ir, cycle) == Retire(0, 0, d.csr[PC], d.csr, 0, [])
  {
  }

  lemma DecodedUpper(d: Cpu, e: Effect, ir: word, i: Instr, cycle: word)
    requires Valid(d) && Encodable(i) && (i.LUI? || i.AUIPC?) && Decodes(ir, i) && e == Execute(d, ir, cycle)
    ensures Asks(d, e, i)
  {
    ExecUpper(d, ir, cycle);
    WCongruent(Pc(d) + i.upper * 0x1000);
  }

  lemma DecodedJal(d: Cpu, e: Effect, ir: word, i: Instr, cycle: word)
    requires Valid(d) && Encodable(i) && i.JAL? && Decodes(ir, i) && e == Execute(d, ir, cycle)
    ensures Links(d, e, i.rd, Pc(d) + i.off)
  {
    ExecJump(d, ir, cycle);
    JumpAsks(d, e, i.rd, i.off);
  }

  lemma DecodedJalr(d: Cpu, e: Effect, ir: word, i: Instr, cycle: word)
    requires Valid(d) && Encodable(i) && i.JALR? && Decodes(ir, i) && e == Execute(d, ir, cycle)
    ensures Links(d, e, i.rd, Address(d, i.rs1, i.imm) - Address(d, i.rs1, i.imm) % 2)
  {
    ExecJump(d, ir, cycle);
    WrappedSum(d.regs[i.rs1], i.imm);
    LinkAsks(d, e, i.rd, Address(d, i.rs1, i.imm));
  }

  lemma DecodedBranch(d: Cpu, e: Effect, ir: word, i: Instr, cycle: word)
    requires Valid(d) && Encodable(i) && i.BRANCH? && Decodes(ir, i) && e == Execute(d, ir, cycle)
    ensures Asks(d, e, i)
  {
    ExecOthers(d, ir, cycle);
    var a, b := d.regs[i.rs1], d.regs[i.rs2];
    BranchTakes(d, i.cmp, a, b, W(i.off));
    ComparesIs(i.cmp, a, b);
    BranchAsks(d, e, CmpHolds(i.cmp, a, b), i.off);
  }

  lemma DecodedMemory(d: Cpu, e: Effect, ir: word, i: Instr, cycle: word)
    requires Valid(d) && Encodable(i) && (i.LOAD? || i.STORE?) && Decodes(ir, i) && e == Execute(d, ir, cycle)
    ensures Asks(d, e, i)
  {
    ExecOthers(d, ir, cycle);
    OffsetIs(d, i.rs1, i.imm);
    if i.LOAD? {
      LoadAsks(d, i.w, i.rd, i.rs1, i.imm, Offset(d, i.rs1, i.imm));
    } else {
      StoreAsks(d, i.w, i.rs1, i.rs2, i.imm, Offset(d, i.rs1, i.imm));
    }
  }

  lemma DecodedCompute(d: Cpu, e: Effect, ir: word, i: Instr, cycle: word)
    requires Valid(d) && Encodable(i) && (i.OP? || i.MULDIV? || i.OPIMM?)
    requires Decodes(ir, i) && e == Execute(d, ir, cycle)
    ensures Asks(d, e, i)
  {
    ExecOthers(d, ir, cycle);
    var a := d.regs[i.rs1];
    if i.OP? {
      RegisterAsks(d, e, i.op, i.rd, a, d.regs[i.rs2], i.op.SUB? || i.op.SRA?);
    } else if i.MULDIV? {
      MultiplyAsks(d, e, i.mop, i.rd, a, d.regs[i.rs2]);
    } else {
      ImmediateAsks(d, e, i.op, i.rd, a, i.imm, Bit(ir, 0x4000_0000) == 1);
    }
  }

  lemma DecodedAtomic(d: Cpu, e: Effect, ir: word, i: Instr, cycle: word)
    requires Valid(d) && (i.LR? || i.SC? || i.AMO?) && Decodes(ir, i) && e == Execute(d, ir, cycle)
    ensures Asks(d, e, i)
  {
    ExecOthers(d, ir, cycle);
    OffsetIs(d, i.rs1, 0);
    var at := Offset(d, i.rs1, 0);
    if i.LR? {
      ReserveAsks(d, i.rd, i.rs1, Rs2(ir), at);
    } else if i.SC? {
      ConditionalAsks(d, i.rd, i.rs1, i.rs2, at);
    } else {
      AmoAsks(d, i.aop, i.rd, i.rs1, i.rs2, at);
    }
  }

  lemma ExecSystem(d: Cpu, ir: word, cycle: word, op: nat, no: nat)
    requires Valid(d) && Funct3(ir) == op && ir / 0x10_0000 == no
    ensures op % 4 != 0 ==>
      System(d, ir, cycle) == ControlOn(d, op % 4, no, Rd(ir), if op >= 4 then Rs1(ir) else d.regs[Rs1(ir)], cycle)
    ensures op == 0 ==> System(d, ir, cycle) == Privileged(d, no)
  {
  }

  lemma ExecControl(d: Cpu, ir: word, cycle: word, code: nat, imm: bool, no: nat)
    requires Valid(d) && 1 <= code <= 3 && Funct3(ir) == code + (if imm then 4 else 0) && ir / 0x10_0000 == no
    ensures System(d, ir, cycle) == ControlOn(d, code, no, Rd(ir), if imm then Rs1(ir) else d.regs[Rs1(ir)], cycle)
  {
    ExecSystem(d, ir, cycle, code + (if imm then 4 else 0), no);
  }

  lemma DecodedControl(d: Cpu, ir: word, i: Instr, cycle: word)
    requires Valid(d) && Encodable(i) && (i.CSR? || i.CSRI?) && Decodes(ir, i)
    ensures Controls(d, System(d, ir, cycle), i.cop, i.rd, if i.CSR? then d.regs[i.rs1] else i.uimm, i.k)
  {
    var x: word := if i.CSR? then d.regs[i.rs1] else i.uimm;
    ExecControl(d, ir, cycle, CsrCode(i.cop), i.CSRI?, CsrNumber(i.k));
    ControlAsks(d, i.cop, i.rd, x, i.k, cycle);
  }

  lemma DecodedCall(d: Cpu, e: Effect, ir: word, i: Instr, cycle: word)
    requires Valid(d) && (i.ECALL? || i.EBREAK? || i.WFI?) && Decodes(ir, i) && e == System(d, ir, cycle)
    ensures Asks(d, e, i)
  {
    ExecSystem(d, ir, cycle, 0, if i.ECALL? then 0 else if i.EBREAK? then 1 else 0x105);
    SleepAsks(d);
  }

  lemma DecodedSystem(d: Cpu, e: Effect, ir: word, i: Instr, cycle: word)
    requires Valid(d) && Encodable(i) && (i.CSR? || i.CSRI? || i.ECALL? || i.EBREAK? || i.WFI? || i.FENCE?)
    requires Decodes(ir, i) && e == Execute(d, ir, cycle)
    ensures Asks(d, e, i)
  {
    ExecOthers(d, ir, cycle);
    if i.CSR? || i.CSRI? {
      DecodedControl(d, ir, i, cycle);
    } else if !i.FENCE? {
      DecodedCall(d, e, ir, i, cycle);
    }
  }

  lemma DecodedAsks(d: Cpu, ir: word, i: Instr, cycle: word)
    requires Valid(d) && Encodable(i) && Decodes(ir, i)
    ensures Asks(d, Execute(d, ir, cycle), i)
  {
    var e := Execute(d, ir, cycle);
    if i.LUI? || i.AUIPC? {
      DecodedUpper(d, e, ir, i, cycle);
    } else if i.JAL? {
      DecodedJal(d, e, ir, i, cycle);
    } else if i.JALR? {
      DecodedJalr(d, e, ir, i, cycle);
    } else if i.BRANCH? {
      DecodedBranch(d, e, ir, i, cycle);
    } else if i.LOAD? || i.STORE? {
      DecodedMemory(d, e, ir, i, cycle);
    } else if i.OP? || i.MULDIV? || i.OPIMM? {
      DecodedCompute(d, e, ir, i, cycle);
    } else if i.LR? || i.SC? || i.AMO? {
      DecodedAtomic(d, e, ir, i, cycle);
    } else {
      DecodedSystem(d, e, ir, i, cycle);
    }
  }
}
