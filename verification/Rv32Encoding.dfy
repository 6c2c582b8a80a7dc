/** The instructions of RV32IMA with control registers, and their encodings as in the RISC-V
    Instruction Set Manual, Volume I, sections 2.2 and 2.3. */
module Rv32Encoding {
  import opened PowersOfTwo
  import opened Rv32

  type reg = r: nat | r < 32

  datatype Cmp = EQ | NE | LT | GE | LTU | GEU

  datatype Width = W8 | W16 | W32 | U8 | U16

  datatype AluOp = ADD | SUB | SLL | SLT | SLTU | XOR | SRL | SRA | OR | AND

  datatype MulOp = MUL | MULH | MULHSU | MULHU | DIV | DIVU | REM | REMU

  datatype AmoOp = SWAP | PLUS | BITXOR | BITAND | BITOR | MIN | MAX | MINU | MAXU

  datatype CsrOp = RW | RS | RC

  datatype Instr =
    | LUI(rd: reg, upper: nat)
    | AUIPC(rd: reg, upper: nat)
    | JAL(rd: reg, off: int)
    | JALR(rd: reg, rs1: reg, imm: int)
    | BRANCH(cmp: Cmp, rs1: reg, rs2: reg, off: int)
    | LOAD(w: Width, rd: reg, rs1: reg, imm: int)
    | STORE(w: Width, rs1: reg, rs2: reg, imm: int)
    | OPIMM(op: AluOp, rd: reg, rs1: reg, imm: int)
    | OP(op: AluOp, rd: reg, rs1: reg, rs2: reg)
    | MULDIV(mop: MulOp, rd: reg, rs1: reg, rs2: reg)
    | LR(rd: reg, rs1: reg)
    | SC(rd: reg, rs1: reg, rs2: reg)
    | AMO(aop: AmoOp, rd: reg, rs1: reg, rs2: reg)
    | CSR(cop: CsrOp, rd: reg, rs1: reg, k: nat)    // `k` as in Rv32
    | CSRI(cop: CsrOp, rd: reg, uimm: reg, k: nat)
    | FENCE
    | ECALL
    | EBREAK
    | WFI

  predicate Writable(k: nat) {
    k in {MSTATUS, MIE, MTVEC, MSCRATCH, MEPC, MCAUSE, MTVAL, MIP}
  }

  /** Numbers of control registers, from the RISC-V Instruction Set Manual, Volume II, section 2.2. */
  function CsrNumber(k: nat): (no: nat)
    requires Writable(k)
    ensures no < 0x1000
  {
    if k == MSTATUS then 0x300 else if k == MIE then 0x304 else if k == MTVEC then 0x305
    else if k == MSCRATCH then 0x340 else if k == MEPC then 0x341 else if k == MCAUSE then 0x342
    else if k == MTVAL then 0x343 else 0x344
  }

  predicate Shift(op: AluOp) { op.SLL? || op.SRL? || op.SRA? }

  /** Operands that fit their fields. */
  predicate Encodable(i: Instr) {
    match i
    case LUI(_, upper) => upper < 0x10_0000
    case AUIPC(_, upper) => upper < 0x10_0000
    case JAL(_, off) => -0x10_0000 <= off < 0x10_0000 && off % 2 == 0
    case BRANCH(_, _, _, off) => -0x1000 <= off < 0x1000 && off % 2 == 0
    case JALR(_, _, imm) => -0x800 <= imm < 0x800
    case LOAD(_, _, _, imm) => -0x800 <= imm < 0x800
    case STORE(w, _, _, imm) => -0x800 <= imm < 0x800 && !w.U8? && !w.U16?
    case OPIMM(op, _, _, imm) => !op.SUB? && if Shift(op) then 0 <= imm < 32 else -0x800 <= imm < 0x800
    case CSR(_, _, _, k) => Writable(k)
    case CSRI(_, _, _, k) => Writable(k)
    case _ => true
  }

  /** The fields of a word, from the high end: 7, 5, 5, 3, 5 and 7 bits. */
  function Fields(top: nat, b: reg, a: reg, f3: nat, d: reg, opcode: nat): word
    requires top < 0x80 && f3 < 8 && opcode < 0x80
  {
    opcode + 0x80 * d + 0x1000 * f3 + 0x8000 * a + 0x10_0000 * b + 0x200_0000 * top
  }

  /** A 12-bit field in the place of the two high ones. */
  function IType(imm: nat, a: reg, f3: nat, d: reg, opcode: nat): word
    requires imm < 0x1000 && f3 < 8 && opcode < 0x80
  {
    Fields(imm / 32, imm % 32, a, f3, d, opcode)
  }

  /** A 20-bit field in the place of the four high ones. */
  function UType(imm: nat, d: reg, opcode: nat): word
    requires imm < 0x10_0000 && opcode < 0x80
  {
    opcode + 0x80 * d + 0x1000 * imm
  }

  function CmpCode(c: Cmp): (f: nat)
    ensures f < 8
  {
    match c case EQ => 0 case NE => 1 case LT => 4 case GE => 5 case LTU => 6 case GEU => 7
  }

  function WidthCode(w: Width): (f: nat)
    ensures f < 8
  {
    match w case W8 => 0 case W16 => 1 case W32 => 2 case U8 => 4 case U16 => 5
  }

  function AluCode(op: AluOp): (f: nat)
    ensures f < 8
  {
    match op
    case ADD => 0 case SUB => 0 case SLL => 1 case SLT => 2 case SLTU => 3
    case XOR => 4 case SRL => 5 case SRA => 5 case OR => 6 case AND => 7
  }

  function MulCode(op: MulOp): (f: nat)
    ensures f < 8
  {
    match op
    case MUL => 0 case MULH => 1 case MULHSU => 2 case MULHU => 3
    case DIV => 4 case DIVU => 5 case REM => 6 case REMU => 7
  }

  function AmoCode(op: AmoOp): (f: nat)
    ensures f < 32
  {
    match op
    case SWAP => 1 case PLUS => 0 case BITXOR => 4 case BITAND => 12 case BITOR => 8
    case MIN => 16 case MAX => 20 case MINU => 24 case MAXU => 28
  }

  function CsrCode(op: CsrOp): (f: nat)
    ensures 1 <= f <= 3
  {
    match op case RW => 1 case RS => 2 case RC => 3
  }

  /** The bits of a jump offset: 20, 10 to 1, 11, 19 to 12. */
  function JumpField(off: int): (f: nat)
    ensures f < 0x10_0000
  {
    var u := off % 0x20_0000;
    u / 0x10_0000 * 0x8_0000 + u / 2 % 0x400 * 0x200 + u / 0x800 % 2 * 0x100 + u / 0x1000 % 0x100
  }

  /** The bits of a branch offset: 12 and 10 to 5 at the high end, 4 to 1 and 11 at the low one. */
  function BranchHigh(off: int): (f: nat)
    ensures f < 0x80
  {
    var u := off % 0x2000;
    u / 0x1000 * 64 + u / 32 % 64
  }

  function BranchLow(off: int): reg {
    var u := off % 0x2000;
    u / 2 % 16 * 2 + u / 0x800 % 2
  }

  function Encode(i: Instr): word
    requires Encodable(i)
  {
    match i
    case LUI(rd, upper) => UType(upper, rd, 0x37)
    case AUIPC(rd, upper) => UType(upper, rd, 0x17)
    case JAL(rd, off) => UType(JumpField(off), rd, 0x6f)
    case JALR(rd, rs1, imm) => IType(imm % 0x1000, rs1, 0, rd, 0x67)
    case BRANCH(cmp, rs1, rs2, off) => Fields(BranchHigh(off), rs2, rs1, CmpCode(cmp), BranchLow(off), 0x63)
    case LOAD(w, rd, rs1, imm) => IType(imm % 0x1000, rs1, WidthCode(w), rd, 0x03)
    case STORE(w, rs1, rs2, imm) => Fields(imm % 0x1000 / 32, rs2, rs1, WidthCode(w), imm % 32, 0x23)
    case OPIMM(op, rd, rs1, imm) =>
      IType(imm % 0x1000 + (if op.SRA? then 0x400 else 0), rs1, AluCode(op), rd, 0x13)
    case OP(op, rd, rs1, rs2) => Fields(if op.SUB? || op.SRA? then 0x20 else 0, rs2, rs1, AluCode(op), rd, 0x33)
    case MULDIV(op, rd, rs1, rs2) => Fields(1, rs2, rs1, MulCode(op), rd, 0x33)
    case LR(rd, rs1) => Fields(2 * 4, 0, rs1, 2, rd, 0x2f)
    case SC(rd, rs1, rs2) => Fields(3 * 4, rs2, rs1, 2, rd, 0x2f)
    case AMO(op, rd, rs1, rs2) => Fields(AmoCode(op) * 4, rs2, rs1, 2, rd, 0x2f)
    case CSR(op, rd, rs1, k) => IType(CsrNumber(k), rs1, CsrCode(op), rd, 0x73)
    case CSRI(op, rd, uimm, k) => IType(CsrNumber(k), uimm, CsrCode(op) + 4, rd, 0x73)
    case FENCE => IType(0xff, 0, 0, 0, 0x0f)
    case ECALL => IType(0, 0, 0, 0, 0x73)
    case EBREAK => IType(1, 0, 0, 0, 0x73)
    case WFI => IType(0x105, 0, 0, 0, 0x73)
  }

  // ---------- decoding what was encoded ----------

  /** The number above and below a cut. */
  lemma Cut(m: nat, low: nat, high: nat, x: nat)
    requires low < m && x == low + m * high
    ensures x % m == low && x / m == high
  {
    DivUnique(m, high, low);
  }

  lemma LowFields(top: nat, b: reg, a: reg, f3: nat, d: reg, opcode: nat)
    requires top < 0x80 && f3 < 8 && opcode < 0x80
    ensures var ir := Fields(top, b, a, f3, d, opcode);
      ir % 0x80 == opcode && Rd(ir) == d && Funct3(ir) == f3
  {
    var ir := Fields(top, b, a, f3, d, opcode);
    var r3 := f3 + 8 * (a + 32 * (b + 32 * top));
    Cut(0x80, opcode, d + 32 * r3, ir);
    Cut(32, d, r3, d + 32 * r3);
    Cut(0x1000, opcode + 0x80 * d, r3, ir);
    Cut(8, f3, a + 32 * (b + 32 * top), r3);
  }

  lemma HighFields(top: nat, b: reg, a: reg, f3: nat, d: reg, opcode: nat)
    requires top < 0x80 && f3 < 8 && opcode < 0x80
    ensures var ir := Fields(top, b, a, f3, d, opcode);
      && Rs1(ir) == a && Rs2(ir) == b && ir / 0x200_0000 == top && ir / 0x10_0000 == 32 * top + b
  {
    var ir := Fields(top, b, a, f3, d, opcode);
    var low := opcode + 0x80 * d + 0x1000 * f3;
    Cut(0x8000, low, a + 32 * (b + 32 * top), ir);
    Cut(32, a, b + 32 * top, a + 32 * (b + 32 * top));
    Cut(0x10_0000, low + 0x8000 * a, b + 32 * top, ir);
    Cut(32, b, top, b + 32 * top);
    Cut(0x200_0000, low + 0x8000 * a + 0x10_0000 * b, top, ir);
  }

  lemma FieldsDecode(top: nat, b: reg, a: reg, f3: nat, d: reg, opcode: nat)
    requires top < 0x80 && f3 < 8 && opcode < 0x80
    ensures var ir := Fields(top, b, a, f3, d, opcode);
      && ir % 0x80 == opcode && Rd(ir) == d && Funct3(ir) == f3 && Rs1(ir) == a && Rs2(ir) == b
      && ir / 0x200_0000 == top && ir / 0x10_0000 == 32 * top + b
  {
    LowFields(top, b, a, f3, d, opcode);
    HighFields(top, b, a, f3, d, opcode);
  }

  /** A 12-bit field holds a small integer. */
  lemma Extended(imm: int)
    requires -0x800 <= imm < 0x800
    ensures Extend12(imm % 0x1000) == W(imm)
  {
  }

  lemma ITypeDecode(imm: nat, a: reg, f3: nat, d: reg, opcode: nat)
    requires imm < 0x1000 && f3 < 8 && opcode < 0x80
    ensures var ir := IType(imm, a, f3, d, opcode);
      && ir % 0x80 == opcode && Rd(ir) == d && Funct3(ir) == f3 && Rs1(ir) == a
      && ir / 0x10_0000 == imm && ImmI(ir) == Extend12(imm)
  {
    FieldsDecode(imm / 32, imm % 32, a, f3, d, opcode);
  }

  lemma STypeDecode(imm: int, b: reg, a: reg, f3: nat)
    requires -0x800 <= imm < 0x800 && f3 < 8
    ensures ImmS(Fields(imm % 0x1000 / 32, b, a, f3, imm % 32, 0x23)) == W(imm)
  {
    FieldsDecode(imm % 0x1000 / 32, b, a, f3, imm % 32, 0x23);
    Extended(imm);
    assert imm % 32 + imm % 0x1000 / 32 * 32 == imm % 0x1000;
  }

  lemma UTypeDecode(imm: nat, d: reg, opcode: nat)
    requires imm < 0x10_0000 && opcode < 0x80
    ensures var ir := UType(imm, d, opcode);
      ir % 0x80 == opcode && Rd(ir) == d && ir / 0x1000 == imm && ImmU(ir) == imm * 0x1000
  {
    var ir := UType(imm, d, opcode);
    Cut(0x80, opcode, d + 32 * imm, ir);
    Cut(32, d, imm, d + 32 * imm);
    Cut(0x1000, opcode + 0x80 * d, imm, ir);
  }

  /** Dividing by a product divides twice. */
  lemma Twice(x: nat, k: nat)
    requires k > 0
    ensures x / (0x1000 * k) == x / 0x1000 / k
  {
    var y := x / 0x1000;
    var q, r := y / k, y % k;
    assert y == k * q + r;
    var low := x - 0x1000 * y + 0x1000 * r;
    assert x == low + 0x1000 * (k * q);
    assert 0x1000 * (k * q) == (0x1000 * k) * q;
    Cut(0x1000 * k, low, q, x);
  }

  lemma JumpParts(ir: word)
    ensures var f := ir / 0x1000;
      && Bit(ir, 0x8000_0000) == f / 0x8_0000 % 2 && ir / 0x20_0000 == f / 0x200
      && Bit(ir, 0x10_0000) == f / 0x100 % 2
  {
    Twice(ir, 0x8_0000);
    Twice(ir, 0x200);
    Twice(ir, 0x100);
  }

  /** The offset a jump field stands for, without its sign. */
  function JumpRaw(f: nat): nat {
    f / 0x8_0000 % 2 * 0x10_0000 + f / 0x200 % 0x400 * 2 + f / 0x100 % 2 * 0x800 + f % 0x100 * 0x1000
  }

  lemma FieldBack(s: nat, m: nat, e: nat, l: nat)
    requires s < 2 && m < 0x400 && e < 2 && l < 0x100
    ensures var f := s * 0x8_0000 + m * 0x200 + e * 0x100 + l;
      f / 0x8_0000 % 2 == s && f / 0x200 % 0x400 == m && f / 0x100 % 2 == e && f % 0x100 == l
  {
    var f := s * 0x8_0000 + m * 0x200 + e * 0x100 + l;
    Cut(0x100, l, e + 2 * (m + 0x400 * s), f);
    Cut(2, e, m + 0x400 * s, e + 2 * (m + 0x400 * s));
    Cut(0x200, l + 0x100 * e, m + 0x400 * s, f);
    Cut(0x400, m, s, m + 0x400 * s);
    Cut(0x8_0000, l + 0x100 * e + 0x200 * m, s, f);
  }

  lemma JumpDigits(u: nat)
    requires u < 0x20_0000 && u % 2 == 0
    ensures u == 0x10_0000 * (u / 0x10_0000) + 0x1000 * (u / 0x1000 % 0x100) + 0x800 * (u / 0x800 % 2)
                 + 2 * (u / 2 % 0x400)
    ensures u / 0x10_0000 < 2
  {
    var w := u / 2;
    var m, x := w % 0x400, w / 0x400;
    Cut(0x800, 2 * m, x, u);
    var e, y := x % 2, x / 2;
    Cut(0x1000, 2 * m + 0x800 * e, y, u);
    var l, s := y % 0x100, y / 0x100;
    Cut(0x10_0000, 2 * m + 0x800 * e + 0x1000 * l, s, u);
  }

  lemma JumpBits(off: int)
    requires off % 2 == 0
    ensures JumpRaw(JumpField(off)) == off % 0x20_0000
  {
    var u := off % 0x20_0000;
    assert u % 2 == 0;
    JumpDigits(u);
    FieldBack(u / 0x10_0000, u / 2 % 0x400, u / 0x800 % 2, u / 0x1000 % 0x100);
  }

  lemma ImmJIs(ir: word)
    ensures var raw := JumpRaw(ir / 0x1000); ImmJ(ir) == if raw >= 0x10_0000 then raw + 0xffe0_0000 else raw
  {
    JumpParts(ir);
  }

  lemma SignFill(off: int, half: nat, fill: nat, u: nat)
    requires (half == 0x10_0000 && fill == 0xffe0_0000) || (half == 0x1000 && fill == 0xffff_e000)
    requires 0 <= off + half < 2 * half && u == off % (2 * half)
    ensures (if u >= half then u + fill else u) == W(off)
  {
  }

  lemma JumpDecode(off: int, d: reg)
    requires -0x10_0000 <= off < 0x10_0000 && off % 2 == 0
    ensures ImmJ(UType(JumpField(off), d, 0x6f)) == W(off)
  {
    UTypeDecode(JumpField(off), d, 0x6f);
    ImmJIs(UType(JumpField(off), d, 0x6f));
    JumpBits(off);
    SignFill(off, 0x10_0000, 0xffe0_0000, off % 0x20_0000);
  }

  /** The offset a branch's two fields stand for, without its sign. */
  function BranchRaw(top: nat, d: nat): nat {
    d / 2 % 16 * 2 + top % 64 * 32 + d % 2 * 0x800 + top / 64 * 0x1000
  }

  lemma BranchDigits(u: nat)
    requires u < 0x2000 && u % 2 == 0
    ensures u == 0x1000 * (u / 0x1000) + 0x800 * (u / 0x800 % 2) + 32 * (u / 32 % 64) + 2 * (u / 2 % 16)
  {
    var w := u / 2;
    var l, x := w % 16, w / 16;
    Cut(32, 2 * l, x, u);
    var h, y := x % 64, x / 64;
    Cut(0x800, 2 * l + 32 * h, y, u);
    Cut(0x1000, 2 * l + 32 * h + 0x800 * (y % 2), y / 2, u);
  }

  lemma BranchBits(off: int)
    requires off % 2 == 0
    ensures BranchRaw(BranchHigh(off), BranchLow(off)) == off % 0x2000
  {
    var u := off % 0x2000;
    assert u % 2 == 0;
    BranchDigits(u);
    Cut(64, u / 32 % 64, u / 0x1000, BranchHigh(off));
    Cut(2, u / 0x800 % 2, u / 2 % 16, BranchLow(off));
  }

  lemma BranchLowParts(top: nat, b: reg, a: reg, f3: nat, d: reg, opcode: nat)
    requires top < 0x80 && f3 < 8 && opcode < 0x80
    ensures var ir := Fields(top, b, a, f3, d, opcode); ir / 0x100 % 16 == d / 2 && Bit(ir, 0x80) == d % 2
  {
    var ir := Fields(top, b, a, f3, d, opcode);
    var rest := f3 + 8 * (a + 32 * (b + 32 * top));
    Cut(0x80, opcode, d + 32 * rest, ir);
    Cut(2, d % 2, d / 2 + 16 * rest, d + 32 * rest);
    Cut(0x100, opcode + 0x80 * (d % 2), d / 2 + 16 * rest, ir);
    Cut(16, d / 2, rest, d / 2 + 16 * rest);
  }

  lemma BranchHighParts(top: nat, b: reg, a: reg, f3: nat, d: reg, opcode: nat)
    requires top < 0x80 && f3 < 8 && opcode < 0x80
    ensures var ir := Fields(top, b, a, f3, d, opcode); ir / 0x8000_0000 == top / 64
  {
    var ir := Fields(top, b, a, f3, d, opcode);
    var low := opcode + 0x80 * d + 0x1000 * f3 + 0x8000 * a + 0x10_0000 * b;
    Cut(0x8000_0000, low + 0x200_0000 * (top % 64), top / 64, ir);
  }

  lemma ImmBFrom(ir: word, top: nat, d: reg)
    requires ir / 0x100 % 16 == d / 2 && Bit(ir, 0x80) == d % 2
    requires ir / 0x200_0000 == top < 0x80 && ir / 0x8000_0000 == top / 64
    ensures var raw := BranchRaw(top, d); ImmB(ir) == if raw >= 0x1000 then raw + 0xffff_e000 else raw
  {
  }

  lemma ImmBIs(top: nat, b: reg, a: reg, f3: nat, d: reg, opcode: nat)
    requires top < 0x80 && f3 < 8 && opcode < 0x80
    ensures var raw, ir := BranchRaw(top, d), Fields(top, b, a, f3, d, opcode);
      ImmB(ir) == if raw >= 0x1000 then raw + 0xffff_e000 else raw
  {
    HighFields(top, b, a, f3, d, opcode);
    BranchLowParts(top, b, a, f3, d, opcode);
    BranchHighParts(top, b, a, f3, d, opcode);
    ImmBFrom(Fields(top, b, a, f3, d, opcode), top, d);
  }

  lemma BranchDecode(off: int, b: reg, a: reg, f3: nat)
    requires -0x1000 <= off < 0x1000 && off % 2 == 0 && f3 < 8
    ensures ImmB(Fields(BranchHigh(off), b, a, f3, BranchLow(off), 0x63)) == W(off)
  {
    ImmBIs(BranchHigh(off), b, a, f3, BranchLow(off), 0x63);
    BranchBits(off);
    SignFill(off, 0x1000, 0xffff_e000, off % 0x2000);
  }

  /** Single bits of a word, from its fields. */
  lemma OpcodeBit(ir: word)
    ensures Bit(ir, 0x20) == ir % 0x80 / 32 % 2
  {
    var low, q := ir % 0x80, ir / 0x80;
    assert ir == low + 0x80 * q;
    Cut(32, low % 32, low / 32 + 4 * q, ir);
    Cut(2, low / 32 % 2, low / 32 / 2 + 2 * q, low / 32 + 4 * q);
  }

  lemma TopBits(ir: word)
    ensures Bit(ir, 0x200_0000) == ir / 0x200_0000 % 2 && Bit(ir, 0x4000_0000) == ir / 0x200_0000 / 32 % 2
  {
    var low, q := ir % 0x200_0000, ir / 0x200_0000;
    assert ir == low + 0x200_0000 * q;
    Cut(0x4000_0000, low + 0x200_0000 * (q % 32), q / 32, ir);
  }

  // ---------- the fields of every encoding ----------

  /** What decoding an instruction's word has to find. */
  predicate Decodes(ir: word, i: Instr)
    requires Encodable(i)
  {
    match i
    case LUI(rd, upper) => ir % 0x80 == 0x37 && Rd(ir) == rd && ImmU(ir) == upper * 0x1000
    case AUIPC(rd, upper) => ir % 0x80 == 0x17 && Rd(ir) == rd && ImmU(ir) == upper * 0x1000
    case JAL(rd, off) => ir % 0x80 == 0x6f && Rd(ir) == rd && ImmJ(ir) == W(off)
    case JALR(rd, rs1, imm) => ir % 0x80 == 0x67 && Rd(ir) == rd && Rs1(ir) == rs1 && ImmI(ir) == W(imm)
    case BRANCH(cmp, rs1, rs2, off) =>
      ir % 0x80 == 0x63 && Rs1(ir) == rs1 && Rs2(ir) == rs2 && Funct3(ir) == CmpCode(cmp) && ImmB(ir) == W(off)
    case LOAD(w, rd, rs1, imm) =>
      ir % 0x80 == 0x03 && Rd(ir) == rd && Rs1(ir) == rs1 && Funct3(ir) == WidthCode(w) && ImmI(ir) == W(imm)
    case STORE(w, rs1, rs2, imm) =>
      ir % 0x80 == 0x23 && Rs1(ir) == rs1 && Rs2(ir) == rs2 && Funct3(ir) == WidthCode(w) && ImmS(ir) == W(imm)
    case OPIMM(op, rd, rs1, imm) =>
      && ir % 0x80 == 0x13 && Rd(ir) == rd && Rs1(ir) == rs1 && Funct3(ir) == AluCode(op) && Bit(ir, 0x20) == 0
      && ImmI(ir) == W(imm + (if op.SRA? then 0x400 else 0))
      && (Shift(op) ==> Bit(ir, 0x4000_0000) == if op.SRA? then 1 else 0)
    case OP(op, rd, rs1, rs2) =>
      && ir % 0x80 == 0x33 && Rd(ir) == rd && Rs1(ir) == rs1 && Rs2(ir) == rs2 && Funct3(ir) == AluCode(op)
      && Bit(ir, 0x20) == 1 && Bit(ir, 0x200_0000) == 0
      && Bit(ir, 0x4000_0000) == if op.SUB? || op.SRA? then 1 else 0
    case MULDIV(op, rd, rs1, rs2) =>
      && ir % 0x80 == 0x33 && Rd(ir) == rd && Rs1(ir) == rs1 && Rs2(ir) == rs2 && Funct3(ir) == MulCode(op)
      && Bit(ir, 0x20) == 1 && Bit(ir, 0x200_0000) == 1
    case LR(rd, rs1) => ir % 0x80 == 0x2f && Rd(ir) == rd && Rs1(ir) == rs1 && ir / 0x800_0000 == 2
    case SC(rd, rs1, rs2) =>
      ir % 0x80 == 0x2f && Rd(ir) == rd && Rs1(ir) == rs1 && Rs2(ir) == rs2 && ir / 0x800_0000 == 3
    case AMO(op, rd, rs1, rs2) =>
      ir % 0x80 == 0x2f && Rd(ir) == rd && Rs1(ir) == rs1 && Rs2(ir) == rs2 && ir / 0x800_0000 == AmoCode(op)
    case CSR(op, rd, rs1, k) =>
      && ir % 0x80 == 0x73 && Rd(ir) == rd && Rs1(ir) == rs1 && Funct3(ir) == CsrCode(op)
      && ir / 0x10_0000 == CsrNumber(k)
    case CSRI(op, rd, uimm, k) =>
      && ir % 0x80 == 0x73 && Rd(ir) == rd && Rs1(ir) == uimm && Funct3(ir) == CsrCode(op) + 4
      && ir / 0x10_0000 == CsrNumber(k)
    case FENCE => ir % 0x80 == 0x0f
    case ECALL => ir % 0x80 == 0x73 && Funct3(ir) == 0 && ir / 0x10_0000 == 0
    case EBREAK => ir % 0x80 == 0x73 && Funct3(ir) == 0 && ir / 0x10_0000 == 1
    case WFI => ir % 0x80 == 0x73 && Funct3(ir) == 0 && ir / 0x10_0000 == 0x105
  }

  /** The fields of a word, read off. */
  predicate HasFields(ir: word, top: nat, b: reg, a: reg, f3: nat, d: reg, opcode: nat) {
    && ir % 0x80 == opcode && Rd(ir) == d && Funct3(ir) == f3 && Rs1(ir) == a && Rs2(ir) == b
    && Bit(ir, 0x20) == opcode / 32 % 2 && Bit(ir, 0x200_0000) == top % 2 && Bit(ir, 0x4000_0000) == top / 32 % 2
  }

  lemma FieldsRead(ir: word, top: nat, b: reg, a: reg, f3: nat, d: reg, opcode: nat)
    requires top < 0x80 && f3 < 8 && opcode < 0x80 && ir == Fields(top, b, a, f3, d, opcode)
    ensures HasFields(ir, top, b, a, f3, d, opcode)
  {
    FieldsDecode(top, b, a, f3, d, opcode);
    OpcodeBit(ir);
    TopBits(ir);
  }

  lemma ImmediateFound(ir: word, op: AluOp, rd: reg, rs1: reg, imm: int, x: int)
    requires Encodable(OPIMM(op, rd, rs1, imm)) && x == imm + if op.SRA? then 0x400 else 0
    requires HasFields(ir, x % 0x1000 / 32, x % 32, rs1, AluCode(op), rd, 0x13) && ImmI(ir) == W(x)
    ensures Decodes(ir, OPIMM(op, rd, rs1, imm))
  {
  }

  lemma ImmediateDecodes(op: AluOp, rd: reg, rs1: reg, imm: int)
    requires Encodable(OPIMM(op, rd, rs1, imm))
    ensures Decodes(IType(imm % 0x1000 + (if op.SRA? then 0x400 else 0), rs1, AluCode(op), rd, 0x13),
                    OPIMM(op, rd, rs1, imm))
  {
    var x := imm + if op.SRA? then 0x400 else 0;
    var ir := IType(x % 0x1000, rs1, AluCode(op), rd, 0x13);
    assert x % 0x1000 % 32 == x % 32;
    FieldsRead(ir, x % 0x1000 / 32, x % 32, rs1, AluCode(op), rd, 0x13);
    ITypeDecode(x % 0x1000, rs1, AluCode(op), rd, 0x13);
    Extended(x);
    ImmediateFound(ir, op, rd, rs1, imm, x);
  }

  lemma RegisterFound(ir: word, op: AluOp, rd: reg, rs1: reg, rs2: reg)
    requires HasFields(ir, if op.SUB? || op.SRA? then 0x20 else 0, rs2, rs1, AluCode(op), rd, 0x33)
    ensures Decodes(ir, OP(op, rd, rs1, rs2))
  {
  }

  lemma RegisterDecodes(op: AluOp, rd: reg, rs1: reg, rs2: reg)
    ensures var top := if op.SUB? || op.SRA? then 0x20 else 0;
      Decodes(Fields(top, rs2, rs1, AluCode(op), rd, 0x33), OP(op, rd, rs1, rs2))
  {
    var top := if op.SUB? || op.SRA? then 0x20 else 0;
    var ir := Fields(top, rs2, rs1, AluCode(op), rd, 0x33);
    FieldsRead(ir, top, rs2, rs1, AluCode(op), rd, 0x33);
    RegisterFound(ir, op, rd, rs1, rs2);
  }

  lemma MultiplyFound(ir: word, op: MulOp, rd: reg, rs1: reg, rs2: reg)
    requires HasFields(ir, 1, rs2, rs1, MulCode(op), rd, 0x33)
    ensures Decodes(ir, MULDIV(op, rd, rs1, rs2))
  {
  }

  lemma MultiplyDecodes(op: MulOp, rd: reg, rs1: reg, rs2: reg)
    ensures Decodes(Fields(1, rs2, rs1, MulCode(op), rd, 0x33), MULDIV(op, rd, rs1, rs2))
  {
    var ir := Fields(1, rs2, rs1, MulCode(op), rd, 0x33);
    FieldsRead(ir, 1, rs2, rs1, MulCode(op), rd, 0x33);
    MultiplyFound(ir, op, rd, rs1, rs2);
  }

  lemma AtomicDecodes(code: nat, rs2: reg, rs1: reg, rd: reg)
    requires code < 32
    ensures var ir := Fields(code * 4, rs2, rs1, 2, rd, 0x2f);
      ir % 0x80 == 0x2f && Rd(ir) == rd && Rs1(ir) == rs1 && Rs2(ir) == rs2 && ir / 0x800_0000 == code
  {
    FieldsDecode(code * 4, rs2, rs1, 2, rd, 0x2f);
    var low := 0x2f + 0x80 * rd + 0x1000 * 2 + 0x8000 * rs1 + 0x10_0000 * rs2;
    Cut(0x800_0000, low, code, Fields(code * 4, rs2, rs1, 2, rd, 0x2f));
  }

  lemma BranchDecodes(cmp: Cmp, rs1: reg, rs2: reg, off: int)
    requires Encodable(BRANCH(cmp, rs1, rs2, off))
    ensures Decodes(Fields(BranchHigh(off), rs2, rs1, CmpCode(cmp), BranchLow(off), 0x63), BRANCH(cmp, rs1, rs2, off))
  {
    FieldsDecode(BranchHigh(off), rs2, rs1, CmpCode(cmp), BranchLow(off), 0x63);
    BranchDecode(off, rs2, rs1, CmpCode(cmp));
  }

  lemma StoreDecodes(w: Width, rs1: reg, rs2: reg, imm: int)
    requires Encodable(STORE(w, rs1, rs2, imm))
    ensures Decodes(Fields(imm % 0x1000 / 32, rs2, rs1, WidthCode(w), imm % 32, 0x23), STORE(w, rs1, rs2, imm))
  {
    FieldsDecode(imm % 0x1000 / 32, rs2, rs1, WidthCode(w), imm % 32, 0x23);
    STypeDecode(imm, rs2, rs1, WidthCode(w));
  }

  lemma UpperDecodes(i: Instr)
    requires Encodable(i) && (i.LUI? || i.AUIPC? || i.JAL?)
    ensures Decodes(Encode(i), i)
  {
    match i
    case LUI(rd, upper) => UTypeDecode(upper, rd, 0x37);
    case AUIPC(rd, upper) => UTypeDecode(upper, rd, 0x17);
    case JAL(rd, off) =>
      UTypeDecode(JumpField(off), rd, 0x6f);
      JumpDecode(off, rd);
  }

  lemma OffsetDecodes(i: Instr)
    requires Encodable(i) && (i.JALR? || i.LOAD?)
    ensures Decodes(Encode(i), i)
  {
    ITypeDecode(i.imm % 0x1000, i.rs1, if i.JALR? then 0 else WidthCode(i.w), i.rd, if i.JALR? then 0x67 else 0x03);
    Extended(i.imm);
  }

  lemma ControlDecodes(i: Instr)
    requires Encodable(i) && (i.CSR? || i.CSRI?)
    ensures Decodes(Encode(i), i)
  {
    match i
    case CSR(op, rd, rs1, k) => ITypeDecode(CsrNumber(k), rs1, CsrCode(op), rd, 0x73);
    case CSRI(op, rd, uimm, k) => ITypeDecode(CsrNumber(k), uimm, CsrCode(op) + 4, rd, 0x73);
  }

  /** The words without operands, whose immediate is a number of its own. */
  lemma PlainDecodes(ir: word, imm: nat, z: reg, f3: nat, opcode: nat)
    requires imm < 0x1000 && f3 < 8 && opcode < 0x80 && ir == IType(imm, z, f3, z, opcode)
    ensures ir % 0x80 == opcode && Funct3(ir) == f3 && ir / 0x10_0000 == imm
  {
    ITypeDecode(imm, z, f3, z, opcode);
  }

  /** Decoding finds the operands of every instruction in its encoding. */
  lemma EncodeDecodes(i: Instr)
    requires Encodable(i)
    ensures Decodes(Encode(i), i)
  {
    match i
    case BRANCH(cmp, rs1, rs2, off) => BranchDecodes(cmp, rs1, rs2, off);
    case STORE(w, rs1, rs2, imm) => StoreDecodes(w, rs1, rs2, imm);
    case OPIMM(op, rd, rs1, imm) => ImmediateDecodes(op, rd, rs1, imm);
    case OP(op, rd, rs1, rs2) => RegisterDecodes(op, rd, rs1, rs2);
    case MULDIV(op, rd, rs1, rs2) => MultiplyDecodes(op, rd, rs1, rs2);
    case LR(rd, rs1) => AtomicDecodes(2, 0, rs1, rd);
    case SC(rd, rs1, rs2) => AtomicDecodes(3, rs2, rs1, rd);
    case AMO(op, rd, rs1, rs2) => AtomicDecodes(AmoCode(op), rs2, rs1, rd);
    case LUI(_, _) => UpperDecodes(i);
    case AUIPC(_, _) => UpperDecodes(i);
    case JAL(_, _) => UpperDecodes(i);
    case JALR(_, _, _) => OffsetDecodes(i);
    case LOAD(_, _, _, _) => OffsetDecodes(i);
    case CSR(_, _, _, _) => ControlDecodes(i);
    case CSRI(_, _, _, _) => ControlDecodes(i);
    case FENCE => PlainDecodes(Encode(i), 0xff, 0, 0, 0x0f);
    case ECALL => PlainDecodes(Encode(i), 0, 0, 0, 0x73);
    case EBREAK => PlainDecodes(Encode(i), 1, 0, 0, 0x73);
    case WFI => PlainDecodes(Encode(i), 0x105, 0, 0, 0x73);
  }
}
