/** The RV32IMA emulator step: registers, control registers and memory are values here;
    the module Emulator runs the same step in place. */
module Rv32 {
  import opened PowersOfTwo

  const M: int := 0x1_0000_0000

  type word = x: int | 0 <= x < 0x1_0000_0000
  type byte = x: int | 0 <= x < 0x100

  /** 32-bit wrap-around. */
  function W(x: int): word { x % M }

  function Plus(x: int, k: int): word { W(x + k) }

  function Signed(x: word): int {
    if x >= 0x8000_0000 then x - M else x
  }

  /** Bit by bit; the other operators follow by De Morgan's laws. */
  function And(a: nat, b: nat): (r: nat)
    ensures r <= a && r <= b
  {
    if a == 0 || b == 0 then 0
    else (if a % 2 == 1 && b % 2 == 1 then 1 else 0) + 2 * And(a / 2, b / 2)
  }

  function Not(a: word): word { M - 1 - a }

  function Or(a: word, b: word): word { Not(And(Not(a), Not(b))) }

  function Xor(a: word, b: word): word { Or(a, b) - And(a, b) }

  /** C division and remainder: toward zero. */
  function DivTrunc(a: int, b: int): int
    requires b != 0
  {
    if a >= 0 then a / b else -((-a) / b)
  }

  /** The control registers, by number. */
  type csrs = q: seq<word> | |q| == 16 witness seq(16, _ => 0)

  const PC: nat := 0
  const MSTATUS: nat := 1
  const CYCLEL: nat := 2
  const CYCLEH: nat := 3
  const TIMERL: nat := 4
  const TIMERH: nat := 5
  const MATCHL: nat := 6
  const MATCHH: nat := 7
  const MSCRATCH: nat := 8
  const MTVEC: nat := 9
  const MIE: nat := 10
  const MIP: nat := 11
  const MEPC: nat := 12
  const MTVAL: nat := 13
  const MCAUSE: nat := 14
  const FLAGS: nat := 15

  datatype Cpu = Cpu(regs: seq<word>, csr: csrs, mem: seq<byte>, offset: word)

  /** Memory is a positive multiple of four bytes long, and register zero holds zero. */
  predicate Valid(c: Cpu) {
    |c.regs| == 32 && c.regs[0] == 0 && 0 < |c.mem| < M && |c.mem| % 4 == 0
  }

  // ---------- instruction fields ----------

  function Rd(ir: word): nat { (ir / 0x80) % 32 }

  function Rs1(ir: word): nat { (ir / 0x8000) % 32 }

  function Rs2(ir: word): nat { (ir / 0x10_0000) % 32 }

  function Funct3(ir: word): nat { (ir / 0x1000) % 8 }

  function Bit(x: word, weight: nat): nat
    requires weight > 0
  {
    (x / weight) % 2
  }

  /** A 12-bit immediate, sign-extended to 32 bits. */
  function Extend12(imm: nat): word
    requires imm < 0x1000
  {
    if imm >= 0x800 then imm + 0xffff_f000 else imm
  }

  function ImmI(ir: word): word { Extend12(ir / 0x10_0000) }

  function ImmS(ir: word): word { Extend12((ir / 0x80) % 32 + ir / 0x200_0000 * 32) }

  function ImmU(ir: word): word { ir - ir % 0x1000 }

  function ImmJ(ir: word): word {
    var high, low := Bit(ir, 0x8000_0000) * 0x10_0000, (ir / 0x20_0000) % 0x400 * 2;
    var raw := high + low + Bit(ir, 0x10_0000) * 0x800 + (ir / 0x1000) % 0x100 * 0x1000;
    if raw >= 0x10_0000 then raw + 0xffe0_0000 else raw
  }

  function ImmB(ir: word): word {
    var raw := (ir / 0x100) % 16 * 2 + (ir / 0x200_0000) % 64 * 32 + Bit(ir, 0x80) * 0x800 + ir / 0x8000_0000 * 0x1000;
    if raw >= 0x1000 then raw + 0xffff_e000 else raw
  }

  // ---------- memory ----------

  /** Little-endian reads. */
  function Half(mem: seq<byte>, at: nat): (r: word)
    requires at + 2 <= |mem|
    ensures r < 0x1_0000
  {
    var b0: int, b1: int := mem[at], mem[at + 1];
    b0 + 0x100 * b1
  }

  function Quad(mem: seq<byte>, at: nat): word
    requires at + 4 <= |mem|
  {
    Half(mem, at) + 0x1_0000 * Half(mem, at + 2)
  }

  /** The low bytes of a word, least significant first. */
  function Bytes(x: word, len: nat): (bs: seq<byte>)
    requires len <= 4
    ensures |bs| == len
  {
    [x % 0x100, x / 0x100 % 0x100, x / 0x1_0000 % 0x100, x / 0x100_0000][..len]
  }

  /** What a step does, before any of it is written back. */
  datatype Effect =
    | Fault(trap: nat, value: word)                     // the trap number is cause + 1
    | Leave(csr: csrs, result: word)                    // WFI and power-off leave the step early
    | Retire(rd: nat, value: word, pc: word, csr: csrs, at: nat, bytes: seq<byte>)

  /** No register but rd, no jump, no store. */
  function Write(c: Cpu, rd: nat, value: word): Effect {
    Retire(rd, value, c.csr[PC], c.csr, 0, [])
  }

  const ILLEGAL: Effect := Fault(3, 0)

  /** A word-sized access at this offset stays inside memory. */
  predicate InMemory(c: Cpu, at: nat) {
    at < |c.mem| - 3
  }

  predicate Mmio(a: word) { 0x1000_0000 <= a < 0x1200_0000 }

  /** A load from the offset `at`. */
  function LoadFrom(c: Cpu, f3: nat, rd: nat, at: word): Effect
    requires Valid(c)
  {
    var a := W(at + c.offset);
    if !InMemory(c, at) then
      if !Mmio(a) then Fault(6, a)
      else Write(c, rd, if a == 0x1100_bffc then c.csr[TIMERH] else if a == 0x1100_bff8 then c.csr[TIMERL] else 0)
    else
      var w1: word, w2 := c.mem[at], Half(c.mem, at);
      match f3
      case 0 => Write(c, rd, if w1 >= 0x80 then w1 + 0xffff_ff00 else w1)
      case 1 => Write(c, rd, if w2 >= 0x8000 then w2 + 0xffff_0000 else w2)
      case 2 => Write(c, rd, Quad(c.mem, at))
      case 4 => Write(c, rd, w1)
      case 5 => Write(c, rd, w2)
      case _ => ILLEGAL
  }

  function Load(c: Cpu, ir: word): Effect
    requires Valid(c)
  {
    LoadFrom(c, Funct3(ir), Rd(ir), W(c.regs[Rs1(ir)] + ImmI(ir) - c.offset))
  }

  /** A store of `v` to the offset `at`. */
  function StoreTo(c: Cpu, f3: nat, at: word, v: word): Effect
    requires Valid(c)
  {
    var a := W(at + c.offset);
    if !InMemory(c, at) then
      if !Mmio(a) then Fault(8, a)
      else if a == 0x1100_4004 then Retire(0, 0, c.csr[PC], c.csr[MATCHH := v], 0, [])
      else if a == 0x1100_4000 then Retire(0, 0, c.csr[PC], c.csr[MATCHL := v], 0, [])
      else if a == 0x1110_0000 then Leave(c.csr[PC := Plus(c.csr[PC], 4)], v)
      else Retire(0, 0, c.csr[PC], c.csr, 0, [])
    else
      match f3
      case 0 => Retire(0, 0, c.csr[PC], c.csr, at, Bytes(v, 1))
      case 1 => Retire(0, 0, c.csr[PC], c.csr, at, Bytes(v, 2))
      case 2 => Retire(0, 0, c.csr[PC], c.csr, at, Bytes(v, 4))
      case _ => ILLEGAL
  }

  function Store(c: Cpu, ir: word): Effect
    requires Valid(c)
  {
    StoreTo(c, Funct3(ir), W(ImmS(ir) + c.regs[Rs1(ir)] - c.offset), c.regs[Rs2(ir)])
  }

  function Multiply(op: nat, a: word, b: word): word {
    match op
    case 0 => W(a * b)
    case 1 => W(Signed(a) * Signed(b) / M)
    case 2 => W(Signed(a) * b / M)
    case 3 => W(a * b / M)
    case 4 =>
      if b == 0 then M - 1
      else if a == 0x8000_0000 && b == M - 1 then a
      else W(DivTrunc(Signed(a), Signed(b)))
    case 5 => if b == 0 then M - 1 else W(a / b)
    case 6 =>
      if b == 0 then a
      else if a == 0x8000_0000 && b == M - 1 then 0
      else W(Signed(a) - Signed(b) * DivTrunc(Signed(a), Signed(b)))
    case _ => if b == 0 then a else W(a % b)
  }

  function Alu(op: nat, a: word, b: word, subtract: bool, arithmetic: bool): word {
    match op
    case 0 => if subtract then W(a - b) else W(a + b)
    case 1 => W(a * Pow2(b % 32))
    case 2 => if Signed(a) < Signed(b) then 1 else 0
    case 3 => if a < b then 1 else 0
    case 4 => Xor(a, b)
    case 5 => if arithmetic then W(Signed(a) / Pow2(b % 32)) else W(a / Pow2(b % 32))
    case 6 => Or(a, b)
    case _ => And(a, b)
  }

  function Compute(c: Cpu, ir: word): Effect
    requires Valid(c)
  {
    var reg := Bit(ir, 0x20) == 1;
    var a, b := c.regs[Rs1(ir)], if reg then c.regs[Rs2(ir)] else ImmI(ir);
    if reg && Bit(ir, 0x200_0000) == 1 then Write(c, Rd(ir), Multiply(Funct3(ir), a, b))
    else Write(c, Rd(ir), Alu(Funct3(ir), a, b, reg && Bit(ir, 0x4000_0000) == 1, Bit(ir, 0x4000_0000) == 1))
  }

  function BranchOn(c: Cpu, f3: nat, a: word, b: word, off: word): Effect {
    var taken, not := Retire(0, 0, W(c.csr[PC] + off - 4), c.csr, 0, []), Retire(0, 0, c.csr[PC], c.csr, 0, []);
    match f3
    case 0 => if a == b then taken else not
    case 1 => if a != b then taken else not
    case 4 => if Signed(a) < Signed(b) then taken else not
    case 5 => if Signed(a) >= Signed(b) then taken else not
    case 6 => if a < b then taken else not
    case 7 => if a >= b then taken else not
    case _ => ILLEGAL
  }

  function Branch(c: Cpu, ir: word): Effect
    requires Valid(c)
  {
    BranchOn(c, Funct3(ir), c.regs[Rs1(ir)], c.regs[Rs2(ir)], ImmB(ir))
  }

  /** The control registers an instruction can write; 16 for none. */
  function CsrIndex(no: nat): (i: nat)
    ensures i <= 16
  {
    match no
    case 0x340 => MSCRATCH
    case 0x305 => MTVEC
    case 0x304 => MIE
    case 0x344 => MIP
    case 0x341 => MEPC
    case 0x300 => MSTATUS
    case 0x342 => MCAUSE
    case 0x343 => MTVAL
    case _ => 16
  }

  function ReadCsr(csr: csrs, no: nat, cycle: word): word {
    if CsrIndex(no) < 16 then csr[CsrIndex(no)]
    else if no == 0xC00 then cycle
    else if no == 0xf11 then 0xff0f_f0ff
    else if no == 0x301 then 0x4040_1101
    else 0
  }

  function WriteCsr(csr: csrs, no: nat, v: word): csrs {
    if CsrIndex(no) < 16 then csr[CsrIndex(no) := v] else csr
  }

  /** Write, set or clear. */
  function Modify(op: nat, was: word, x: word): word {
    if op == 1 then x else if op == 2 then Or(was, x) else And(was, Not(x))
  }

  /** What MRET does to the interrupt and privilege state. */
  function ReturnFromTrap(csr: csrs): csrs {
    csr[MSTATUS := Bit(csr[MSTATUS], 0x80) * 8 + csr[FLAGS] % 4 * 0x800 + 0x80]
       [FLAGS := csr[FLAGS] - csr[FLAGS] % 4 + (csr[MSTATUS] / 0x800) % 4]
  }

  /** Read control register `no` into `rd` and modify it with `x`. */
  function ControlOn(c: Cpu, op: nat, no: nat, rd: nat, x: word, cycle: word): Effect {
    var was := ReadCsr(c.csr, no, cycle);
    Retire(rd, was, c.csr[PC], WriteCsr(c.csr, no, Modify(op, was, x)), 0, [])
  }

  function Privileged(c: Cpu, no: nat): Effect {
    var csr := c.csr;
    if no == 0x105 then
      Leave(csr[MSTATUS := Or(csr[MSTATUS], 8)][FLAGS := Or(csr[FLAGS], 4)][PC := Plus(csr[PC], 4)], 1)
    else if no % 0x100 == 2 then Retire(0, 0, Plus(csr[MEPC], -4), ReturnFromTrap(csr), 0, [])
    else if no == 0 then Fault(if csr[FLAGS] % 4 != 0 then 12 else 9, 0)
    else if no == 1 then Fault(4, 0)
    else ILLEGAL
  }

  function System(c: Cpu, ir: word, cycle: word): Effect
    requires Valid(c)
  {
    var no, op := ir / 0x10_0000, Funct3(ir);
    if op % 4 != 0 then
      ControlOn(c, op % 4, no, Rd(ir), if op >= 4 then Rs1(ir) else c.regs[Rs1(ir)], cycle)
    else if op != 0 then ILLEGAL
    else Privileged(c, no)
  }

  function Amo(op: nat, was: word, v: word): word {
    match op
    case 0 => W(v + was)
    case 4 => Xor(v, was)
    case 12 => And(v, was)
    case 8 => Or(v, was)
    case 16 => if Signed(v) < Signed(was) then v else was
    case 20 => if Signed(v) > Signed(was) then v else was
    case 24 => if v < was then v else was
    case 28 => if v > was then v else was
    case _ => v
  }

  /** An atomic operation on the word at the offset `at`. */
  function AtomicOn(c: Cpu, op: nat, rd: nat, at: word, v: word): Effect
    requires Valid(c)
  {
    if !InMemory(c, at) then Fault(8, W(at + c.offset))
    else
      var loaded := Quad(c.mem, at);
      if op == 2 then Write(c.(csr := c.csr[FLAGS := c.csr[FLAGS] % 8 + W(at * 8)]), rd, loaded)
      else if op == 3 then
        if c.csr[FLAGS] / 8 == at % 0x2000_0000 then Retire(rd, 0, c.csr[PC], c.csr, at, Bytes(v, 4))
        else Write(c, rd, 1)
      else if op in {0, 1, 4, 8, 12, 16, 20, 24, 28} then
        Retire(rd, loaded, c.csr[PC], c.csr, at, Bytes(Amo(op, loaded, v), 4))
      else ILLEGAL
  }

  function Atomic(c: Cpu, ir: word): Effect
    requires Valid(c)
  {
    AtomicOn(c, ir / 0x800_0000, Rd(ir), W(c.regs[Rs1(ir)] - c.offset), c.regs[Rs2(ir)])
  }

  /** Decode and execute one instruction word; `c.csr[PC]` is its address. */
  function Execute(c: Cpu, ir: word, cycle: word): Effect
    requires Valid(c)
  {
    var pc := c.csr[PC];
    match ir % 0x80
    case 0x37 => Write(c, Rd(ir), ImmU(ir))
    case 0x17 => Write(c, Rd(ir), W(pc + ImmU(ir)))
    case 0x6F => Retire(Rd(ir), W(pc + 4), W(pc + ImmJ(ir) - 4), c.csr, 0, [])
    case 0x67 =>
      var t := W(c.regs[Rs1(ir)] + ImmI(ir));
      Retire(Rd(ir), W(pc + 4), W(t - t % 2 - 4), c.csr, 0, [])
    case 0x63 => Branch(c, ir)
    case 0x03 => Load(c, ir)
    case 0x23 => Store(c, ir)
    case 0x13 => Compute(c, ir)
    case 0x33 => Compute(c, ir)
    case 0x0f => Retire(0, 0, pc, c.csr, 0, [])
    case 0x73 => System(c, ir, cycle)
    case 0x2f => Atomic(c, ir)
    case _ => ILLEGAL
  }

  // ---------- the step ----------

  /** The clock advances and the timer interrupt becomes pending, or not. */
  function Tick(csr: csrs, elapsed: word): csrs {
    var l := W(csr[TIMERL] + elapsed);
    var h := if l < csr[TIMERL] then Plus(csr[TIMERH], 1) else csr[TIMERH];
    var t := csr[TIMERL := l][TIMERH := h];
    if (t[MATCHH] != 0 || t[MATCHL] != 0) && h * M + l > t[MATCHH] * M + t[MATCHL] then
      t[FLAGS := t[FLAGS] - Bit(t[FLAGS], 4) * 4][MIP := Or(t[MIP], 0x80)]
    else t[MIP := And(t[MIP], Not(0x80))]
  }

  predicate Interrupted(csr: csrs) {
    Bit(csr[MIP], 0x80) == 1 && Bit(csr[MIE], 0x80) == 1 && Bit(csr[MSTATUS], 8) == 1
  }

  /** Enter the trap handler: cause, value, return address; interrupts off, machine mode on. */
  function EnterTrap(csr: csrs, cause: word, value: word, mepc: word): csrs {
    csr[MCAUSE := cause][MTVAL := value][MEPC := mepc][PC := csr[MTVEC]]
       [MSTATUS := Bit(csr[MSTATUS], 8) * 0x80 + csr[FLAGS] % 4 * 0x800]
       [FLAGS := csr[FLAGS] - csr[FLAGS] % 4 + 3]
  }

  function Cycles(csr: csrs, cycle: word): csrs {
    csr[CYCLEL := cycle][CYCLEH := if csr[CYCLEL] > cycle then Plus(csr[CYCLEH], 1) else csr[CYCLEH]]
  }

  datatype Kind = Asleep | Left | Trapped | Retired

  datatype Outcome = Outcome(cpu: Cpu, result: word, kind: Kind)

  function Poke(mem: seq<byte>, at: nat, bs: seq<byte>): (r: seq<byte>)
    requires at + |bs| <= |mem|
    ensures |r| == |mem|
  {
    mem[..at] + bs + mem[at + |bs|..]
  }

  /** The instruction at the program counter, or the reason there is none. */
  function Fetch(c: Cpu, cycle: word): Effect
    requires Valid(c)
  {
    var at := W(c.csr[PC] - c.offset);
    if at >= |c.mem| then Fault(2, 0)
    else if at % 4 != 0 then Fault(1, 0)
    else Execute(c, Quad(c.mem, at), cycle)
  }

  /** A store an effect asks for lies in memory. */
  predicate InBounds(c: Cpu, e: Effect) {
    e.Retire? ==> e.rd < 32 && |e.bytes| <= 4 && e.at + |e.bytes| <= |c.mem|
  }

  /** No instruction word, at no program counter, asks for a store outside memory. */
  lemma FetchInBounds(c: Cpu, cycle: word)
    requires Valid(c)
    ensures InBounds(c, Fetch(c, cycle))
  {
  }

  /** Write back what the instruction did, or enter the trap handler. */
  function Finish(c: Cpu, cycle: word, e: Effect): Outcome
    requires Valid(c) && InBounds(c, e)
  {
    match e
    case Fault(trap, value) =>
      var cause, tval := W(trap - 1), if 5 < trap <= 8 then value else c.csr[PC];
      Outcome(c.(csr := Cycles(EnterTrap(c.csr, cause, tval, c.csr[PC]), cycle)), 0, Trapped)
    case Leave(after, result) => Outcome(c.(csr := after), result, Left)
    case Retire(rd, value, pc, after, at, bytes) =>
      Outcome(c.(regs := if rd == 0 then c.regs else c.regs[rd := value],
                 csr := Cycles(after[PC := W(pc + 4)], cycle), mem := Poke(c.mem, at, bytes)), 0, Retired)
  }

  /** The state an instruction sees: the clock has advanced. */
  function Ticked(c: Cpu, elapsed: word): Cpu {
    c.(csr := Tick(c.csr, elapsed))
  }

  /** Does the step get as far as its instruction? */
  predicate Runs(d: Cpu) {
    Bit(d.csr[FLAGS], 4) == 0 && !Interrupted(d.csr)
  }

  /** A step that does not: asleep, or interrupted. */
  function Skip(d: Cpu): Outcome {
    if Bit(d.csr[FLAGS], 4) == 1 then Outcome(d, 1, Asleep)
    else Outcome(d.(csr := Cycles(EnterTrap(d.csr, 0x8000_0007, 0, d.csr[PC]), d.csr[CYCLEL])), 0, Trapped)
  }

  function Step(c: Cpu, elapsed: word): Outcome
    requires Valid(c)
  {
    var d := Ticked(c, elapsed);
    var cycle := Plus(d.csr[CYCLEL], 1);
    if !Runs(d) then Skip(d) else FetchInBounds(d, cycle); Finish(d, cycle, Fetch(d, cycle))
  }
}
