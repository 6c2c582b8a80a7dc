/** The step of the emulator in the words of the instruction set: the clock, interrupts, and what every
    instruction does to registers, memory and control registers. */
module Rv32Theorem {
  import opened PowersOfTwo
  import opened Rv32
  import opened Rv32Precise
  import opened Rv32Bits
  import opened Rv32Encoding
  import opened Rv32Meaning
  import opened Rv32Steps

  // ---------- writing back ----------

  ghost predicate RetiredAs(d: Cpu, o: Outcome, e: Effect)
    requires Valid(d) && e.Retire?
  {
    && o.kind.Retired? && o.result == 0 && |o.cpu.regs| == 32 && |o.cpu.mem| == |d.mem|
    && (forall r :: 0 <= r < 32 ==> o.cpu.regs[r] == if r == e.rd && r != 0 then e.value else d.regs[r])
    && (forall k :: 0 <= k < |d.mem| ==>
          o.cpu.mem[k] == if e.at <= k < e.at + |e.bytes| then e.bytes[k - e.at] else d.mem[k])
    && Next(e, o.cpu.csr[PC])
    && forall k :: 0 <= k < 16 && k !in {PC, CYCLEL, CYCLEH} ==> o.cpu.csr[k] == e.csr[k]
  }

  ghost predicate TrappedAs(d: Cpu, o: Outcome, cause: int, value: word) {
    && o.kind.Trapped? && o.result == 0 && o.cpu.regs == d.regs && o.cpu.mem == d.mem
    && o.cpu.csr[MCAUSE] == cause && o.cpu.csr[MTVAL] == value
    && o.cpu.csr[MEPC] == d.csr[PC] && o.cpu.csr[PC] == d.csr[MTVEC]
  }

  /** What was asked for is done: x0 is never written, an access fault records its address and any other
      trap that of its instruction. */
  ghost predicate Done(d: Cpu, o: Outcome, e: Effect)
    requires Valid(d)
  {
    && o.cpu.offset == d.offset
    && match e
       case Retire(_, _, _, _, _, _) => RetiredAs(d, o, e)
       case Fault(trap, value) => TrappedAs(d, o, trap - 1, if trap in {6, 7, 8} then value else d.csr[PC])
       case Leave(csr, result) => o == Outcome(d.(csr := csr), result, Left)
  }

  lemma FinishDone(d: Cpu, cycle: word, e: Effect)
    requires Valid(d) && InBounds(d, e) && (e.Fault? ==> 1 <= e.trap <= 12)
    ensures Done(d, Finish(d, cycle, e), e)
  {
    if e.Retire? {
      WCongruent(e.pc + 4);
    }
  }

  /** Asking never asks for an unknown trap. */
  lemma KnownTrap(d: Cpu, e: Effect, i: Instr)
    requires Valid(d) && Encodable(i) && Asks(d, e, i)
    ensures e.Fault? ==> 1 <= e.trap <= 12
  {
  }

  // ---------- the theorem ----------

  /** The step, with this much time elapsed, gets as far as its instruction, and that is the word `ir`. */
  predicate Executes(c: Cpu, elapsed: word, ir: word) {
    && Valid(c) && Runs(Ticked(c, elapsed))
    && var pc: int, o: int := c.csr[PC], c.offset;
    var at := (pc - o) % 0x1_0000_0000;
    at < |c.mem| && at % 4 == 0 && Quad(c.mem, at) == ir
  }

  ghost predicate StepDoes(c: Cpu, elapsed: word, i: Instr)
    requires Valid(c) && Encodable(i)
  {
    var d := Ticked(c, elapsed);
    exists e :: Asks(d, e, i) && Done(d, Step(c, elapsed), e)
  }

  lemma StepIs(c: Cpu, elapsed: word, ir: word)
    requires Executes(c, elapsed, ir)
    ensures var d := Ticked(c, elapsed);
      var cycle := Plus(d.csr[CYCLEL], 1);
      InBounds(d, Execute(d, ir, cycle)) && Step(c, elapsed) == Finish(d, cycle, Execute(d, ir, cycle))
  {
    var d := Ticked(c, elapsed);
    TickKeeps(c.csr, elapsed);
    FetchInBounds(d, Plus(d.csr[CYCLEL], 1));
  }

  lemma DecodedDoes(c: Cpu, elapsed: word, ir: word, i: Instr)
    requires Executes(c, elapsed, ir) && Encodable(i) && Decodes(ir, i)
    ensures StepDoes(c, elapsed, i)
  {
    var d := Ticked(c, elapsed);
    var cycle := Plus(d.csr[CYCLEL], 1);
    StepIs(c, elapsed, ir);
    DecodedAsks(d, ir, i, cycle);
    var e := Execute(d, ir, cycle);
    KnownTrap(d, e, i);
    FinishDone(d, cycle, e);
  }

  /** On the encoding of any instruction, in any state, a step that executes it does what the instruction
      means. */
  lemma StepMeans(c: Cpu, elapsed: word, i: Instr)
    requires Encodable(i) && Executes(c, elapsed, Encode(i))
    ensures StepDoes(c, elapsed, i)
  {
    EncodeDecodes(i);
    DecodedDoes(c, elapsed, Encode(i), i);
  }

  lemma FetchFaults(d: Cpu, cycle: word, at: nat)
    requires Valid(d) && at == W(d.csr[PC] - d.offset) && (at >= |d.mem| || at % 4 != 0)
    ensures Fetch(d, cycle) == Fault(if at >= |d.mem| then 2 else 1, 0)
  {
  }

  /** A program counter outside memory or off a word boundary traps. */
  lemma StepFaults(c: Cpu, elapsed: word, at: nat)
    requires Valid(c) && Runs(Ticked(c, elapsed))
    requires at == W(c.csr[PC] - c.offset) && (at >= |c.mem| || at % 4 != 0)
    ensures TrappedAs(Ticked(c, elapsed), Step(c, elapsed), if at >= |c.mem| then 1 else 0, c.csr[PC])
  {
    var d := Ticked(c, elapsed);
    TickKeeps(c.csr, elapsed);
    FetchFaults(d, Plus(d.csr[CYCLEL], 1), at);
  }

  lemma UnknownOpcode(c: Cpu, elapsed: word, ir: word)
    requires Executes(c, elapsed, ir)
    requires ir % 0x80 !in {0x37, 0x17, 0x6f, 0x67, 0x63, 0x03, 0x23, 0x13, 0x33, 0x0f, 0x73, 0x2f}
    ensures TrappedAs(Ticked(c, elapsed), Step(c, elapsed), 2, c.csr[PC])
  {
    var d := Ticked(c, elapsed);
    TickKeeps(c.csr, elapsed);
    StepIs(c, elapsed, ir);
    Illegal(d, ir, Plus(d.csr[CYCLEL], 1));
  }

  lemma Illegal(d: Cpu, ir: word, cycle: word)
    requires Valid(d) && ir % 0x80 !in {0x37, 0x17, 0x6f, 0x67, 0x63, 0x03, 0x23, 0x13, 0x33, 0x0f, 0x73, 0x2f}
    ensures Execute(d, ir, cycle) == Fault(3, 0)
  {
  }

  // ---------- the clock ----------

  const LONG: int := 0x1_0000_0000_0000_0000

  function Double(high: word, low: word): int { 0x1_0000_0000 * high + low }

  predicate Due(csr: csrs, now: int) {
    var target := Double(csr[MATCHH], csr[MATCHL]);
    target != 0 && now > target
  }

  lemma Advance(high: word, low: word, time: word)
    ensures var l := W(low + time);
      var h := if l < low then Plus(high, 1) else high;
      Double(h, l) == (Double(high, low) + time) % LONG
  {
    var sum: int := low + time;
    var carry := if sum < M then 0 else 1;
    var total := Double(high, low) + time;
    assert total == M * (high + carry) + (sum - M * carry);
    if high + carry < M {
      DivUnique(LONG, 0, total);
    } else {
      DivUnique(LONG, 1, sum - M * carry);
    }
  }

  lemma OneBit(k: nat)
    requires k < 32
    ensures BitOn(0x80, k) == (k == 7)
  {
    assert Pow2(7) == 128;
    if k < 7 {
      Pow2Add(k, 7 - k);
      DivUnique(Pow2(k), Pow2(7 - k), 0);
      assert Pow2(7 - k) == 2 * Pow2(6 - k);
    } else if k > 7 {
      Pow2Monotone(8, k);
      assert Pow2(8) == 256;
      DivUnique(Pow2(k), 0, 0x80);
    }
  }

  /** The timer advances by the elapsed time. */
  lemma TimeAdvances(csr: csrs, elapsed: word)
    ensures var t := Tick(csr, elapsed);
      && Double(t[TIMERH], t[TIMERL]) == (Double(csr[TIMERH], csr[TIMERL]) + elapsed) % LONG
      && (forall j :: 0 <= j < 16 && j !in {TIMERL, TIMERH, MIP, FLAGS} ==> t[j] == csr[j])
  {
    Advance(csr[TIMERH], csr[TIMERL], elapsed);
  }

  lemma TickCases(csr: csrs, elapsed: word)
    ensures var t := Tick(csr, elapsed);
      if Due(csr, Double(t[TIMERH], t[TIMERL])) then
        t[MIP] == Or(csr[MIP], 0x80) && t[FLAGS] == csr[FLAGS] - Bit(csr[FLAGS], 4) * 4
      else t[MIP] == And(csr[MIP], Not(0x80)) && t[FLAGS] == csr[FLAGS]
  {
  }

  /** Its interrupt is pending exactly when it has passed a match value that is set, which also ends a
      sleep; no other pending bit and no other flag changes. */
  lemma TimerPends(csr: csrs, elapsed: word, t: csrs, due: bool)
    requires t == Tick(csr, elapsed) && due == Due(csr, Double(t[TIMERH], t[TIMERL]))
    ensures forall k: nat :: k < 32 ==> BitOn(t[MIP], k) == if k == 7 then due else BitOn(csr[MIP], k)
    ensures t[FLAGS] + (if due && BitOn(csr[FLAGS], 2) then 4 else 0) == csr[FLAGS]
  {
    TickCases(csr, elapsed);
    PendingBits(csr[MIP]);
    SleepBit(csr[FLAGS]);
  }

  lemma PendingBits(mip: word)
    ensures BitOn(Or(mip, 0x80), 7) && !BitOn(And(mip, Not(0x80)), 7)
    ensures forall k: nat :: k < 32 && k != 7 ==> BitOn(Or(mip, 0x80), k) == BitOn(mip, k)
    ensures forall k: nat :: k < 32 && k != 7 ==> BitOn(And(mip, Not(0x80)), k) == BitOn(mip, k)
  {
    BitsAll(mip, 0x80);
    BitsAll(mip, Not(0x80));
    BitsAll(0x80, 0x80);
    forall k: nat | k < 32 ensures BitOn(0x80, k) == (k == 7) {
      OneBit(k);
    }
  }

  lemma SleepBit(flags: word)
    ensures Bit(flags, 4) == (if BitOn(flags, 2) then 1 else 0)
  {
    assert Pow2(2) == 4;
  }

  /** Asleep, interrupted by the timer, or executing. */
  lemma StepKinds(c: Cpu, elapsed: word)
    requires Valid(c)
    ensures var d, o := Ticked(c, elapsed), Step(c, elapsed);
      if BitOn(d.csr[FLAGS], 2) then o == Outcome(d, 1, Asleep)
      else if BitOn(d.csr[MIP], 7) && BitOn(d.csr[MIE], 7) && BitOn(d.csr[MSTATUS], 3) then
        TrappedAs(d, o, 0x8000_0007, 0)
      else Runs(d)
  {
    assert Pow2(2) == 4 && Pow2(3) == 8 && Pow2(7) == 128;
  }

  lemma CountsOn(csr: csrs, high: word, low: word)
    requires csr[CYCLEL] == low && csr[CYCLEH] == high
    ensures var t := Cycles(csr, Plus(low, 1)); Double(t[CYCLEH], t[CYCLEL]) == (Double(high, low) + 1) % LONG
  {
    Advance(high, low, 1);
  }

  lemma CountsEffect(d: Cpu, e: Effect, ir: word, cycle: word)
    requires Valid(d) && e == Execute(d, ir, cycle) && InBounds(d, e) && cycle == Plus(d.csr[CYCLEL], 1)
    ensures var o, was := Finish(d, cycle, e), Double(d.csr[CYCLEH], d.csr[CYCLEL]);
      Double(o.cpu.csr[CYCLEH], o.cpu.csr[CYCLEL]) == if o.kind.Left? then was else (was + 1) % LONG
  {
    KeepsCounter(d, ir, cycle);
    match e
    case Retire(_, _, pc, csr, _, _) => CountsOn(csr[PC := W(pc + 4)], d.csr[CYCLEH], d.csr[CYCLEL]);
    case Leave(_, _) =>
    case Fault(trap, value) =>
      var tval := if 5 < trap <= 8 then value else d.csr[PC];
      CountsOn(EnterTrap(d.csr, W(trap - 1), tval, d.csr[PC]), d.csr[CYCLEH], d.csr[CYCLEL]);
  }

  lemma KeepsCounter(d: Cpu, ir: word, cycle: word)
    requires Valid(d)
    ensures var e := Execute(d, ir, cycle);
      !e.Fault? ==> e.csr[CYCLEL] == d.csr[CYCLEL] && e.csr[CYCLEH] == d.csr[CYCLEH]
  {
  }

  /** The cycle counter counts the instructions that retire or trap. */
  lemma StepCounts(c: Cpu, elapsed: word, ir: word)
    requires Executes(c, elapsed, ir)
    ensures var o, was := Step(c, elapsed), Double(c.csr[CYCLEH], c.csr[CYCLEL]);
      Double(o.cpu.csr[CYCLEH], o.cpu.csr[CYCLEL]) == if o.kind.Left? then was else (was + 1) % LONG
  {
    var d := Ticked(c, elapsed);
    var cycle := Plus(d.csr[CYCLEL], 1);
    StepIs(c, elapsed, ir);
    TimeAdvances(c.csr, elapsed);
    CountsEffect(d, Execute(d, ir, cycle), ir, cycle);
  }
}
