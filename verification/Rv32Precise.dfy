/** What one emulator step may change, and what traps and returns from traps restore. */
module Rv32Precise {
  import opened Rv32

  /** At most one register differs, and it is not x0. */
  ghost predicate OneRegister(a: seq<word>, b: seq<word>) {
    && |a| == |b|
    && exists rd: nat :: 0 < rd < 32 && SameBut(a, b, rd)
  }

  predicate SameBut(a: seq<word>, b: seq<word>, rd: nat)
    requires |a| == |b|
  {
    forall r :: 0 <= r < |a| && r != rd ==> a[r] == b[r]
  }

  /** Memories differ in at most four consecutive bytes. */
  ghost predicate FourBytes(a: seq<byte>, b: seq<byte>) {
    && |a| == |b|
    && exists at: nat :: at <= |a| && OnlyAt(a, b, at)
  }

  predicate OnlyAt(a: seq<byte>, b: seq<byte>, at: nat)
    requires |a| == |b|
  {
    forall k :: 0 <= k < |a| && !(at <= k < at + 4) ==> a[k] == b[k]
  }

  lemma PokeOnlyAt(mem: seq<byte>, at: nat, bs: seq<byte>)
    requires at + |bs| <= |mem| && |bs| <= 4
    ensures OnlyAt(mem, Poke(mem, at, bs), at)
  {
  }

  /** What an outcome may have changed. */
  ghost predicate Contained(c: Cpu, o: Outcome) {
    && o.cpu.offset == c.offset && |o.cpu.mem| == |c.mem| && Valid(o.cpu)
    && (!o.kind.Retired? ==> o.cpu.regs == c.regs && o.cpu.mem == c.mem)
    && OneRegister(c.regs, o.cpu.regs) && FourBytes(c.mem, o.cpu.mem)
  }

  lemma FinishContained(c: Cpu, cycle: word, e: Effect)
    requires Valid(c) && InBounds(c, e)
    ensures Contained(c, Finish(c, cycle, e))
  {
    var o := Finish(c, cycle, e);
    var rd, at := 1, 0;
    if e.Retire? {
      rd := if e.rd == 0 then 1 else e.rd;
      at := e.at;
      PokeOnlyAt(c.mem, at, e.bytes);
    }
    assert SameBut(c.regs, o.cpu.regs, rd) && OnlyAt(c.mem, o.cpu.mem, at);
  }

  /** For every state and every instruction word: a step that traps, sleeps or leaves early changes no
      register and no memory; any other step changes at most one register, never x0, and at most four
      consecutive bytes. Every step keeps the state valid. */
  lemma Precise(c: Cpu, elapsed: word)
    requires Valid(c)
    ensures Contained(c, Step(c, elapsed))
  {
    var d := Ticked(c, elapsed);
    var cycle := Plus(d.csr[CYCLEL], 1);
    SkipContained(c, d);
    if Runs(d) {
      FetchInBounds(d, cycle);
      FinishContained(d, cycle, Fetch(d, cycle));
      SameSides(c, d, Finish(d, cycle, Fetch(d, cycle)));
    }
  }

  lemma SkipContained(c: Cpu, d: Cpu)
    requires Valid(c) && d == c.(csr := d.csr)
    ensures Contained(c, Skip(d))
  {
    assert SameBut(c.regs, c.regs, 1) && OnlyAt(c.mem, c.mem, 0);
  }

  lemma SameSides(c: Cpu, d: Cpu, o: Outcome)
    requires d == c.(csr := d.csr) && Contained(d, o)
    ensures Contained(c, o)
  {
  }

  /** A trap is precise: the handler starts with the trapped instruction's address in mepc, machine
      mode on, interrupts off, and the old mode and interrupt bit saved. */
  lemma TrapSaves(c: Cpu, elapsed: word)
    requires Valid(c) && Step(c, elapsed).kind.Trapped?
    ensures var a, b := c.csr, Step(c, elapsed).cpu.csr;
            && b[PC] == a[MTVEC] == b[MTVEC] && b[MEPC] == a[PC] && b[FLAGS] % 4 == 3 && Bit(b[FLAGS], 4) == 0
            && Bit(b[MSTATUS], 8) == 0 && Bit(b[MSTATUS], 0x80) == Bit(a[MSTATUS], 8)
            && (b[MSTATUS] / 0x800) % 4 == a[FLAGS] % 4
  {
    var t := Tick(c.csr, elapsed);
    TickKeeps(c.csr, elapsed);
    var b := Step(c, elapsed).cpu.csr;
    assert b[MSTATUS] == Bit(t[MSTATUS], 8) * 0x80 + t[FLAGS] % 4 * 0x800;
    SavedBits(Bit(t[MSTATUS], 8), t[FLAGS] % 4);
    MachineMode(t[FLAGS]);
  }

  lemma TickKeeps(csr: csrs, elapsed: word)
    ensures var t := Tick(csr, elapsed);
            && t[PC] == csr[PC] && t[MTVEC] == csr[MTVEC] && t[MEPC] == csr[MEPC] && t[MSTATUS] == csr[MSTATUS]
            && t[FLAGS] % 4 == csr[FLAGS] % 4 && (Bit(csr[FLAGS], 4) == 0 ==> t[FLAGS] == csr[FLAGS])
  {
    AwakeFlags(csr[FLAGS]);
  }

  lemma AwakeFlags(flags: word)
    ensures (flags - Bit(flags, 4) * 4) % 4 == flags % 4
  {
  }

  lemma SavedBits(mie: nat, mode: nat)
    requires mie < 2 && mode < 4
    ensures var s := mie * 0x80 + mode * 0x800;
            Bit(s, 8) == 0 && Bit(s, 0x80) == mie && (s / 0x800) % 4 == mode
  {
  }

  lemma MachineMode(flags: word)
    ensures var f := flags - flags % 4 + 3; f < M && f % 4 == 3 && Bit(f, 4) == Bit(flags, 4)
  {
  }

  lemma RestoredBits(mie: nat, flags: word, mode: nat)
    requires mie < 2 && mode < 4
    ensures Bit(mie * 8 + flags % 4 * 0x800 + 0x80, 8) == mie
    ensures var f := flags - flags % 4 + mode; f < M && f % 4 == mode && Bit(f, 4) == Bit(flags, 4)
  {
  }

  const MRET: word := 0x3020_0073

  /** Trap then MRET: the interrupted program goes on at the same address, in the same mode, with
      the same interrupt bit, the same registers and the same memory. */
  lemma TrapThenReturn(c: Cpu, e1: word, o: Outcome, e2: word)
    requires Valid(c) && o == Step(c, e1) && o.kind.Trapped?
    requires var at := W(c.csr[MTVEC] - c.offset); at < |c.mem| && at % 4 == 0 && Quad(c.mem, at) == MRET
    ensures Valid(o.cpu)
    ensures var d := Step(o.cpu, e2).cpu;
            && d.csr[PC] == c.csr[PC] && d.csr[FLAGS] % 4 == c.csr[FLAGS] % 4
            && Bit(d.csr[MSTATUS], 8) == Bit(c.csr[MSTATUS], 8) && d.regs == c.regs && d.mem == c.mem
  {
    Precise(c, e1);
    TrapSaves(c, e1);
    MretStep(o.cpu, e2);
  }

  /** Executing MRET in a handler with interrupts off. */
  lemma MretStep(b: Cpu, elapsed: word)
    requires Valid(b) && Bit(b.csr[FLAGS], 4) == 0 && Bit(b.csr[MSTATUS], 8) == 0
    requires var at := W(b.csr[PC] - b.offset); at < |b.mem| && at % 4 == 0 && Quad(b.mem, at) == MRET
    ensures var d := Step(b, elapsed).cpu;
            && d.csr[PC] == b.csr[MEPC] && d.csr[FLAGS] % 4 == (b.csr[MSTATUS] / 0x800) % 4
            && Bit(d.csr[MSTATUS], 8) == Bit(b.csr[MSTATUS], 0x80) && d.regs == b.regs && d.mem == b.mem
  {
    var d := Ticked(b, elapsed);
    HandlerRuns(b, elapsed);
    MretFinish(d, Plus(d.csr[CYCLEL], 1));
    MretRuns(b, d, elapsed);
  }

  /** With interrupts off a handler that is awake runs its instruction. */
  lemma HandlerRuns(b: Cpu, elapsed: word)
    requires Bit(b.csr[FLAGS], 4) == 0 && Bit(b.csr[MSTATUS], 8) == 0
    ensures var d := Ticked(b, elapsed);
            && Runs(d) && d.csr[PC] == b.csr[PC] && d.csr[MEPC] == b.csr[MEPC]
            && d.csr[MSTATUS] == b.csr[MSTATUS] && d.csr[FLAGS] == b.csr[FLAGS]
  {
    TickKeeps(b.csr, elapsed);
  }

  lemma MretRuns(b: Cpu, d: Cpu, elapsed: word)
    requires Valid(b) && d == Ticked(b, elapsed) && Runs(d)
    requires var at := W(d.csr[PC] - d.offset); at < |d.mem| && at % 4 == 0 && Quad(d.mem, at) == MRET
    ensures var e := Retire(0, 0, Plus(d.csr[MEPC], -4), ReturnFromTrap(d.csr), 0, []);
            InBounds(d, e) && Step(b, elapsed) == Finish(d, Plus(d.csr[CYCLEL], 1), e)
  {
    MretFetched(d, Plus(d.csr[CYCLEL], 1));
  }

  lemma MretFetched(d: Cpu, cycle: word)
    requires Valid(d)
    requires var at := W(d.csr[PC] - d.offset); at < |d.mem| && at % 4 == 0 && Quad(d.mem, at) == MRET
    ensures Fetch(d, cycle) == Retire(0, 0, Plus(d.csr[MEPC], -4), ReturnFromTrap(d.csr), 0, [])
  {
    MretDecodes(d, cycle);
  }

  lemma MretFinish(d: Cpu, cycle: word)
    requires Valid(d)
    ensures var e := Retire(0, 0, Plus(d.csr[MEPC], -4), ReturnFromTrap(d.csr), 0, []);
            var f := Finish(d, cycle, e).cpu;
            && f.csr[PC] == d.csr[MEPC] && f.csr[FLAGS] % 4 == (d.csr[MSTATUS] / 0x800) % 4
            && Bit(f.csr[MSTATUS], 8) == Bit(d.csr[MSTATUS], 0x80) && f.regs == d.regs && f.mem == d.mem
  {
    RestoredBits(Bit(d.csr[MSTATUS], 0x80), d.csr[FLAGS], (d.csr[MSTATUS] / 0x800) % 4);
    assert Poke(d.mem, 0, []) == d.mem;
    BackAgain(d.csr[MEPC]);
  }

  lemma MretDecodes(c: Cpu, cycle: word)
    requires Valid(c)
    ensures Execute(c, MRET, cycle) == Retire(0, 0, Plus(c.csr[MEPC], -4), ReturnFromTrap(c.csr), 0, [])
  {
    assert MRET % 0x80 == 0x73 && MRET / 0x10_0000 == 0x302 && Funct3(MRET) == 0;
  }

  lemma BackAgain(pc: word)
    ensures W(W(pc - 4) + 4) == pc
  {
  }

  // ---------- memory ----------

  /** What a store wrote, a load of the same width at the same place reads. */
  lemma StoreLoad(mem: seq<byte>, at: nat, v: word)
    requires at + 4 <= |mem|
    ensures Quad(Poke(mem, at, Bytes(v, 4)), at) == v
    ensures Half(Poke(mem, at, Bytes(v, 2)), at) == v % 0x1_0000
    ensures Poke(mem, at, Bytes(v, 1))[at] == v % 0x100
  {
    var m4, m2 := Poke(mem, at, Bytes(v, 4)), Poke(mem, at, Bytes(v, 2));
    assert m4[at] == v % 0x100 && m4[at + 1] == v / 0x100 % 0x100;
    assert m4[at + 2] == v / 0x1_0000 % 0x100 && m4[at + 3] == v / 0x100_0000;
    assert m2[at] == v % 0x100 && m2[at + 1] == v / 0x100 % 0x100;
  }

  /** The memory agrees with another in the word at this offset, if that word is inside memory. */
  predicate AgreeAt(c: Cpu, mem: seq<byte>, at: nat) {
    |mem| == |c.mem| && (InMemory(c, at) ==> c.mem[at..at + 4] == mem[at..at + 4])
  }

  /** A load or atomic reads nothing but the word at its address, and that only inside memory: any
      memory of the same size with the same word there gives the same effect. */
  lemma ReadsOneWord(c: Cpu, ir: word, mem: seq<byte>)
    requires Valid(c) && |mem| == |c.mem|
    ensures AgreeAt(c, mem, W(c.regs[Rs1(ir)] + ImmI(ir) - c.offset)) ==> Load(c.(mem := mem), ir) == Load(c, ir)
    ensures AgreeAt(c, mem, W(c.regs[Rs1(ir)] - c.offset)) ==> Atomic(c.(mem := mem), ir) == Atomic(c, ir)
  {
    SameLoad(c, Funct3(ir), Rd(ir), W(c.regs[Rs1(ir)] + ImmI(ir) - c.offset), mem);
    SameAtomic(c, ir / 0x800_0000, Rd(ir), W(c.regs[Rs1(ir)] - c.offset), c.regs[Rs2(ir)], mem);
  }

  lemma SameLoad(c: Cpu, f3: nat, rd: nat, at: word, mem: seq<byte>)
    requires Valid(c) && |mem| == |c.mem|
    ensures AgreeAt(c, mem, at) ==> LoadFrom(c.(mem := mem), f3, rd, at) == LoadFrom(c, f3, rd, at)
  {
    SameWord(c, mem, at);
  }

  lemma SameAtomic(c: Cpu, op: nat, rd: nat, at: word, v: word, mem: seq<byte>)
    requires Valid(c) && |mem| == |c.mem|
    ensures AgreeAt(c, mem, at) ==> AtomicOn(c.(mem := mem), op, rd, at, v) == AtomicOn(c, op, rd, at, v)
  {
    SameWord(c, mem, at);
  }

  lemma SameWord(c: Cpu, mem: seq<byte>, at: nat)
    requires |mem| == |c.mem|
    ensures InMemory(c, at) && AgreeAt(c, mem, at) ==>
      mem[at] == c.mem[at] && Half(mem, at) == Half(c.mem, at) && Quad(mem, at) == Quad(c.mem, at)
  {
    if InMemory(c, at) && AgreeAt(c, mem, at) {
      var p, q := mem[at..at + 4], c.mem[at..at + 4];
      assert p[0] == q[0] && p[1] == q[1] && p[2] == q[2] && p[3] == q[3];
    }
  }

  /** A load-reserved arms exactly the matching store-conditional. */
  lemma ReservationArms(c: Cpu, ir: word)
    requires Valid(c) && ir / 0x800_0000 == 2 && Atomic(c, ir).Retire?
    ensures var at := W(c.regs[Rs1(ir)] - c.offset);
            && Atomic(c, ir).csr[FLAGS] / 8 == at % 0x2000_0000
            && Atomic(c, ir).csr[FLAGS] % 8 == c.csr[FLAGS] % 8
            && Atomic(c, ir).value == Quad(c.mem, at) && Atomic(c, ir).bytes == []
  {
    ShiftedSlot(c.csr[FLAGS], W(c.regs[Rs1(ir)] - c.offset));
  }

  /** A store-conditional at b, in any later state that still has the reservation a load-reserved at a
      made, succeeds if and only if a and b agree modulo 2^29: it then stores its word and reports
      zero; otherwise it stores nothing and reports one. */
  lemma ConditionalExact(c: Cpu, lr: word, d: Cpu, sc: word)
    requires Valid(c) && lr / 0x800_0000 == 2 && Atomic(c, lr).Retire?
    requires Valid(d) && sc / 0x800_0000 == 3 && d.csr[FLAGS] / 8 == Atomic(c, lr).csr[FLAGS] / 8
    requires InMemory(d, W(d.regs[Rs1(sc)] - d.offset))
    ensures var a, b, e := W(c.regs[Rs1(lr)] - c.offset), W(d.regs[Rs1(sc)] - d.offset), Atomic(d, sc);
            && e.Retire? && e.csr == d.csr
            && (e.value == 0 <==> a % 0x2000_0000 == b % 0x2000_0000)
            && (e.value == 0 ==> e.at == b && e.bytes == Bytes(d.regs[Rs2(sc)], 4))
            && (e.value != 0 ==> e.value == 1 && e.bytes == [])
  {
    ReservationArms(c, lr);
  }

  lemma ShiftedSlot(flags: word, at: word)
    ensures (flags % 8 + W(at * 8)) / 8 == at % 0x2000_0000
    ensures (flags % 8 + W(at * 8)) % 8 == flags % 8
  {
    assert W(at * 8) == at % 0x2000_0000 * 8;
  }
}
