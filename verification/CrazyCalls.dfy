/** Exactly when a turn serves a system call, and where the process then goes on. */
module CrazyCalls {
  import opened Wrappers
  import opened Rv32
  import opened Rv32Precise
  import opened RoundRobin
  import opened CrazyOs

  const USER_CALL: word := 8

  function WordAtPc(c: Cpu): Option<word>
    requires Valid(c)
  {
    var at := W(c.csr[PC] - c.offset);
    if at < |c.mem| && at % 4 == 0 then Some(Quad(c.mem, at)) else None
  }

  /** The word the step executes, if it gets as far. */
  function Executed(c: Cpu): Option<word>
    requires Valid(c)
  {
    var ir := WordAtPc(c);
    if Runs(Ticked(c, 1)) then ir else None
  }

  /** An ECALL in user mode; its operand fields are not looked at. */
  predicate Calls(c: Cpu, ir: word) {
    ir % 0x80 == 0x73 && Funct3(ir) == 0 && ir / 0x10_0000 == 0 && c.csr[FLAGS] % 4 == 0
  }

  /** A write to mcause that leaves the cause of such a call there. */
  predicate Forges(c: Cpu, ir: word)
    requires Valid(c)
  {
    && ir % 0x80 == 0x73 && Funct3(ir) % 4 != 0 && ir / 0x10_0000 == 0x342
    && Modify(Funct3(ir) % 4, c.csr[MCAUSE], if Funct3(ir) >= 4 then Rs1(ir) else c.regs[Rs1(ir)]) == USER_CALL
  }

  /** The effect leaves the cause of a call behind. */
  predicate AsksForCall(e: Effect) {
    match e
    case Fault(trap, _) => W(trap - 1) == USER_CALL
    case Leave(csr, _) => csr[MCAUSE] == USER_CALL
    case Retire(_, _, _, csr, _, _) => csr[MCAUSE] == USER_CALL
  }

  lemma PlainCause(c: Cpu, ir: word, cycle: word)
    requires Valid(c) && c.csr[MCAUSE] != USER_CALL && ir % 0x80 != 0x73
    ensures !AsksForCall(Execute(c, ir, cycle))
  {
  }

  lemma SystemCause(c: Cpu, ir: word, cycle: word)
    requires Valid(c) && c.csr[MCAUSE] != USER_CALL && ir % 0x80 == 0x73
    ensures AsksForCall(System(c, ir, cycle)) <==> Calls(c, ir) || Forges(c, ir)
  {
  }

  lemma ExecuteCause(c: Cpu, ir: word, cycle: word)
    requires Valid(c) && c.csr[MCAUSE] != USER_CALL
    ensures AsksForCall(Execute(c, ir, cycle)) <==> Calls(c, ir) || Forges(c, ir)
  {
    if ir % 0x80 == 0x73 {
      SystemCause(c, ir, cycle);
    } else {
      PlainCause(c, ir, cycle);
    }
  }

  /** The clock does not matter to what is executed, nor to what it asks for. */
  lemma TickedSame(c: Cpu, ir: word)
    requires Valid(c)
    ensures Calls(Ticked(c, 1), ir) == Calls(c, ir) && Forges(Ticked(c, 1), ir) == Forges(c, ir)
    ensures Ticked(c, 1).csr[PC] == c.csr[PC] && Ticked(c, 1).csr[MCAUSE] == c.csr[MCAUSE]
    ensures Ticked(c, 1).csr[MEPC] == c.csr[MEPC]
  {
    TickKeeps(c.csr, 1);
  }

  lemma FetchedWord(c: Cpu, d: Cpu, cycle: word)
    requires Valid(c) && d == Ticked(c, 1) && Runs(d)
    ensures Fetch(d, cycle)
      == if Executed(c).Some? then Execute(d, Executed(c).value, cycle)
         else Fault(if W(c.csr[PC] - c.offset) >= |c.mem| then 2 else 1, 0)
  {
    TickedSame(c, 0);
  }

  lemma FetchCause(c: Cpu, d: Cpu, cycle: word)
    requires Valid(c) && c.csr[MCAUSE] != USER_CALL && d == Ticked(c, 1) && Runs(d)
    ensures AsksForCall(Fetch(d, cycle))
      <==> Executed(c).Some? && (Calls(c, Executed(c).value) || Forges(c, Executed(c).value))
  {
    FetchedWord(c, d, cycle);
    if Executed(c).Some? {
      TickedSame(c, Executed(c).value);
      ExecuteCause(d, Executed(c).value, cycle);
    }
  }

  lemma FinishCause(d: Cpu, cycle: word, e: Effect)
    requires Valid(d) && InBounds(d, e)
    ensures Finish(d, cycle, e).cpu.csr[MCAUSE] == USER_CALL <==> AsksForCall(e)
  {
  }

  /** Exactly when a turn serves a call: the process executes an ECALL in user mode, or it writes the
      cause of one into mcause itself. */
  lemma ServesExactly(p: proc)
    requires p.cpu.csr[MCAUSE] != USER_CALL
    ensures Step(p.cpu, 1).cpu.csr[MCAUSE] == USER_CALL
      <==> Executed(p.cpu).Some? && (Calls(p.cpu, Executed(p.cpu).value) || Forges(p.cpu, Executed(p.cpu).value))
  {
    var d := Ticked(p.cpu, 1);
    var cycle := Plus(d.csr[CYCLEL], 1);
    if Runs(d) {
      FetchInBounds(d, cycle);
      FetchCause(p.cpu, d, cycle);
      FinishCause(d, cycle, Fetch(d, cycle));
    }
  }

  /** So a cause is never served twice: none is left over between turns. */
  lemma {:induction false} NoneLeft(p: proc, k: nat)
    requires p.cpu.csr[MCAUSE] != USER_CALL
    ensures Alone(p, k, Turn).proc.cpu.csr[MCAUSE] != USER_CALL
  {
    if k > 0 {
      NoneLeft(p, k - 1);
      TurnClears(Alone(p, k - 1, Turn).proc);
    }
  }

  lemma TurnClears(p: proc)
    ensures Turn(p).proc.cpu.csr[MCAUSE] != USER_CALL
  {
  }

  lemma StepRuns(c: Cpu, ir: word)
    requires Valid(c) && Executed(c) == Some(ir)
    ensures var d := Ticked(c, 1);
      var cycle := Plus(d.csr[CYCLEL], 1);
      InBounds(d, Execute(d, ir, cycle)) && Step(c, 1) == Finish(d, cycle, Execute(d, ir, cycle))
  {
    var d := Ticked(c, 1);
    FetchedWord(c, d, Plus(d.csr[CYCLEL], 1));
    FetchInBounds(d, Plus(d.csr[CYCLEL], 1));
  }

  lemma CallFaults(d: Cpu, ir: word, cycle: word)
    requires Valid(d) && Calls(d, ir)
    ensures Execute(d, ir, cycle) == Fault(9, 0)
  {
  }

  lemma CallTraps(c: Cpu, ir: word)
    requires Valid(c) && Executed(c) == Some(ir) && Calls(c, ir)
    ensures Step(c, 1).kind.Trapped?
  {
    TickedSame(c, ir);
    var d := Ticked(c, 1);
    StepRuns(c, ir);
    CallFaults(d, ir, Plus(d.csr[CYCLEL], 1));
  }

  /** A call made by an ECALL in user mode is served in the same turn: see `Resumed`. */
  lemma CallResumes(p: proc, ir: word)
    requires p.cpu.csr[MCAUSE] != USER_CALL && Executed(p.cpu) == Some(ir) && Calls(p.cpu, ir)
    ensures Resumed(p, Turn(p))
  {
    ServesExactly(p);
    CallTraps(p.cpu, ir);
    EcallResumes(p);
  }

  lemma ForgeryWrites(d: Cpu, ir: word, cycle: word)
    requires Valid(d) && Forges(d, ir)
    ensures var e := Execute(d, ir, cycle); e.Retire? && e.csr[MEPC] == d.csr[MEPC]
  {
  }

  lemma ForgeryRetires(c: Cpu, ir: word)
    requires Valid(c) && Executed(c) == Some(ir) && Forges(c, ir)
    ensures Step(c, 1).kind.Retired? && Step(c, 1).cpu.csr[MEPC] == c.csr[MEPC]
  {
    TickedSame(c, ir);
    var d := Ticked(c, 1);
    StepRuns(c, ir);
    ForgeryWrites(d, ir, Plus(d.csr[CYCLEL], 1));
  }

  lemma ServedAt(p: proc)
    requires Step(p.cpu, 1).cpu.csr[MCAUSE] == USER_CALL
    ensures Turn(p).proc.cpu.csr[PC] == Plus(Step(p.cpu, 1).cpu.csr[MEPC], 4)
  {
    Precise(p.cpu, 1);
  }

  lemma SameBehind(a: word, b: word)
    ensures Plus(a, 4) == Plus(b, 4) <==> a == b
  {
  }

  /** A served call goes on behind the instruction exactly if it was a call, or mepc happened to hold
      the address of the instruction that wrote the cause. */
  lemma BehindExactly(p: proc, ir: word)
    requires p.cpu.csr[MCAUSE] != USER_CALL && Executed(p.cpu) == Some(ir)
    requires Step(p.cpu, 1).cpu.csr[MCAUSE] == USER_CALL
    ensures Turn(p).proc.cpu.csr[PC] == Plus(p.cpu.csr[PC], 4)
      <==> Calls(p.cpu, ir) || p.cpu.csr[MEPC] == p.cpu.csr[PC]
  {
    ServesExactly(p);
    ServedAt(p);
    if Calls(p.cpu, ir) {
      CallTraps(p.cpu, ir);
      TrapSaves(p.cpu, 1);
    } else {
      ForgeryRetires(p.cpu, ir);
      SameBehind(p.cpu.csr[MEPC], p.cpu.csr[PC]);
    }
  }

  lemma Quiet(c: Cpu)
    requires c.csr[FLAGS] == 0 && c.csr[MATCHL] == 0 && c.csr[MATCHH] == 0 && c.csr[MSTATUS] == 0
    ensures Runs(Ticked(c, 1))
  {
  }

  /** csrrwi x0, mcause, 8 */
  const WRITE_CAUSE: word := 0x3424_5073

  const PRETENDER := Cpu(seq(32, _ => 0), seq(16, _ => 0)[PC := 0x8000_0000], [0x73, 0x50, 0x24, 0x34], 0x8000_0000)

  lemma WriteCauseForges(c: Cpu)
    requires Valid(c)
    ensures Forges(c, WRITE_CAUSE)
  {
    var ir := WRITE_CAUSE;
    assert ir % 0x80 == 0x73 && Funct3(ir) == 5 && ir / 0x10_0000 == 0x342 && Rs1(ir) == 8;
  }

  lemma OneWord(c: Cpu)
    requires Valid(c) && c.csr[PC] == c.offset && c.mem == [0x73, 0x50, 0x24, 0x34] && Runs(Ticked(c, 1))
    ensures Executed(c) == Some(WRITE_CAUSE)
  {
    assert Half(c.mem, 0) == 0x5073 && Half(c.mem, 2) == 0x3424;
  }

  /** A program of one instruction that writes the cause is taken to address 4, outside its memory. */
  lemma PretendedCall(p: proc)
    requires p.cpu == PRETENDER
    ensures Step(p.cpu, 1).kind.Retired? && Turn(p).proc.cpu.csr[PC] == 4
  {
    Quiet(p.cpu);
    OneWord(p.cpu);
    WriteCauseForges(p.cpu);
    ForgeryRetires(p.cpu, WRITE_CAUSE);
    ServesExactly(p);
    ServedAt(p);
  }
}
