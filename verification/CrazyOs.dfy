/** A round-robin operating system over emulated machines, with line-buffered output per process. */
module CrazyOs {
  import opened Rv32
  import opened Rv32Precise
  import opened RoundRobin

  const A0: nat := 10
  const A7: nat := 17
  const BUF: nat := 256
  const NEWLINE: byte := 10

  /** A process: its machine and its output buffer. */
  datatype Proc = Proc(cpu: Cpu, buf: seq<byte>, len: nat)

  predicate ProcOk(p: Proc) {
    Valid(p.cpu) && |p.buf| == BUF && p.len < BUF - 1
  }

  /** Processes as the scheduler finds them between turns. */
  type proc = p: Proc | ProcOk(p)
    witness Proc(Cpu(seq(32, _ => 0), seq(16, _ => 0), [0, 0, 0, 0], 0), seq(BUF, _ => 0), 0)

  function PutChar(p: Proc, ch: byte): Job<Proc>
    requires ProcOk(p)
  {
    var buf, len := p.buf[p.len := ch], p.len + 1;
    if ch == NEWLINE || len == BUF - 1 then Job(p.(buf := buf, len := 0), buf[..len])
    else Job(p.(buf := buf, len := len), [])
  }

  function HandleEcall(p: Proc): Job<Proc>
    requires ProcOk(p)
  {
    var put := p.cpu.regs[A7] == 42;
    var j := if put then PutChar(p, p.cpu.regs[A0] % 0x100) else Job(p, []);
    var csr := ReturnFromTrap(p.cpu.csr)[PC := Plus(p.cpu.csr[MEPC], 4)][MCAUSE := 0];
    j.(proc := j.proc.(cpu := p.cpu.(regs := p.cpu.regs[A0 := if put then 0 else M - 1], csr := csr)))
  }

  /** One turn: a step, then the system call if that is what the cause register says. */
  function Turn(p: proc): Job<proc> {
    Precise(p.cpu, 1);
    var q := p.(cpu := Step(p.cpu, 1).cpu);
    HandleOk(q);
    if q.cpu.csr[MCAUSE] == 8 then HandleEcall(q) else Job(q, [])
  }

  /** Everything the process has printed, written out or not. */
  function Stream(j: Job<Proc>): seq<byte>
    requires j.proc.len <= |j.proc.buf|
  {
    j.out + j.proc.buf[..j.proc.len]
  }

  /** Between calls the buffer never fills, and no character is lost, doubled or reordered. */
  lemma PutCharAppends(p: Proc, ch: byte)
    requires ProcOk(p)
    ensures ProcOk(PutChar(p, ch).proc) && PutChar(p, ch).proc.cpu == p.cpu
    ensures Stream(PutChar(p, ch)) == Stream(Job(p, [])) + [ch]
  {
    assert p.buf[p.len := ch][..p.len + 1] == p.buf[..p.len] + [ch];
  }

  /** Output is written exactly at the end of a line or at 255 characters, and then all of it. */
  lemma FlushesExactly(p: Proc, ch: byte)
    requires ProcOk(p)
    ensures var j, line := PutChar(p, ch), p.buf[..p.len] + [ch];
      if ch == 10 || |line| == 255 then j.out == line && j.proc.len == 0
      else j.out == [] && j.proc.buf[..j.proc.len] == line
  {
    assert p.buf[p.len := ch][..p.len + 1] == p.buf[..p.len] + [ch];
  }

  lemma HandleOk(p: Proc)
    requires ProcOk(p)
    ensures ProcOk(HandleEcall(p).proc) && HandleEcall(p).proc.cpu.mem == p.cpu.mem
    ensures HandleEcall(p).proc.cpu.offset == p.cpu.offset
  {
  }

  /** What a system call does to the process that made it. */
  ghost predicate Resumed(p: Proc, j: Job<Proc>) {
    && ProcOk(p) && ProcOk(j.proc)
    && var c, d := p.cpu, j.proc.cpu;
       && d.csr[PC] == Plus(c.csr[PC], 4) && d.csr[FLAGS] % 4 == c.csr[FLAGS] % 4
       && Bit(d.csr[MSTATUS], 8) == Bit(c.csr[MSTATUS], 8) && d.csr[MCAUSE] == 0
       && d.mem == c.mem && SameBut(c.regs, d.regs, A0)
       && d.regs[A0] == (if c.regs[A7] == 42 then 0 else M - 1)
       && Stream(j) == Stream(Job(p, [])) + (if c.regs[A7] == 42 then [c.regs[A0] % 0x100] else [])
  }

  /** An environment call from user mode: the process goes on behind the call, in the same mode and
      with the same interrupt bit; only the result register differs; and exactly call number 42
      prints exactly its argument's low byte. */
  lemma EcallResumes(p: proc)
    requires Step(p.cpu, 1).kind.Trapped? && Step(p.cpu, 1).cpu.csr[MCAUSE] == 8
    ensures Resumed(p, Turn(p))
  {
    Precise(p.cpu, 1);
    TrapSaves(p.cpu, 1);
    var q := p.(cpu := Step(p.cpu, 1).cpu);
    HandleResumes(p, q);
  }

  lemma HandleResumes(p: Proc, q: Proc)
    requires ProcOk(p) && ProcOk(q) && q == p.(cpu := q.cpu) && q.cpu == p.cpu.(csr := q.cpu.csr)
    requires var a, b := p.cpu.csr, q.cpu.csr;
             && b[MEPC] == a[PC] && Bit(b[MSTATUS], 0x80) == Bit(a[MSTATUS], 8)
             && (b[MSTATUS] / 0x800) % 4 == a[FLAGS] % 4
    ensures Resumed(p, HandleEcall(q))
  {
    HandleOk(q);
    RestoredBits(Bit(q.cpu.csr[MSTATUS], 0x80), q.cpu.csr[FLAGS], (q.cpu.csr[MSTATUS] / 0x800) % 4);
    PutCharAppends(q, q.cpu.regs[A0] % 0x100);
  }

  // ---------- scheduling ----------

  /** Round-robin scheduling is invisible to every process: its registers, memory, buffer and output
      after k turns of the whole system are those of running alone for its share of the turns. */
  lemma SharedAsAlone(s: Sys<proc>, k: nat, i: nat)
    requires s.cur == 0 && s.stdout == [] && i < |s.procs|
    ensures var t, j := SysRun(s, k, Turn), Alone(s.procs[i], Turns(i, k, |s.procs|), Turn);
            && t.procs[i] == j.proc && By(i, t.stdout) == j.out
            && Stream(Job(t.procs[i], By(i, t.stdout))) == Stream(j)
  {
    Projection(s, k, i, Turn);
  }

  lemma TurnPrints(p: proc)
    ensures Stream(Job(p, [])) <= Stream(Turn(p)) && |Stream(Turn(p))| <= |Stream(Job(p, []))| + 1
  {
    var q := p.(cpu := Step(p.cpu, 1).cpu);
    Precise(p.cpu, 1);
    PutCharAppends(q, q.cpu.regs[A0] % 0x100);
  }

  /** A process's output stream only ever grows, by at most one character a turn; writing the buffer
      out moves characters and never changes the stream. */
  lemma StreamGrows(p: proc, k: nat)
    ensures Stream(Alone(p, k, Turn)) <= Stream(Alone(p, k + 1, Turn))
    ensures |Stream(Alone(p, k + 1, Turn))| <= |Stream(Alone(p, k, Turn))| + 1
  {
    var j := Alone(p, k, Turn);
    TurnPrints(j.proc);
    Extends(j, Turn(j.proc));
  }

  lemma Extends(j: Job<proc>, t: Job<proc>)
    requires Stream(Job(j.proc, [])) <= Stream(t) && |Stream(t)| <= |Stream(Job(j.proc, []))| + 1
    ensures var next := Job(t.proc, j.out + t.out);
            Stream(j) <= Stream(next) && |Stream(next)| <= |Stream(j)| + 1
  {
    assert Stream(j) == j.out + Stream(Job(j.proc, []));
    assert Stream(Job(t.proc, j.out + t.out)) == j.out + Stream(t);
  }
}
