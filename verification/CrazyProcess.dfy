/** A process as the operating system keeps it: an emulated machine and an output buffer, both
    updated in place. */
module CrazyProcess {
  import opened Rv32
  import opened Rv32Precise
  import opened Emulator
  import opened RoundRobin
  import opened CrazyOs

  function Loaded(image: seq<byte>, offset: word): proc
    requires 0 < |image| < M && |image| % 4 == 0
  {
    var cpu := Cpu(seq(32, _ => 0)[2 := W(offset + |image|)], seq(16, _ => 0)[PC := offset], image, offset);
    Proc(cpu, seq(BUF, _ => 0), 0)
  }

  class Process {
    const machine: Machine
    const buf: array<byte>
    var len: nat

    ghost predicate Ready()
      reads this, machine, machine.regs, machine.mem, buf
    {
      && machine.Ready() && machine.regs.Length == 32 && buf.Length == BUF && len < BUF - 1
      && buf != machine.mem && (buf as object) != machine.regs
    }

    /** Everything a turn of this process may read or write. */
    ghost function Footprint(): set<object> {
      {this, machine, machine.regs, machine.mem, buf}
    }

    ghost function Snapshot(): Proc
      reads this, machine, machine.regs, machine.mem, buf
    {
      Proc(machine.Snapshot(), buf[..], len)
    }

    /** A process loaded from an image: registers clear but for the stack pointer, buffer empty. */
    constructor (image: seq<byte>, offset: word)
      requires 0 < |image| < M && |image| % 4 == 0
      ensures Ready() && fresh(Footprint()) && Snapshot() == Loaded(image, offset)
    {
      machine := new Machine(image, offset, W(offset + |image|));
      buf := new byte[BUF](_ => 0);
      len := 0;
      new;
      assert buf[..] == seq(BUF, _ => 0);
    }

    /** Store the character and write the buffer out at the end of a line or when it is full. */
    method Put(ch: byte) returns (flushed: seq<byte>)
      requires Ready()
      modifies this`len, buf
      ensures Ready() && Job(Snapshot(), flushed) == PutChar(old(Snapshot()), ch)
    {
      buf[len] := ch;
      len := len + 1;
      flushed := [];
      if ch == NEWLINE || len == BUF - 1 {
        flushed := buf[..len];
        len := 0;
      }
    }

    /** Serve the system call and go on behind it. */
    method Serve() returns (flushed: seq<byte>)
      requires Ready()
      modifies this`len, buf, machine`csr, machine.regs
      ensures Ready() && Job(Snapshot(), flushed) == HandleEcall(old(Snapshot()))
    {
      var ret: word := M - 1;
      flushed := [];
      if machine.regs[A7] == 42 {
        flushed := Put(machine.regs[A0] % 0x100);
        ret := 0;
      }
      machine.regs[A0] := ret;
      var csr := machine.csr;
      machine.csr := ReturnFromTrap(csr);
      machine.csr := machine.csr[PC := Plus(csr[MEPC], 4)];
      machine.csr := machine.csr[MCAUSE := 0];
    }

    /** The body of the scheduling loop: one step of the machine in place, then the system call if
        the cause register asks for one. */
    method TakeTurn() returns (flushed: seq<byte>)
      requires Ready()
      modifies this`len, buf, machine`csr, machine.regs, machine.mem
      ensures Ready() && Snapshot() == Turn(old(Snapshot())).proc && flushed == Turn(old(Snapshot())).out
    {
      Precise(machine.Snapshot(), 1);
      var result := machine.Step(1);
      flushed := [];
      if machine.csr[MCAUSE] == 8 {
        flushed := Serve();
      }
    }
  }
}
