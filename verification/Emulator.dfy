/** The emulated machine as an object whose registers and memory are updated in place. */
module Emulator {
  import opened Rv32

  class Machine {
    const regs: array<word>
    var csr: csrs
    const mem: array<byte>
    const offset: word

    constructor (image: seq<byte>, offset: word, stackTop: word)
      requires 0 < |image| < M && |image| % 4 == 0
      ensures Ready() && fresh(regs) && fresh(mem)
      ensures Snapshot() == Cpu(seq(32, _ => 0)[2 := stackTop], seq(16, _ => 0)[PC := offset], image, offset)
    {
      regs := new word[32](_ => 0);
      mem := new byte[|image|](i requires 0 <= i < |image| => image[i]);
      csr := seq(16, _ => 0)[PC := offset];
      this.offset := offset;
      new;
      regs[2] := stackTop;
      assert mem[..] == image;
      assert regs[..] == seq(32, _ => 0)[2 := stackTop];
    }

    ghost function Snapshot(): Cpu
      reads this, regs, mem
    {
      Cpu(regs[..], csr, mem[..], offset)
    }

    ghost predicate Ready()
      reads this, regs, mem
    {
      Valid(Snapshot())
    }

    /** Store the bytes one after the other. */
    method Put(at: nat, bytes: seq<byte>)
      requires at + |bytes| <= mem.Length
      modifies mem
      ensures mem[..] == Poke(old(mem[..]), at, bytes)
    {
      var i := 0;
      while i < |bytes|
        invariant i <= |bytes|
        invariant mem[..] == Poke(old(mem[..]), at, bytes[..i])
      {
        mem[at + i] := bytes[i];
        assert mem[..] == Poke(old(mem[..]), at, bytes[..i])[at + i := bytes[i]];
        i := i + 1;
      }
      assert bytes[..|bytes|] == bytes;
    }

    /** Write back an effect, or enter the trap handler. */
    method WriteBack(ghost before: Cpu, cycle: word, e: Effect) returns (result: word)
      requires Ready() && before == Snapshot() && InBounds(before, e) && regs.Length == 32
      modifies this`csr, regs, mem
      ensures Snapshot() == Finish(before, cycle, e).cpu && result == Finish(before, cycle, e).result
    {
      result := 0;
      match e
      case Fault(trap, value) =>
        var cause, tval := W(trap - 1), if 5 < trap <= 8 then value else csr[PC];
        csr := Cycles(EnterTrap(csr, cause, tval, csr[PC]), cycle);
      case Leave(after, r) =>
        csr, result := after, r;
      case Retire(rd, value, pc, after, at, bytes) =>
        Put(at, bytes);
        if rd != 0 {
          regs[rd] := value;
        }
        csr := Cycles(after[PC := W(pc + 4)], cycle);
    }

    /** One step in place agrees with the step as a function. */
    method Step(elapsed: word) returns (result: word)
      requires Ready() && regs.Length == 32
      modifies this`csr, regs, mem
      ensures Snapshot() == Rv32.Step(old(Snapshot()), elapsed).cpu
      ensures result == Rv32.Step(old(Snapshot()), elapsed).result
    {
      csr := Tick(csr, elapsed);
      ghost var d := Snapshot();
      if Bit(csr[FLAGS], 4) == 1 {
        return 1;
      }
      if Interrupted(csr) {
        csr := Cycles(EnterTrap(csr, 0x8000_0007, 0, csr[PC]), csr[CYCLEL]);
        return 0;
      }
      var cycle := Plus(csr[CYCLEL], 1);
      var e := Fetch(Cpu(regs[..], csr, mem[..], offset), cycle);
      FetchInBounds(d, cycle);
      result := WriteBack(d, cycle, e);
    }
  }
}
