/** The scheduling loop over processes that are updated in place. */
module CrazyKernel {
  import opened Rv32
  import opened RoundRobin
  import opened CrazyOs
  import opened CrazyProcess

  /** A turn of the process, by whatever name its function goes. */
  method TurnAs(p: Process, ghost turn: proc -> Job<proc>) returns (flushed: seq<byte>)
    requires p.Ready() && forall q {:trigger Turn(q)} :: turn(q) == Turn(q)
    modifies p.Footprint()
    ensures p.Ready() && p.Snapshot() == turn(old(p.Snapshot())).proc
    ensures flushed == turn(old(p.Snapshot())).out
  {
    flushed := p.TakeTurn();
  }

  /** No process shares memory with another one. */
  ghost predicate Apart(procs: seq<Process>) {
    forall i, j :: 0 <= i < j < |procs| ==> procs[i].Footprint() !! procs[j].Footprint()
  }

  class Scheduler {
    const procs: seq<Process>
    var cur: nat
    var stdout: seq<Written>
    // what the processes are, taken as values
    ghost var view: seq<proc>

    ghost function Footprint(): set<object> {
      set i, o | 0 <= i < |procs| && o in procs[i].Footprint() :: o
    }

    ghost predicate Ready()
      reads this, Footprint()
    {
      && cur < |procs| == |view| && Apart(procs)
      && (forall i :: 0 <= i < |procs| ==> this !in procs[i].Footprint())
      && (forall i :: 0 <= i < |procs| ==> procs[i].Ready() && procs[i].Snapshot() == view[i])
    }

    ghost function Snapshot(): Sys<proc>
      reads this
    {
      Sys(view, cur, stdout)
    }

    constructor (procs: seq<Process>, ghost view: seq<proc>)
      requires 0 < |procs| == |view| && Apart(procs)
      requires forall i :: 0 <= i < |procs| ==> procs[i].Ready() && procs[i].Snapshot() == view[i]
      ensures Ready() && this.procs == procs && Snapshot() == Sys(view, 0, [])
    {
      this.procs, this.view := procs, view;
      cur, stdout := 0, [];
    }

    /** Serve the current process and move on to the next one. */
    method ServeNext(ghost turn: proc -> Job<proc>)
      requires Ready() && forall q {:trigger Turn(q)} :: turn(q) == Turn(q)
      modifies this, Footprint()
      ensures Ready() && Snapshot() == SysTurn(old(Snapshot()), turn)
    {
      ghost var c := cur;
      var out := TurnAs(procs[cur], turn);
      forall i | 0 <= i < |procs| && i != c
        ensures procs[i].Ready() && procs[i].Snapshot() == view[i]
      {
        assert procs[i].Footprint() !! procs[c].Footprint();
      }
      view := view[cur := turn(view[cur]).proc];
      stdout := stdout + Tag(cur, out);
      cur := (cur + 1) % |procs|;
    }

    method RunAs(turns: nat, ghost turn: proc -> Job<proc>)
      requires Ready() && forall q {:trigger Turn(q)} :: turn(q) == Turn(q)
      modifies this, Footprint()
      ensures Ready() && Snapshot() == SysRun(old(Snapshot()), turns, turn)
    {
      var k := 0;
      while k < turns
        invariant k <= turns && Ready()
        invariant Snapshot() == SysRun(old(Snapshot()), k, turn)
      {
        ServeNext(turn);
        k := k + 1;
      }
    }

    /** The loop in place is the loop over values; so no process sees another one. */
    method Run(turns: nat)
      requires Ready()
      modifies this, Footprint()
      ensures Ready() && Snapshot() == SysRun(old(Snapshot()), turns, Turn)
      ensures old(cur) == 0 && old(stdout) == [] ==> forall i :: 0 <= i < |view| ==>
        var j := Alone(old(view)[i], Turns(i, turns, |view|), Turn);
        view[i] == j.proc && By(i, stdout) == j.out
    {
      RunAs(turns, Turn);
      ghost var s := old(Snapshot());
      if s.cur == 0 && s.stdout == [] {
        forall i | 0 <= i < |view|
          ensures view[i] == Alone(s.procs[i], Turns(i, turns, |view|), Turn).proc
          ensures By(i, stdout) == Alone(s.procs[i], Turns(i, turns, |view|), Turn).out
        {
          Projection(s, turns, i, Turn);
        }
      }
    }
  }
}
