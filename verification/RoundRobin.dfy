/** Round-robin scheduling of any kind of process whose turns depend on nothing but itself. */
module RoundRobin {
  import opened PowersOfTwo
  import Rv32

  /** A process after a turn, and what the turn wrote out. */
  datatype Job<P> = Job(proc: P, out: seq<Rv32.byte>)

  /** A byte on standard output and the process that wrote it. */
  datatype Written = Written(pid: nat, b: Rv32.byte)

  datatype Sys<P> = Sys(procs: seq<P>, cur: nat, stdout: seq<Written>)

  function Tag(pid: nat, bs: seq<Rv32.byte>): seq<Written> {
    seq(|bs|, i requires 0 <= i < |bs| => Written(pid, bs[i]))
  }

  function SysTurn<P>(s: Sys<P>, turn: P -> Job<P>): (t: Sys<P>)
    requires s.cur < |s.procs|
    ensures t.cur < |t.procs| == |s.procs|
  {
    var j := turn(s.procs[s.cur]);
    Sys(s.procs[s.cur := j.proc], (s.cur + 1) % |s.procs|, s.stdout + Tag(s.cur, j.out))
  }

  function SysRun<P>(s: Sys<P>, k: nat, turn: P -> Job<P>): (t: Sys<P>)
    requires s.cur < |s.procs|
    ensures t.cur < |t.procs| == |s.procs|
  {
    if k == 0 then s else SysTurn(SysRun(s, k - 1, turn), turn)
  }

  /** The process on a machine of its own, for k turns. */
  function Alone<P>(p: P, k: nat, turn: P -> Job<P>): Job<P> {
    if k == 0 then Job(p, []) else
      var j := Alone(p, k - 1, turn);
      Job(turn(j.proc).proc, j.out + turn(j.proc).out)
  }

  /** The part of standard output one process wrote. */
  function By(pid: nat, out: seq<Written>): seq<Rv32.byte> {
    if out == [] then [] else
      var rest, w := By(pid, out[..|out| - 1]), out[|out| - 1];
      if w.pid == pid then rest + [w.b] else rest
  }

  /** How many of the first k turns process i of n gets. */
  function Turns(i: nat, k: nat, n: nat): nat
    requires i < n
  {
    (k + n - 1 - i) / n
  }

  lemma {:induction false} ByTag(pid: nat, out: seq<Written>, who: nat, bs: seq<Rv32.byte>)
    ensures By(pid, out + Tag(who, bs)) == By(pid, out) + (if who == pid then bs else [])
  {
    if bs == [] {
      assert out + Tag(who, bs) == out;
    } else {
      var m := |bs| - 1;
      ByTag(pid, out, who, bs[..m]);
      var all := out + Tag(who, bs);
      assert all[..|all| - 1] == out + Tag(who, bs[..m]);
      assert bs == bs[..m] + [bs[m]];
    }
  }

  /** Whole rounds, plus one for the processes already served in this round. */
  lemma ShareIs(i: nat, k: nat, n: nat)
    requires i < n
    ensures Turns(i, k, n) == k / n + (if i < k % n then 1 else 0)
  {
    var q, r := k / n, k % n;
    assert k == n * q + r;
    if i < r {
      assert k + n - 1 - i == n * (q + 1) + (r - 1 - i);
      DivUnique(n, q + 1, r - 1 - i);
    } else {
      DivUnique(n, q, n - 1 - i + r);
    }
  }

  lemma NextCur(k: nat, n: nat)
    requires n > 0
    ensures (k % n + 1) % n == (k + 1) % n
    ensures (k + 1) / n == k / n + (if (k + 1) % n == 0 then 1 else 0)
  {
    var q, r := k / n, k % n;
    assert k == n * q + r;
    if r + 1 < n {
      DivUnique(n, q, r + 1);
    } else {
      assert k + 1 == n * (q + 1);
      DivUnique(n, 1, 0);
      DivUnique(n, q + 1, 0);
    }
  }

  lemma NextTurn(i: nat, k: nat, n: nat)
    requires i < n
    ensures Turns(i, k + 1, n) == Turns(i, k, n) + (if k % n == i then 1 else 0)
  {
    ShareIs(i, k, n);
    ShareIs(i, k + 1, n);
    NextCur(k, n);
  }

  /** Sharing the machine is invisible: after any number of turns each process, and what it has
      written out, is exactly what it would be after its own share of the turns alone. */
  lemma {:induction false} Projection<P>(s: Sys<P>, k: nat, i: nat, turn: P -> Job<P>)
    requires 0 == s.cur && s.stdout == [] && i < |s.procs|
    ensures SysRun(s, k, turn).cur == k % |s.procs|
    ensures SysRun(s, k, turn).procs[i] == Alone(s.procs[i], Turns(i, k, |s.procs|), turn).proc
    ensures By(i, SysRun(s, k, turn).stdout) == Alone(s.procs[i], Turns(i, k, |s.procs|), turn).out
  {
    var n := |s.procs|;
    if k == 0 {
      ShareIs(i, 0, n);
    } else {
      Projection(s, k - 1, i, turn);
      NextTurn(i, k - 1, n);
      NextCur(k - 1, n);
      var t := SysRun(s, k - 1, turn);
      ByTag(i, t.stdout, t.cur, turn(t.procs[t.cur]).out);
    }
  }

  /** Shares are fair: any two processes' turn counts differ by at most one. */
  lemma Fair(i: nat, j: nat, k: nat, n: nat)
    requires i < j < n
    ensures Turns(j, k, n) <= Turns(i, k, n) <= Turns(j, k, n) + 1
  {
    ShareIs(i, k, n);
    ShareIs(j, k, n);
  }
}
