/** When a failed hart start may safely be taken back, exactly. */
module HartStartExact {
  import opened HartStart

  // ---------- continuations ----------

  /** No further kick fails, and nobody rolls back but a hart whose own start was taken away. */
  predicate Settled(s: Sys, a: Action)
    requires Enabled(s, a)
  {
    && !a.KickFail?
    && (a.RollBack? ==> At(s, a.i).k < |s.claims| && s.claims[At(s, a.i).k].takenBack)
  }

  /** Settled actions lead from s to t. */
  ghost predicate Leads(s: Sys, acts: seq<Action>, t: Sys)
    decreases |acts|
  {
    if acts == [] then s == t
    else Enabled(s, acts[0]) && Settled(s, acts[0]) && Leads(Do(s, acts[0]), acts[1..], t)
  }

  /** Nothing can go wrong any more, unless another kick fails. */
  ghost predicate Secure(s: Sys) {
    forall acts: seq<Action>, t: Sys :: Leads(s, acts, t) ==> Safe(t)
  }

  lemma Now(s: Sys)
    requires !Safe(s)
    ensures !Secure(s)
  {
    assert Leads(s, [], s);
  }

  lemma Back(s: Sys, a: Action)
    requires Enabled(s, a) && Settled(s, a) && !Secure(Do(s, a))
    ensures !Secure(s)
  {
    var acts, t :| Leads(Do(s, a), acts, t) && !Safe(t);
    assert ([a] + acts)[1..] == acts;
    assert Leads(s, [a] + acts, t);
  }

  lemma {:induction false} InvSecure(s: Sys, acts: seq<Action>, t: Sys)
    requires Inv(s) && Leads(s, acts, t)
    ensures Safe(t)
    decreases |acts|
  {
    if acts == [] {
      InvSafe(s);
    } else {
      assert Starts(acts[0]) ==> StarterOk(s, acts[0].i);
      Keep(s, acts[0]);
      InvSecure(Do(s, acts[0]), acts[1..], t);
    }
  }

  // ---------- how a late rollback goes wrong ----------

  /** A job that agrees with j in nothing. */
  function Other(j: Job): Job {
    Job(if j.arg1 == 0 then 1 else 0, if j.addr == 0 then 1 else 0, if j.mode.U? then S else U)
  }

  /** A pending start whose words have been overwritten. */
  lemma BootsMixture(s: Sys, w: Job)
    requires s.state.StartPending? && s.target.Waiting? && s.wins == s.jumps + [w] && s.next != w
    ensures !Secure(s)
  {
    var s1 := Do(s, See);
    var s2 := Do(s1, Finish);
    var s3 := Do(s2, TakeArg);
    var s4 := Do(s3, TakeAddr);
    var s5 := Do(s4, TakeMode);
    var s6 := Do(s5, Jump);
    assert s6.jumps == s.jumps + [s.next] && s6.jumps[|s.jumps|] != s6.wins[|s.jumps|];
    Now(s6);
    Back(s5, Jump);
    Back(s4, TakeMode);
    Back(s3, TakeAddr);
    Back(s2, TakeArg);
    Back(s1, Finish);
    Back(s, See);
  }

  /** Four steps from the ticket to a pending start. */
  lemma Launch(s: Sys, b: nat, j: Job) returns (t: Sys)
    requires At(s, b) == Acquired(j) && s.state.Stopped?
    ensures !Secure(t) ==> !Secure(s)
    ensures t.state.StartPending? && t.next == j && t.target == s.target
    ensures t.wins == s.wins + [j] && t.jumps == s.jumps
    ensures forall h: nat :: h != b ==> At(t, h) == At(s, h)
  {
    var s1 := Do(s, PutArg(b));
    var s2 := Do(s1, PutAddr(b));
    var s3 := Do(s2, PutMode(b));
    t := Do(s3, Stake(b));
    if !Secure(t) {
      Back(s3, Stake(b));
      Back(s2, PutMode(b));
      Back(s1, PutAddr(b));
      Back(s, PutArg(b));
    }
  }

  predicate Writing(p: Starter) {
    p.Acquired? || p.WroteArg? || p.WroteAddr? || p.Written?
  }

  /** Two harts between ticket and state change mix their words. */
  lemma TwoHolders(s: Sys, b: nat, h: nat)
    requires s.state.Stopped? && s.target.Waiting? && s.wins == s.jumps && b != h
    requires Writing(At(s, h)) && At(s, b) == Acquired(Other(At(s, h).j))
    ensures !Secure(s)
  {
    var j := At(s, h).j;
    if At(s, h).Written? {
      var s1 := Do(s, PutArg(b));
      var s2 := Do(s1, Stake(h));
      assert s2.next.arg1 == Other(j).arg1;
      BootsMixture(s2, j);
      Back(s1, Stake(h));
      Back(s, PutArg(b));
    } else {
      var t := Launch(s, b, Other(j));
      assert At(t, h) == At(s, h);
      var a := if At(s, h).Acquired? then PutArg(h) else if At(s, h).WroteArg? then PutAddr(h) else PutMode(h);
      BootsMixture(Do(t, a), Other(j));
      Back(t, a);
    }
  }

  /** A number above all those in use. */
  lemma {:induction false} Unused(used: set<nat>) returns (n: nat)
    ensures forall i <- used :: i < n
  {
    if used == {} {
      n := 0;
    } else {
      var x :| x in used;
      n := Unused(used - {x});
      assert forall i <- used :: i == x || i in used - {x};
      if n <= x { n := x + 1; }
    }
  }

  /** With the ticket free and one more release to come, two fresh harts both get it. */
  lemma SpareRelease(s: Sys, i: nat)
    requires s.state.Stopped? && s.target.Waiting? && s.wins == s.jumps && !s.ticket && At(s, i).Releasing?
    ensures !Secure(s)
  {
    var n := Unused(s.starters.Keys + {i});
    var b, c, j := n, n + 1, Job(0, 0, U);
    var s1 := Do(s, Acquire(b, j));
    var s2 := Do(s1, Release(i));
    var s3 := Do(s2, Acquire(c, Other(j)));
    assert At(s3, b) == Acquired(j) && At(s3, c) == Acquired(Other(j));
    TwoHolders(s3, c, b);
    Back(s2, Acquire(c, Other(j)));
    Back(s1, Release(i));
    Back(s, Acquire(b, j));
  }

  /** A release too many while the target sleeps. */
  lemma SpareAtRest(s0: Sys, i: nat)
    requires Inv(s0) && At(s0, i).RollingBack? && s0.state.Stopped? && s0.target.Waiting?
    ensures !Secure(Move(s0, i, Releasing))
  {
    var s := Move(s0, i, Releasing);
    assert s0.wins == s0.jumps;
    if !s.ticket {
      SpareRelease(s, i);
    } else {
      var h: nat :| Holds(At(s0, h));
      assert h != i && At(s, h) == At(s0, h);
      var s1 := Do(s, Release(i));
      assert At(s1, h) == At(s0, h);
      if At(s0, h).Releasing? {
        SpareRelease(s1, h);
      } else {
        var b := Unused(s.starters.Keys + {i, h});
        var a := Acquire(b, Other(At(s0, h).j));
        assert At(Do(s1, a), h) == At(s0, h);
        TwoHolders(Do(s1, a), b, h);
        Back(s1, a);
      }
      Back(s, Release(i));
    }
  }

  /** A release too many while the target reads. */
  lemma SpareWhileReading(s0: Sys, i: nat)
    requires Inv(s0) && At(s0, i).RollingBack? && Reading(s0.target) && !s0.target.ReadAll?
    ensures !Secure(Move(s0, i, Releasing))
  {
    var s := Move(s0, i, Releasing);
    var b := Unused(s.starters.Keys + {i});
    var w := s.wins[|s.wins| - 1];
    assert s.wins == s.jumps + [w];
    var s1 := Do(s, Release(i));
    var s2 := Do(s1, Acquire(b, Other(w)));
    var s3 := Do(s2, PutArg(b));
    if s.target.GotStart? {
      ReadsOn(s3, w);
    } else {
      var s4 := Do(s3, PutAddr(b));
      if s.target.ReadArg? {
        ReadsOn(s4, w);
      } else {
        ReadsOn(Do(s4, PutMode(b)), w);
        Back(s4, PutMode(b));
      }
      Back(s3, PutAddr(b));
    }
    Back(s2, PutArg(b));
    Back(s1, Acquire(b, Other(w)));
    Back(s, Release(i));
  }

  /** What the target will have read if nothing is written meanwhile. */
  function Result(t: Target, next: Job): Job
    requires Reading(t)
  {
    match t
    case GotStart => next
    case ReadArg(a) => Job(a, next.addr, next.mode)
    case ReadAddr(a, b) => Job(a, b, next.mode)
    case ReadAll(job) => job
  }

  function Rank(t: Target): nat {
    match t
    case GotStart => 6
    case ReadArg(_) => 5
    case ReadAddr(_, _) => 4
    case ReadAll(_) => 3
    case Running => 2
    case Exiting => 1
    case _ => 0
  }

  /** The step the target takes next on its way to reading all, jumping and stopping. */
  function Onward(t: Target): Action
    requires Reading(t) || t.Running? || t.Exiting?
  {
    match t
    case GotStart => TakeArg
    case ReadArg(_) => TakeAddr
    case ReadAddr(_, _) => TakeMode
    case ReadAll(_) => Jump
    case Running => Stop
    case Exiting => Exit
  }

  lemma {:induction false} ReadsOn(s: Sys, w: Job)
    requires s.wins == s.jumps + [w] && Reading(s.target) && Result(s.target, s.next) != w
    ensures !Secure(s)
    decreases Rank(s.target)
  {
    var t := Do(s, Onward(s.target));
    if s.target.ReadAll? {
      assert t.jumps[|s.jumps|] != t.wins[|s.jumps|];
      Now(t);
    } else {
      ReadsOn(t, w);
    }
    Back(s, Onward(s.target));
  }

  /** A rollback that finds no start pending gives the ticket back once too often. */
  lemma {:induction false} SpareBreaks(s0: Sys, i: nat)
    requires Inv(s0) && At(s0, i).RollingBack? && !s0.state.StartPending?
    ensures !Secure(Move(s0, i, Releasing))
    decreases Rank(s0.target)
  {
    if s0.target.Waiting? {
      SpareAtRest(s0, i);
    } else if Reading(s0.target) && !s0.target.ReadAll? {
      SpareWhileReading(s0, i);
    } else {
      var a := Onward(s0.target);
      Keep(s0, a);
      SpareBreaks(Do(s0, a), i);
      assert Do(Move(s0, i, Releasing), a) == Move(Do(s0, a), i, Releasing);
      Back(Move(s0, i, Releasing), a);
    }
  }

  /** Both the hart that took the pending start away and the one it belonged to give back one ticket. */
  lemma BothRelease(s: Sys, i: nat, w: nat)
    requires s.state.Stopped? && s.target.Waiting? && s.wins == s.jumps && i != w
    requires At(s, i).Releasing? && At(s, w).Releasing?
    ensures !Secure(s)
  {
    var s1 := Do(s, Release(i));
    assert At(s1, w).Releasing?;
    SpareRelease(s1, w);
    Back(s, Release(i));
  }

  /** Taking back a start that belongs to another hart. */
  lemma WrongStart(s0: Sys, i: nat)
    requires Inv(s0) && At(s0, i).RollingBack? && s0.state.StartPending? && s0.target.Waiting?
    requires At(s0, i).k != |s0.claims| - 1
    ensures !Secure(Do(s0, RollBack(i)))
  {
    var s, m := Do(s0, RollBack(i)), |s0.claims| - 1;
    assert ClaimOk(s0, m);
    var w := s0.claims[m].hart;
    if s0.claims[m].told {
      assert s.claims[m].told && s.claims[m].takenBack;
      Now(s);
    } else {
      assert w != i && At(s, w) == At(s0, w);
      if At(s0, w).Kicking? {
        var t := Do(s, KickOk(w));
        assert t.claims[m].told && t.claims[m].takenBack;
        Now(t);
        Back(s, KickOk(w));
      } else {
        var t := Do(s, RollBack(w));
        assert At(t, i).Releasing?;
        BothRelease(t, i, w);
        Back(s, RollBack(w));
      }
    }
  }

  /** Whatever conjunct of being in time a rollback breaks, something can go wrong from then on. */
  lemma LateBreaks(s0: Sys, i: nat)
    requires Inv(s0) && At(s0, i).RollingBack? && !InTime(s0, RollBack(i))
    ensures !Secure(Do(s0, RollBack(i)))
  {
    if !s0.state.StartPending? {
      SpareBreaks(s0, i);
    } else if s0.target.Leaving? {
      var s := Do(s0, RollBack(i));
      Now(Do(s, Finish));
      Back(s, Finish);
    } else {
      WrongStart(s0, i);
    }
  }

  // ---------- main results ----------

  /** The condition is exact, step by step: in every state of every orderly run, an action is in
      time if and only if nothing can go wrong after it unless another kick fails. */
  lemma SafeExactly(run: seq<Sys>, acts: seq<Action>, a: Action)
    requires IsOrderly(run, acts) && Enabled(run[|acts|], a)
    ensures InTime(run[|acts|], a) <==> Secure(Do(run[|acts|], a))
  {
    var s := run[|acts|];
    RunInv(run, acts, |acts|);
    if InTime(s, a) {
      Keep(s, a);
      forall more: seq<Action>, t: Sys | Leads(Do(s, a), more, t) ensures Safe(t) {
        InvSecure(Do(s, a), more, t);
      }
    } else {
      LateBreaks(s, a.i);
    }
  }

  lemma Step(run: seq<Sys>, acts: seq<Action>, a: Action) returns (run2: seq<Sys>, acts2: seq<Action>)
    requires IsOrderly(run, acts) && Enabled(run[|acts|], a) && !a.RollBack?
    ensures IsOrderly(run2, acts2) && run2[|acts2|] == Do(run[|acts|], a)
  {
    run2, acts2 := run + [Do(run[|acts|], a)], acts + [a];
  }

  /** A start whose kick reports failure. */
  lemma FailedKick(i: nat, j: Job) returns (run: seq<Sys>, acts: seq<Action>)
    ensures IsOrderly(run, acts)
    ensures run[|acts|] == Sys(
      StartPending, true, j, map[i := RollingBack(0)], Waiting, [Claim(i, false, false)], [j], [])
  {
    run, acts := [Sys(Stopped, false, j, map[], Waiting, [], [], [])], [];
    run, acts := Step(run, acts, Acquire(i, j));
    run, acts := Step(run, acts, PutArg(i));
    run, acts := Step(run, acts, PutAddr(i));
    run, acts := Step(run, acts, PutMode(i));
    run, acts := Step(run, acts, Stake(i));
    run, acts := Step(run, acts, KickFail(i));
    assert run[|acts|].starters == map[i := RollingBack(0)];
  }

  /** And rollbacks that are not in time do arise: a kick reports failure, yet the target wakes
      and runs, and the starter is about to take back a start that is over. */
  lemma LateRollbackArises(i: nat, j: Job) returns (run: seq<Sys>, acts: seq<Action>)
    ensures IsOrderly(run, acts)
    ensures Enabled(run[|acts|], RollBack(i)) && !InTime(run[|acts|], RollBack(i))
    ensures run[|acts|].jumps == [j]
  {
    run, acts := FailedKick(i, j);
    run, acts := Step(run, acts, See);
    run, acts := Step(run, acts, Finish);
    run, acts := Step(run, acts, TakeArg);
    run, acts := Step(run, acts, TakeAddr);
    run, acts := Step(run, acts, TakeMode);
    run, acts := Step(run, acts, Jump);
  }
}
