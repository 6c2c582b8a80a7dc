/** Starting a stopped hart: any number of harts race to start one target.

    Each action is one access to shared memory. The target is not the boot hart,
    so it begins stopped with its start ticket free. */
module HartStart {

  datatype HartState = Stopped | StartPending | Started | StopPending

  /** The modes a hart may be started in. */
  datatype Mode = U | S

  /** What a start request asks the target to jump with. */
  datatype Job = Job(arg1: nat, addr: nat, mode: Mode)

  /** Where a caller of hart start stands; `k` is the number of its claim on the target. */
  datatype Starter =
    | Out
    | Acquired(j: Job)
    | WroteArg(j: Job)
    | WroteAddr(j: Job)
    | Written(j: Job)
    | Kicking(k: nat)       // the state change succeeded; interrupt or device start comes next
    | RollingBack(k: nat)   // the kick failed
    | Releasing             // the request failed; ticket not yet given back

  /** Where the target stands. */
  datatype Target =
    | Waiting
    | Leaving                             // has seen the pending start
    | GotStart                            // has changed its state to started
    | ReadArg(arg1: nat)
    | ReadAddr(arg1: nat, addr: nat)
    | ReadAll(job: Job)                   // ticket not yet given back
    | Running
    | Exiting
    | Hung

  /** A successful state change: whose it was, whether that hart was told that the start
      succeeded, and whether some hart has taken it back. */
  datatype Claim = Claim(hart: nat, told: bool, takenBack: bool)

  /** The shared words, the control state, and the history: all claims, the jobs of the
      claims that were not taken back, and the jumps made. */
  datatype Sys = Sys(
    state: HartState, ticket: bool, next: Job,
    starters: map<nat, Starter>, target: Target,
    claims: seq<Claim>, wins: seq<Job>, jumps: seq<Job>)

  function At(s: Sys, i: nat): Starter {
    if i in s.starters then s.starters[i] else Out
  }

  function Move(s: Sys, i: nat, p: Starter): Sys {
    s.(starters := s.starters[i := p])
  }

  function DropLast<T>(q: seq<T>): seq<T> {
    if q == [] then [] else q[..|q| - 1]
  }

  /** The start that is pending is the last one claimed. */
  function TakeBack(q: seq<Claim>): seq<Claim> {
    if q == [] then [] else q[|q| - 1 := q[|q| - 1].(takenBack := true)]
  }

  function Tell(q: seq<Claim>, k: nat): seq<Claim> {
    if k < |q| then q[k := q[k].(told := true)] else q
  }

  datatype Action =
    | Acquire(i: nat, j: Job)
    | PutArg(i: nat)
    | PutAddr(i: nat)
    | PutMode(i: nat)
    | Stake(i: nat)
    | KickOk(i: nat)
    | KickFail(i: nat)
    | RollBack(i: nat)
    | Release(i: nat)
    | See
    | Finish
    | TakeArg
    | TakeAddr
    | TakeMode
    | Jump
    | Stop
    | Exit

  predicate Enabled(s: Sys, a: Action) {
    match a
    case Acquire(i, _) => At(s, i).Out?
    case PutArg(i) => At(s, i).Acquired?
    case PutAddr(i) => At(s, i).WroteArg?
    case PutMode(i) => At(s, i).WroteAddr?
    case Stake(i) => At(s, i).Written?
    case KickOk(i) => At(s, i).Kicking?
    case KickFail(i) => At(s, i).Kicking?
    case RollBack(i) => At(s, i).RollingBack?
    case Release(i) => At(s, i).Releasing?
    case See => s.target.Waiting? && s.state.StartPending?
    case Finish => s.target.Leaving?
    case TakeArg => s.target.GotStart?
    case TakeAddr => s.target.ReadArg?
    case TakeMode => s.target.ReadAddr?
    case Jump => s.target.ReadAll?
    case Stop => s.target.Running?
    case Exit => s.target.Exiting?
  }

  function DoStake(s: Sys, i: nat): Sys
    requires At(s, i).Written?
  {
    if s.state.Stopped? then
      Move(s, i, Kicking(|s.claims|)).(
        state := StartPending,
        claims := s.claims + [Claim(i, false, false)],
        wins := s.wins + [At(s, i).j])
    else Move(s, i, Releasing)
  }

  /** The state goes back whoever's start is pending. */
  function DoRollBack(s: Sys, i: nat): Sys {
    if s.state.StartPending? then
      Move(s, i, Releasing).(state := Stopped, claims := TakeBack(s.claims), wins := DropLast(s.wins))
    else Move(s, i, Releasing)
  }

  function Do(s: Sys, a: Action): Sys
    requires Enabled(s, a)
  {
    match a
    case Acquire(i, j) => if s.ticket then s else Move(s, i, Acquired(j)).(ticket := true)
    case PutArg(i) => Move(s, i, WroteArg(At(s, i).j)).(next := s.next.(arg1 := At(s, i).j.arg1))
    case PutAddr(i) => Move(s, i, WroteAddr(At(s, i).j)).(next := s.next.(addr := At(s, i).j.addr))
    case PutMode(i) => Move(s, i, Written(At(s, i).j)).(next := s.next.(mode := At(s, i).j.mode))
    case Stake(i) => DoStake(s, i)
    case KickOk(i) => Move(s, i, Out).(claims := Tell(s.claims, At(s, i).k))
    case KickFail(i) => Move(s, i, RollingBack(At(s, i).k))
    case RollBack(i) => DoRollBack(s, i)
    case Release(i) => Move(s, i, Out).(ticket := false)
    case See => s.(target := Leaving)
    case Finish => if s.state.StartPending? then s.(state := Started, target := GotStart) else s.(target := Hung)
    case TakeArg => s.(target := ReadArg(s.next.arg1))
    case TakeAddr => s.(target := ReadAddr(s.target.arg1, s.next.addr))
    case TakeMode => s.(target := ReadAll(Job(s.target.arg1, s.target.addr, s.next.mode)))
    case Jump => s.(target := Running, ticket := false, jumps := s.jumps + [s.target.job])
    case Stop => if s.state.Started? then s.(state := StopPending, target := Exiting) else s
    case Exit => if s.state.StopPending? then s.(state := Stopped, target := Waiting) else s.(target := Hung)
  }

  predicate Init(s: Sys) {
    && s.state.Stopped? && !s.ticket && s.starters == map[] && s.target.Waiting?
    && s.claims == [] && s.wins == [] && s.jumps == []
  }

  /** A failed kick is taken back in time: the target still sleeps and the pending start is
      the one being taken back. */
  predicate InTime(s: Sys, a: Action)
    requires Enabled(s, a)
  {
    a.RollBack? ==> s.state.StartPending? && s.target.Waiting? && At(s, a.i).k == |s.claims| - 1
  }

  /** A run in which every failed kick is taken back in time. */
  ghost predicate IsOrderly(run: seq<Sys>, acts: seq<Action>) {
    && |run| == |acts| + 1 && Init(run[0])
    && forall i :: 0 <= i < |acts| ==>
         Enabled(run[i], acts[i]) && InTime(run[i], acts[i]) && run[i + 1] == Do(run[i], acts[i])
  }

  /** No hart was told that its start succeeded when the start has been taken back. */
  predicate Honest(claims: seq<Claim>) {
    forall k :: 0 <= k < |claims| ==> !(claims[k].told && claims[k].takenBack)
  }

  /** Every jump so far used the words of exactly one start, in order; at most one start has won
      since the last jump; a running target has served every winner; and reports are honest. */
  predicate Safe(s: Sys) {
    && s.jumps <= s.wins && |s.wins| <= |s.jumps| + 1 && !s.target.Hung?
    && (s.target.Running? ==> s.jumps == s.wins)
    && Honest(s.claims)
  }

  // ---------- the invariant ----------

  /** Holds the ticket without a start of its own in flight. */
  predicate Holds(p: Starter) {
    p.Acquired? || p.WroteArg? || p.WroteAddr? || p.Written? || p.Releasing?
  }

  /** Has a claim that it has not yet reported on. */
  predicate Owns(p: Starter) {
    p.Kicking? || p.RollingBack?
  }

  /** A start has won and the target has not jumped yet. */
  predicate InFlight(s: Sys) {
    |s.wins| == |s.jumps| + 1
  }

  /** The words a holder has written so far are its own. */
  predicate WroteOwn(p: Starter, next: Job) {
    match p
    case WroteArg(j) => next.arg1 == j.arg1
    case WroteAddr(j) => next.arg1 == j.arg1 && next.addr == j.addr
    case Written(j) => next == j
    case _ => true
  }

  /** Whatever the target has read so far belongs to the start in flight. */
  predicate ReadOwn(t: Target, j: Job) {
    match t
    case ReadArg(a) => a == j.arg1
    case ReadAddr(a, b) => a == j.arg1 && b == j.addr
    case ReadAll(job) => job == j
    case _ => true
  }

  predicate Reading(t: Target) {
    t.GotStart? || t.ReadArg? || t.ReadAddr? || t.ReadAll?
  }

  /** What a starter's position says about the shared words and its claim. */
  predicate StarterOk(s: Sys, i: nat) {
    var p := At(s, i);
    && (Holds(p) ==> s.ticket && !InFlight(s) && WroteOwn(p, s.next))
    && (Owns(p) ==> p.k < |s.claims| && s.claims[p.k] == Claim(i, false, false))
  }

  /** An unreported claim that nobody took back belongs to a hart that is still busy with it. */
  predicate ClaimOk(s: Sys, k: nat)
    requires k < |s.claims|
  {
    var c := s.claims[k];
    && !(c.told && c.takenBack)
    && (!c.told && !c.takenBack ==> Owns(At(s, c.hart)) && At(s, c.hart).k == k)
  }

  /** Target position, hart state, ticket and scratch words agree. */
  predicate TargetOk(s: Sys) {
    && s.jumps <= s.wins && |s.wins| <= |s.jumps| + 1
    && (InFlight(s) ==> s.ticket && s.next == s.wins[|s.wins| - 1] && ReadOwn(s.target, s.next))
    && (s.state.StartPending? <==> InFlight(s) && !Reading(s.target))
    && (s.state.StartPending? ==> |s.claims| > 0 && !s.claims[|s.claims| - 1].takenBack)
    && (Reading(s.target) ==> InFlight(s) && s.state.Started?)
    && (s.target.Leaving? ==> s.state.StartPending?)
    && (s.target.Running? ==> s.state.Started?)
    && (s.target.Exiting? ==> s.state.StopPending?)
    && (s.target.Waiting? ==> s.state.Stopped? || s.state.StartPending?)
    && !s.target.Hung?
  }

  /** A taken ticket belongs to the start in flight or to a hart that holds it. */
  ghost predicate TicketOk(s: Sys) {
    s.ticket && !InFlight(s) ==> exists h: nat :: Holds(At(s, h))
  }

  ghost predicate Inv(s: Sys) {
    && TargetOk(s) && TicketOk(s)
    && (forall i: nat :: StarterOk(s, i))
    && (forall i: nat, k: nat :: Holds(At(s, i)) && Holds(At(s, k)) ==> i == k)
    && (forall k :: 0 <= k < |s.claims| ==> ClaimOk(s, k))
  }

  /** Actions of a starter, as opposed to the target's. */
  predicate Starts(a: Action) {
    || a.Acquire? || a.PutArg? || a.PutAddr? || a.PutMode? || a.Stake?
    || a.KickOk? || a.KickFail? || a.RollBack? || a.Release?
  }

  /** An action moves one starter at most. */
  predicate Moves(a: Action, i: nat) {
    Starts(a) && a.i == i
  }

  lemma OthersStay(s: Sys, a: Action, i: nat)
    requires Enabled(s, a) && !Moves(a, i)
    ensures At(Do(s, a), i) == At(s, i)
  {
  }

  lemma KeepTarget(s: Sys, a: Action)
    requires Inv(s) && Enabled(s, a) && InTime(s, a)
    ensures TargetOk(Do(s, a))
  {
    assert Starts(a) ==> StarterOk(s, a.i);
  }

  lemma KeepStarter(s: Sys, a: Action, i: nat)
    requires Inv(s) && Enabled(s, a) && InTime(s, a)
    ensures StarterOk(Do(s, a), i)
  {
    assert StarterOk(s, i);
    assert Starts(a) ==> StarterOk(s, a.i);
    if !Moves(a, i) {
      OthersStay(s, a, i);
      assert Starts(a) && Holds(At(s, a.i)) ==> !Holds(At(s, i));
    }
  }

  lemma KeepUnique(s: Sys, a: Action, i: nat, k: nat)
    requires Inv(s) && Enabled(s, a) && InTime(s, a)
    requires Holds(At(Do(s, a), i)) && Holds(At(Do(s, a), k))
    ensures i == k
  {
    if !Moves(a, i) {
      OthersStay(s, a, i);
    }
    if !Moves(a, k) {
      OthersStay(s, a, k);
    }
    assert StarterOk(s, i) && StarterOk(s, k);
  }

  lemma KeepClaim(s: Sys, a: Action, k: nat)
    requires Inv(s) && Enabled(s, a) && InTime(s, a) && k < |Do(s, a).claims|
    ensures ClaimOk(Do(s, a), k)
  {
    assert Starts(a) ==> StarterOk(s, a.i);
    if k < |s.claims| {
      assert ClaimOk(s, k);
      var h := s.claims[k].hart;
      if !Moves(a, h) {
        OthersStay(s, a, h);
      }
    }
  }

  lemma KeepTicket(s: Sys, a: Action)
    requires Inv(s) && Enabled(s, a) && InTime(s, a)
    ensures TicketOk(Do(s, a))
  {
    var t := Do(s, a);
    if t.ticket && !InFlight(t) {
      if Starts(a) && Holds(At(t, a.i)) {
      } else if s.ticket && !InFlight(s) {
        var h: nat :| Holds(At(s, h));
        if !Moves(a, h) {
          OthersStay(s, a, h);
        }
        assert Holds(At(t, h));
      }
    }
  }

  lemma Keep(s: Sys, a: Action)
    requires Inv(s) && Enabled(s, a) && InTime(s, a)
    ensures Inv(Do(s, a))
  {
    KeepTarget(s, a);
    KeepTicket(s, a);
    forall i: nat ensures StarterOk(Do(s, a), i) {
      KeepStarter(s, a, i);
    }
    forall i: nat, k: nat | Holds(At(Do(s, a), i)) && Holds(At(Do(s, a), k)) ensures i == k {
      KeepUnique(s, a, i, k);
    }
    forall k | 0 <= k < |Do(s, a).claims| ensures ClaimOk(Do(s, a), k) {
      KeepClaim(s, a, k);
    }
  }

  lemma InvSafe(s: Sys)
    requires Inv(s)
    ensures Safe(s)
  {
    forall k | 0 <= k < |s.claims| ensures !(s.claims[k].told && s.claims[k].takenBack) {
      assert ClaimOk(s, k);
    }
  }

  lemma {:induction false} RunInv(run: seq<Sys>, acts: seq<Action>, n: nat)
    requires IsOrderly(run, acts) && n <= |acts|
    ensures Inv(run[n])
  {
    if n > 0 {
      RunInv(run, acts, n - 1);
      Keep(run[n - 1], acts[n - 1]);
    }
  }

  // ---------- main results ----------

  /** In every orderly run, with any number of racing starters and any number of stops and
      restarts, the target always jumps with exactly the words of the one start that won, and
      no hart is told of a success that was taken back. */
  lemma WinnerOnly(run: seq<Sys>, acts: seq<Action>, n: nat)
    requires IsOrderly(run, acts) && n <= |acts|
    ensures Safe(run[n])
    ensures run[n].target.ReadAll? ==> run[n].wins == run[n].jumps + [run[n].target.job]
  {
    RunInv(run, acts, n);
    InvSafe(run[n]);
  }
}
