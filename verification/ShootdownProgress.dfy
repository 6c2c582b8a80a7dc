/** Why the shootdown machine never hangs: no wake-up is lost, some hart can
    always act while work is outstanding, and outstanding work runs out. */
module ShootdownProgress {
  import opened Wrappers
  import opened Fifo
  import opened TlbMerge
  import opened Shootdown
  import opened ShootdownSafety

  // ---------- no lost interrupt ----------

  /** `x` found the event word of `t` empty and still has to raise the interrupt. */
  predicate AboutToRaise(x: Hart, t: nat) {
    || (x.phase.Sending? && x.phase.step == RawSending(t))
    || x.phase == Poking(t)
  }

  /** `x` has put its request on the queue of `t` and still has to set the event bit. */
  predicate Announcing(x: Hart, t: nat) {
    x.phase.Sending? && (x.phase.step == Counting(t) || x.phase.step == Signalling(t))
  }

  ghost predicate Raiser(s: Sys, t: nat) {
    exists h :: 0 <= h < |s| && AboutToRaise(s[h], t)
  }

  ghost predicate Announcer(s: Sys, t: nat) {
    exists h :: 0 <= h < |s| && Announcing(s[h], t)
  }

  /** A set event bit has an interrupt on its way, or the handler is about to read the word. */
  ghost predicate NoLostIpi(s: Sys, t: nat)
    requires t < |s|
  {
    s[t].word != {} ==> s[t].raw || s[t].handler.Cleared? || Raiser(s, t)
  }

  /** A queued entry has its event bit set, is being drained, or is about to be announced. */
  ghost predicate NoLostEntry(s: Sys, t: nat)
    requires t < |s|
  {
    s[t].fifo != [] ==> TLB_EVENT in s[t].word || s[t].handler.Draining? || Announcer(s, t)
  }

  /** Interrupts are taken only outside firmware code, and no hart is in the retry branch. */
  predicate ControlOk(x: Hart) {
    && (!x.handler.NoHandler? ==> x.phase.Idle?)
    && (x.handler.Cleared? ==> x.proc.NoProc?)
    && (!x.proc.NoProc? ==> x.phase.Syncing? || x.handler.Draining?)
    && (x.phase.Sending? ==> !x.phase.step.Drain?)
  }

  ghost predicate Wakes(s: Sys) {
    forall t :: 0 <= t < |s| ==> ControlOk(s[t]) && NoLostIpi(s, t) && NoLostEntry(s, t)
  }

  /** The configuration the defaults give: an IPI device and a queue slot per other hart. */
  predicate Provisioned(c: Config) {
    c.ipiDev && c.cap + 1 >= c.n
  }

  ghost predicate Live(c: Config, s: Sys) {
    Provisioned(c) && Inv(c, s) && Wakes(s)
  }

  lemma RoomToEnqueue(c: Config, s: Sys, h: nat)
    requires Provisioned(c) && Inv(c, s) && Enabled(c, s, Enqueue(h))
    ensures |s[s[h].phase.step.t].fifo| < c.cap
  {
    var t := s[h].phase.step.t;
    assert HartOk(s[h], |s|, h) && HartOk(s[t], |s|, t);
    NotYetPending(c, s, h, t);
    Pigeonhole(s[t].fifo, Below(c.n) - {t, h});
    assert Below(c.n) == (Below(c.n) - {t, h}) + {t, h};
    assert |{t, h}| == 2;
  }

  /** Witnesses carry over when every other hart keeps its phase. */
  lemma WitnessKept(s: Sys, s': Sys, h: nat, t: nat)
    requires |s'| == |s| && h < |s|
    requires forall i :: 0 <= i < |s| && i != h ==> s'[i].phase == s[i].phase
    requires AboutToRaise(s[h], t) ==> AboutToRaise(s'[h], t)
    ensures Raiser(s, t) ==> Raiser(s', t)
  {
    if Raiser(s, t) {
      var i :| 0 <= i < |s| && AboutToRaise(s[i], t);
      assert AboutToRaise(s'[i], t);
    }
  }

  lemma AnnouncerKept(s: Sys, s': Sys, h: nat, t: nat)
    requires |s'| == |s| && h < |s|
    requires forall i :: 0 <= i < |s| && i != h ==> s'[i].phase == s[i].phase
    requires Announcing(s[h], t) ==> Announcing(s'[h], t)
    ensures Announcer(s, t) ==> Announcer(s', t)
  {
    if Announcer(s, t) {
      var i :| 0 <= i < |s| && Announcing(s[i], t);
      assert Announcing(s'[i], t);
    }
  }

  lemma PhaseFrame(c: Config, s: Sys, a: Action)
    requires Enabled(c, s, a)
    ensures forall i :: 0 <= i < |s| && i != a.h ==> Do(c, s, a)[i].phase == s[i].phase
  {
  }

  /** An entry about to be queued has a slot to go to. */
  predicate HasRoom(c: Config, s: Sys, a: Action)
    requires Enabled(c, s, a)
  {
    a.Enqueue? ==> |s[s[a.h].phase.step.t].fifo| < c.cap
  }

  lemma WakesControl(c: Config, s: Sys, a: Action, t: nat)
    requires Enabled(c, s, a) && t < |s| && HasRoom(c, s, a) && ControlOk(s[t]) && ControlOk(s[a.h])
    ensures ControlOk(Do(c, s, a)[t])
  {
  }

  lemma RaiserMoves(c: Config, s: Sys, a: Action, t: nat)
    requires c.ipiDev && Enabled(c, s, a) && t < |s|
    ensures Raiser(s, t) ==> Raiser(Do(c, s, a), t) || Do(c, s, a)[t].raw
  {
    var s' := Do(c, s, a);
    PhaseFrame(c, s, a);
    if AboutToRaise(s[a.h], t) && !AboutToRaise(s'[a.h], t) {
      assert s'[t].raw;
    } else {
      WitnessKept(s, s', a.h, t);
    }
  }

  lemma WakesIpi(c: Config, s: Sys, a: Action, t: nat)
    requires c.ipiDev && Enabled(c, s, a) && t < |s| && NoLostIpi(s, t) && ControlOk(s[a.h]) && ControlOk(s[t])
    ensures NoLostIpi(Do(c, s, a), t)
  {
    var s' := Do(c, s, a);
    RaiserMoves(c, s, a, t);
    if s[t].word == {} && s'[t].word != {} {
      assert AboutToRaise(s'[a.h], t);
    }
  }

  lemma EntryArrives(c: Config, s: Sys, a: Action, t: nat)
    requires Enabled(c, s, a) && t < |s| && HasRoom(c, s, a)
    requires s[t].fifo == [] && Do(c, s, a)[t].fifo != []
    ensures Announcing(Do(c, s, a)[a.h], t)
  {
  }

  lemma AnnouncerMoves(c: Config, s: Sys, a: Action, t: nat)
    requires Enabled(c, s, a) && t < |s| && ControlOk(s[a.h]) && HartOk(s[a.h], |s|, a.h)
    ensures Announcer(s, t) ==> Announcer(Do(c, s, a), t) || TLB_EVENT in Do(c, s, a)[t].word
  {
    var s' := Do(c, s, a);
    PhaseFrame(c, s, a);
    if Announcing(s[a.h], t) && !Announcing(s'[a.h], t) {
      assert TLB_EVENT in s'[t].word;
    } else {
      AnnouncerKept(s, s', a.h, t);
    }
  }

  lemma WakesEntry(c: Config, s: Sys, a: Action, t: nat)
    requires Enabled(c, s, a) && t < |s| && HasRoom(c, s, a) && NoLostEntry(s, t)
    requires ControlOk(s[t]) && ControlOk(s[a.h]) && HartOk(s[a.h], |s|, a.h)
    ensures NoLostEntry(Do(c, s, a), t)
  {
    var s' := Do(c, s, a);
    AnnouncerMoves(c, s, a, t);
    if s[t].fifo == [] && s'[t].fifo != [] {
      EntryArrives(c, s, a, t);
      assert Announcer(s', t);
    } else if s[t].fifo != [] && TLB_EVENT in s[t].word && TLB_EVENT !in s'[t].word {
      assert a.Exchange? && a.h == t;
    }
  }

  lemma LiveStep(c: Config, s: Sys, a: Action)
    requires Live(c, s) && Enabled(c, s, a)
    ensures Live(c, Do(c, s, a))
  {
    KeepStep(c, s, a);
    if a.Enqueue? { RoomToEnqueue(c, s, a.h); }
    assert HartOk(s[a.h], |s|, a.h) && ControlOk(s[a.h]);
    forall t | 0 <= t < |s|
      ensures ControlOk(Do(c, s, a)[t]) && NoLostIpi(Do(c, s, a), t) && NoLostEntry(Do(c, s, a), t)
    {
      assert ControlOk(s[t]) && NoLostIpi(s, t) && NoLostEntry(s, t);
      WakesControl(c, s, a, t);
      WakesIpi(c, s, a, t);
      WakesEntry(c, s, a, t);
    }
  }

  /** No wake-up is ever lost: in every state of every run, set event bits and queued
      entries are on somebody's to-do list. */
  lemma {:induction false} RunLive(c: Config, run: seq<Sys>, acts: seq<Action>, k: nat)
    requires Provisioned(c) && IsRun(c, run, acts) && k < |run|
    ensures Live(c, run[k])
  {
    if k == 0 {
      InitInv(c, run[0]);
    } else {
      RunLive(c, run, acts, k - 1);
      LiveStep(c, run[k - 1], acts[k - 1]);
    }
  }

  lemma OnlyExchangeTakes(c: Config, s: Sys, a: Action, t: nat, ev: nat)
    requires Enabled(c, s, a) && t < |s| && ev in s[t].word
    ensures ev in Do(c, s, a)[t].word <==> a != Exchange(t)
  {
  }

  /** A set event bit is taken by the owner's next exchange and by nothing else: while the owner does
      not exchange, the bit stays set, and the first exchange takes it. */
  lemma {:induction false} BitTakenOnce(c: Config, run: seq<Sys>, acts: seq<Action>, i: nat, j: nat, t: nat, ev: nat)
    requires IsRun(c, run, acts) && i <= j < |run| && t < |run[i]| && ev in run[i][t].word
    requires forall m :: i <= m < j ==> acts[m] != Exchange(t)
    ensures |run[j]| == |run[i]| && ev in run[j][t].word
    ensures j < |acts| ==> (ev !in run[j + 1][t].word <==> acts[j] == Exchange(t))
  {
    if i < j {
      BitTakenOnce(c, run, acts, i, j - 1, t, ev);
    }
    if j < |acts| {
      OnlyExchangeTakes(c, run[j], acts[j], t, ev);
    }
  }

  // ---------- somebody can always act ----------

  /** An action that finishes work already begun rather than starting new work. */
  predicate Finishing(a: Action) {
    !a.Begin? && !a.OtherEvent?
  }

  predicate Quiet(x: Hart) {
    Free(x) && x.fifo == [] && x.sync == 0 && x.word == {} && !x.raw
  }

  ghost predicate CanFinish(c: Config, s: Sys) {
    exists a: Action :: Finishing(a) && Enabled(c, s, a)
  }

  /** A hart that is neither free nor waiting on its counter can act by itself. */
  lemma ActsAlone(c: Config, s: Sys, h: nat)
    requires Live(c, s) && h < |s|
    requires !s[h].proc.NoProc? || !s[h].handler.NoHandler? || s[h].phase.Sending? || s[h].phase.Poking?
          || (s[h].phase.Syncing? && (s[h].sync <= 0 || s[h].fifo != []))
          || (s[h].raw && Free(s[h]))
    ensures CanFinish(c, s)
  {
    var x := s[h];
    assert HartOk(x, |s|, h) && ControlOk(x);
    if x.proc.Taken? {
      assert Enabled(c, s, RunFences(h));
    } else if x.proc.Fenced? {
      if x.proc.todo == {} {
        assert Enabled(c, s, EndEntry(h));
      } else {
        var src :| src in x.proc.todo;
        assert Enabled(c, s, Decrement(h, src));
      }
    } else if x.handler.Cleared? {
      assert Enabled(c, s, Exchange(h));
    } else if x.handler.Draining? {
      assert Enabled(c, s, if x.fifo == [] then EndDrain(h) else Dequeue(h));
    } else if x.phase.Poking? {
      assert Enabled(c, s, OtherRaw(h));
    } else if x.phase.Sending? {
      SenderActs(c, s, h);
    } else if x.phase.Syncing? {
      assert Enabled(c, s, if x.sync <= 0 then Return(h) else Dequeue(h));
    } else {
      assert Enabled(c, s, TakeIpi(h));
    }
  }

  lemma SenderActs(c: Config, s: Sys, h: nat)
    requires Live(c, s) && h < |s| && Sends(s[h])
    ensures CanFinish(c, s)
  {
    var p := s[h].phase;
    assert HartOk(s[h], |s|, h) && ControlOk(s[h]);
    match p.step
    case NextTarget =>
      if p.todo == {} {
        assert Enabled(c, s, StartSync(h));
      } else {
        var t :| t in p.todo;
        assert Enabled(c, s, if t == h then FenceSelf(h) else Offer(h, t));
      }
    case Enqueuing(_) => assert Enabled(c, s, Enqueue(h));
    case Counting(_) => assert Enabled(c, s, Count(h));
    case Signalling(_) => assert Enabled(c, s, Signal(h));
    case RawSending(_) => assert Enabled(c, s, RawSend(h));
  }

  /** A non-empty queue of a free hart always has someone who can act on it. */
  lemma QueueServed(c: Config, s: Sys, t: nat)
    requires Live(c, s) && t < |s| && Free(s[t]) && (s[t].fifo != [] || s[t].word != {})
    ensures CanFinish(c, s)
  {
    assert NoLostEntry(s, t) && NoLostIpi(s, t);
    if Announcer(s, t) {
      var h :| 0 <= h < |s| && Announcing(s[h], t);
      ActsAlone(c, s, h);
    } else if Raiser(s, t) {
      var h :| 0 <= h < |s| && AboutToRaise(s[h], t);
      ActsAlone(c, s, h);
    } else {
      ActsAlone(c, s, t);
    }
  }

  /** A hart whose counter is positive is owed a decrement by some hart that can act. */
  lemma WaiterServed(c: Config, s: Sys, h: nat)
    requires Live(c, s) && h < |s| && s[h].phase.Syncing? && s[h].sync > 0
    ensures CanFinish(c, s)
  {
    assert Conserved(s, h);
    assert Waiters(s, h) != {};
    var t :| t in Waiters(s, h);
    if InProcess(s[t], h) {
      ActsAlone(c, s, t);
    } else {
      assert Queued(s[t], h) && s[t].fifo != [];
      if Free(s[t]) { QueueServed(c, s, t); } else { ActsAlone(c, s, t); }
    }
  }

  lemma IdleCounter(c: Config, s: Sys, h: nat)
    requires Inv(c, s) && h < |s| && s[h].phase.Idle?
    ensures s[h].sync == 0
  {
    assert Conserved(s, h);
    forall t | 0 <= t < |s| ensures !Pending(s[t], h) {
      assert PairOk(s[h], h, s[t], t);
    }
    assert Waiters(s, h) == {};
  }

  /** Deadlock freedom: unless every hart is quiet, some begun work can be carried on. */
  lemma DeadlockFree(c: Config, s: Sys)
    requires Live(c, s)
    ensures CanFinish(c, s) || forall h :: 0 <= h < |s| ==> Quiet(s[h])
  {
    if h :| 0 <= h < |s| && !Quiet(s[h]) {
      if s[h].phase.Syncing? && s[h].sync > 0 {
        WaiterServed(c, s, h);
      } else if !Free(s[h]) || s[h].raw {
        ActsAlone(c, s, h);
      } else {
        IdleCounter(c, s, h);
        QueueServed(c, s, h);
      }
    }
  }

  // ---------- outstanding work runs out ----------

  function FifoCost(q: seq<TlbInfo>): nat {
    if q == [] then 0 else 3 + |q[0].smask| + FifoCost(q[1..])
  }

  function ProcCost(p: Proc): nat {
    match p
    case NoProc => 0
    case Taken(e) => 2 + |e.smask|
    case Fenced(todo) => 1 + |todo|
  }

  /** How far the send loop has come with the current target, out of the 20 it costs. */
  function StepDone(step: SendStep): nat {
    match step
    case NextTarget => 0
    case Enqueuing(_) => 1
    case Drain => 1
    case Counting(_) => 8
    case Signalling(_) => 9
    case RawSending(_) => 10
  }

  function PhaseCost(p: Phase): int {
    match p
    case Idle => 0
    case Poking(_) => 5
    case Sending(_, todo, step) => 2 + 20 * |todo| - StepDone(step)
    case Syncing(_, _, _) => 1
  }

  function HandlerCost(x: Hart): nat {
    (if x.raw then 4 else 0) + match x.handler case NoHandler => 0 case Cleared => 3 case Draining => 1
  }

  function Cost(x: Hart): int {
    PhaseCost(x.phase) + ProcCost(x.proc) + HandlerCost(x) + FifoCost(x.fifo)
  }

  function Total(s: Sys): int {
    if s == [] then 0 else Cost(s[0]) + Total(s[1..])
  }

  lemma {:induction false} TotalUpdate(s: Sys, i: nat, x: Hart)
    requires i < |s|
    ensures Total(s[i := x]) == Total(s) - Cost(s[i]) + Cost(x)
  {
    if i == 0 {
      assert s[0 := x] == [x] + s[1..];
    } else {
      assert s[i := x][1..] == s[1..][i - 1 := x];
      TotalUpdate(s[1..], i - 1, x);
    }
  }

  lemma {:induction false} FifoCostUpdate(q: seq<TlbInfo>, i: nat, e: TlbInfo)
    requires i < |q|
    ensures FifoCost(q[i := e]) == FifoCost(q) - |q[i].smask| + |e.smask|
  {
    if i == 0 {
      assert q[0 := e] == [e] + q[1..];
    } else {
      assert q[i := e][1..] == q[1..][i - 1 := e];
      FifoCostUpdate(q[1..], i - 1, e);
    }
  }

  lemma {:induction false} FifoCostAppend(q: seq<TlbInfo>, e: TlbInfo)
    ensures FifoCost(q + [e]) == FifoCost(q) + 3 + |e.smask|
  {
    if q == [] {
      assert q + [e] == [e];
    } else {
      assert (q + [e])[1..] == q[1..] + [e];
      FifoCostAppend(q[1..], e);
    }
  }

  /** Two harts change: the total moves by the sum of their moves. */
  lemma TotalPair(s: Sys, s': Sys, h: nat, t: nat)
    requires |s'| == |s| && h < |s| && t < |s| && h != t
    requires forall i :: 0 <= i < |s| && i != h && i != t ==> s'[i] == s[i]
    ensures Total(s') == Total(s) - Cost(s[h]) - Cost(s[t]) + Cost(s'[h]) + Cost(s'[t])
  {
    assert s' == s[h := s'[h]][t := s'[t]];
    TotalUpdate(s, h, s'[h]);
    TotalUpdate(s[h := s'[h]], t, s'[t]);
  }

  lemma TotalOne(s: Sys, s': Sys, h: nat)
    requires |s'| == |s| && h < |s|
    requires forall i :: 0 <= i < |s| && i != h ==> s'[i] == s[i]
    ensures Total(s') == Total(s) - Cost(s[h]) + Cost(s'[h])
  {
    assert s' == s[h := s'[h]];
    TotalUpdate(s, h, s'[h]);
  }

  lemma CostNonNegative(x: Hart, n: nat, h: nat)
    requires HartOk(x, n, h) && ControlOk(x)
    ensures Cost(x) >= 0
  {
    if x.phase.Sending? && !x.phase.step.NextTarget? {
      assert x.phase.step.t in x.phase.todo;
      assert |x.phase.todo| >= 1;
    }
  }

  lemma {:induction false} TotalNonNegative(s: Sys, n: nat, off: nat)
    requires forall i :: 0 <= i < |s| ==> HartOk(s[i], n, off + i) && ControlOk(s[i])
    ensures Total(s) >= 0
  {
    if s != [] {
      CostNonNegative(s[0], n, off);
      TotalNonNegative(s[1..], n, off + 1);
    }
  }

  lemma RemovedOne(todo: set<nat>, t: nat)
    requires t in todo
    ensures |todo - {t}| == |todo| - 1
  {
  }

  lemma SenderPays(c: Config, s: Sys, a: Action)
    requires Enabled(c, s, a) && (a.FenceSelf? || a.Count? || a.StartSync? || a.Return?)
    ensures Total(Do(c, s, a)) < Total(s)
  {
    if a.FenceSelf? { RemovedOne(s[a.h].phase.todo, a.h); }
    TotalOne(s, Do(c, s, a), a.h);
  }

  lemma ReceiverPays(c: Config, s: Sys, a: Action)
    requires Enabled(c, s, a) && ControlOk(s[a.h])
    requires a.Dequeue? || a.RunFences? || a.EndEntry? || a.TakeIpi? || a.Exchange? || a.EndDrain?
    ensures Total(Do(c, s, a)) < Total(s)
  {
    TotalOne(s, Do(c, s, a), a.h);
  }

  lemma OfferCost(c: Config, s: Sys, a: Action)
    requires Live(c, s) && Enabled(c, s, a) && a.Offer?
    ensures var (q, u) := InplaceUpdate(s[a.t].fifo, s[a.h].phase.r.info, UpdateCb);
      FifoCost(q) <= FifoCost(s[a.t].fifo) + if u == Unchanged then 0 else 1
  {
    var h, t := a.h, a.t;
    assert HartOk(s[h], |s|, h) && HartOk(s[t], |s|, t);
    NotYetPending(c, s, h, t);
    var fifo := s[t].fifo;
    var k := OfferKeepsFifo(fifo, s[h].phase.r.info, |s|, t, h);
    var (q, u) := InplaceUpdate(fifo, s[h].phase.r.info, UpdateCb);
    if u != Unchanged {
      FifoCostUpdate(fifo, k, q[k]);
      assert |fifo[k].smask + {h}| <= |fifo[k].smask| + 1;
    }
  }

  lemma OfferCosts(c: Config, s: Sys, a: Action)
    requires Enabled(c, s, a) && a.Offer?
    requires var (q, u) := InplaceUpdate(s[a.t].fifo, s[a.h].phase.r.info, UpdateCb);
      FifoCost(q) <= FifoCost(s[a.t].fifo) + if u == Unchanged then 0 else 1
    ensures var s' := Do(c, s, a);
      && Cost(s'[a.h]) + Cost(s'[a.t]) < Cost(s[a.h]) + Cost(s[a.t])
      && forall i :: 0 <= i < |s| && i != a.h && i != a.t ==> s'[i] == s[i]
  {
  }

  lemma OfferPays(c: Config, s: Sys, a: Action)
    requires Enabled(c, s, a) && a.Offer?
    requires var (q, u) := InplaceUpdate(s[a.t].fifo, s[a.h].phase.r.info, UpdateCb);
      FifoCost(q) <= FifoCost(s[a.t].fifo) + if u == Unchanged then 0 else 1
    ensures Total(Do(c, s, a)) < Total(s)
  {
    OfferCosts(c, s, a);
    TotalPair(s, Do(c, s, a), a.h, a.t);
  }

  lemma EnqueuePays(c: Config, s: Sys, a: Action)
    requires Enabled(c, s, a) && a.Enqueue? && HasRoom(c, s, a) && s[a.h].phase.step.t != a.h
        && |s[a.h].phase.r.info.smask| == 1
    ensures Total(Do(c, s, a)) < Total(s)
  {
    var s', h, t := Do(c, s, a), a.h, s[a.h].phase.step.t;
    FifoCostAppend(s[t].fifo, s[h].phase.r.info);
    TotalPair(s, s', h, t);
  }

  lemma SignalPays(c: Config, s: Sys, a: Action)
    requires Enabled(c, s, a) && a.Signal? && s[a.h].phase.step.t in s[a.h].phase.todo - {a.h}
    ensures Total(Do(c, s, a)) < Total(s)
  {
    var s', h, t := Do(c, s, a), a.h, s[a.h].phase.step.t;
    RemovedOne(s[h].phase.todo, t);
    assert s'[t] == s[t].(word := s[t].word + {TLB_EVENT});
    assert Cost(s'[t]) == Cost(s[t]);
    assert s'[h] == s[h].(phase := s'[h].phase);
    TotalPair(s, s', h, t);
  }

  lemma RawSendPays(c: Config, s: Sys, a: Action)
    requires c.ipiDev && Enabled(c, s, a) && a.RawSend? && s[a.h].phase.step.t in s[a.h].phase.todo - {a.h}
    ensures Total(Do(c, s, a)) < Total(s)
  {
    var s', h, t := Do(c, s, a), a.h, s[a.h].phase.step.t;
    RemovedOne(s[h].phase.todo, t);
    TotalPair(s, s', h, t);
  }

  lemma OtherRawPays(c: Config, s: Sys, a: Action)
    requires Enabled(c, s, a) && a.OtherRaw?
    ensures Total(Do(c, s, a)) < Total(s)
  {
    var s', h, t := Do(c, s, a), a.h, s[a.h].phase.t;
    if h == t {
      TotalOne(s, s', h);
    } else {
      TotalPair(s, s', h, t);
    }
  }

  lemma DecrementPays(c: Config, s: Sys, a: Action)
    requires Enabled(c, s, a) && a.Decrement? && a.src != a.h
    ensures Total(Do(c, s, a)) < Total(s)
  {
    var s', h := Do(c, s, a), a.h;
    RemovedOne(s[h].proc.todo, a.src);
    TotalPair(s, s', h, a.src);
  }

  /** Every action that carries work on uses some of it up. */
  lemma FinishingPays(c: Config, s: Sys, a: Action)
    requires Live(c, s) && Enabled(c, s, a) && Finishing(a)
    ensures Total(Do(c, s, a)) < Total(s)
  {
    assert ControlOk(s[a.h]) && HartOk(s[a.h], |s|, a.h);
    match a
    case Offer(_, _) =>
      OfferCost(c, s, a);
      OfferPays(c, s, a);
    case Enqueue(_) =>
      RoomToEnqueue(c, s, a.h);
      EnqueuePays(c, s, a);
    case Signal(_) => SignalPays(c, s, a);
    case RawSend(_) => RawSendPays(c, s, a);
    case Decrement(_, _) => DecrementPays(c, s, a);
    case OtherRaw(_) => OtherRawPays(c, s, a);
    case FenceSelf(_) => SenderPays(c, s, a);
    case Count(_) => SenderPays(c, s, a);
    case StartSync(_) => SenderPays(c, s, a);
    case Return(_) => SenderPays(c, s, a);
    case _ => ReceiverPays(c, s, a);
  }

  lemma LiveTotal(c: Config, s: Sys)
    requires Live(c, s)
    ensures Total(s) >= 0
  {
    forall i | 0 <= i < |s| ensures HartOk(s[i], |s|, 0 + i) && ControlOk(s[i]) {
      assert HartOk(s[i], |s|, i);
    }
    TotalNonNegative(s, |s|, 0);
  }

  lemma NextPays(c: Config, run: seq<Sys>, acts: seq<Action>, k: nat)
    requires IsRun(c, run, acts) && k < |acts| && Finishing(acts[k]) && Live(c, run[k])
    ensures Total(run[k + 1]) < Total(run[k])
  {
    FinishingPays(c, run[k], acts[k]);
  }

  /** The measure bounds the actions that are left. */
  lemma {:induction false} WorkBound(c: Config, run: seq<Sys>, acts: seq<Action>, k: nat)
    requires Provisioned(c) && IsRun(c, run, acts) && k < |run|
    requires forall i :: k <= i < |acts| ==> Finishing(acts[i])
    ensures |acts| - k <= Total(run[k])
    decreases |acts| - k
  {
    RunLive(c, run, acts, k);
    if k < |acts| {
      NextPays(c, run, acts, k);
      WorkBound(c, run, acts, k + 1);
    } else {
      LiveTotal(c, run[k]);
    }
  }

  /** Quiescence. From any state of any run, if no further request or event is started,
      at most `Total` actions remain, whoever takes them; and when none is left every hart
      is idle, every queue empty and every counter zero. So every request returns. */
  lemma Quiescence(c: Config, run: seq<Sys>, acts: seq<Action>, k: nat)
    requires Provisioned(c) && IsRun(c, run, acts) && k < |run|
    requires forall i :: k <= i < |acts| ==> Finishing(acts[i])
    ensures |acts| - k <= Total(run[k])
    ensures !CanFinish(c, run[|acts|]) ==> forall h :: 0 <= h < |run[|acts|]| ==> Quiet(run[|acts|][h])
  {
    WorkBound(c, run, acts, k);
    RunLive(c, run, acts, |acts|);
    DeadlockFree(c, run[|acts|]);
  }
}
