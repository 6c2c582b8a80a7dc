/** Where an event's handler starts and with which argument, and how the state and the attributes of
    an event come about, over every run. */
module SseEntry {
  import opened Wrappers
  import opened Sse
  import opened SseNesting

  // ---------- one event, seen alone ----------

  /** The action that moves an event from one state to the next. */
  ghost predicate Injected(s: Sys, a: Action, k: Key)
    requires KeysKnown(s) && Possible(s, a)
  {
    a.Process? && Injects(s, a.h) && InjectedKey(s, a.h) == k
  }

  ghost predicate Completed(s: Sys, a: Action, k: Key)
    requires Possible(s, a)
  {
    a.Complete? && s.harts[a.h].stack != [] && s.harts[a.h].stack[|s.harts[a.h].stack| - 1].key == k
  }

  /** The states of an event: unused, registered, enabled, running and back. */
  ghost predicate Moves(s: Sys, a: Action, k: Key, from: State, to: State)
    requires KeysKnown(s) && Possible(s, a) && k in s.events
  {
    match (from, to)
    case (Unused, Registered) => a.Register? && a.k == k
    case (Registered, Unused) => a == Unregister(k)
    case (Registered, Enabled) => a == Enable(k)
    case (Enabled, Registered) => a == Disable(k)
    case (Enabled, Running) => Injected(s, a, k)
    case (Running, Enabled) => Completed(s, a, k) && !s.events[k].oneshot
    case (Running, Registered) => Completed(s, a, k) && s.events[k].oneshot
    case _ => false
  }

  /** The step takes the event along its moves and no others, and pending is set and cleared as said
      at `StateMoves`. */
  ghost predicate Follows(s: Sys, a: Action, k: Key)
    requires KeysKnown(s) && Possible(s, a) && k in s.events
  {
    && k in Do(s, a).events
    && var from, to := s.events[k].status, Do(s, a).events[k].status;
       && (forall st :: st != from.state ==> (to.state == st <==> Moves(s, a, k, from.state, st)))
       && (to.pending <==> (from.pending && !Injected(s, a, k)) || (a == SetPend(k) && s.events[k].Listed()))
  }

  lemma ProcessMoves(s: Sys, h: nat, k: Key)
    requires Inv(s) && KeysKnown(s) && Possible(s, Process(h)) && k in s.events
    ensures Follows(s, Process(h), k)
  {
    if Injects(s, h) {
      InjectedOutranks(s, h);
    }
  }

  lemma CompleteIdle(s: Sys, h: nat)
    requires Inv(s) && KeysKnown(s) && h < |s.harts| && s.harts[h].stack == []
    ensures DoComplete(s, h) == s
  {
    var x := s.harts[h];
    assert HartOk(s.events, x, h);
    assert FirstRunning(s.events, x.list) == |x.list|;
  }

  lemma CompleteTop(s: Sys, h: nat, top: Key)
    requires Inv(s) && KeysKnown(s) && h < |s.harts| && s.harts[h].stack != []
    requires top == s.harts[h].stack[|s.harts[h].stack| - 1].key
    ensures top in s.events && s.events[top].Is(Running)
    ensures var e := s.events[top];
      var next := if e.oneshot then Registered else Enabled;
      DoComplete(s, h).events == s.events[top := e.(status := e.status.(state := next))]
  {
    CompletesTop(s, h);
    assert HartOk(s.events, s.harts[h], h);
    TopRuns(s.events, s.harts[h].stack, h);
  }

  lemma CompleteMoves(s: Sys, h: nat, k: Key)
    requires Inv(s) && KeysKnown(s) && h < |s.harts| && k in s.events
    ensures Follows(s, Complete(h), k)
  {
    if s.harts[h].stack == [] {
      CompleteIdle(s, h);
    } else {
      CompleteTop(s, h, s.harts[h].stack[|s.harts[h].stack| - 1].key);
    }
  }

  lemma TopRuns(events: map<Key, Event>, stack: seq<Frame>, h: nat)
    requires StackOk(events, stack, h) && stack != []
    ensures stack[|stack| - 1].key in events && events[stack[|stack| - 1].key].Is(Running)
  {
  }

  lemma OtherMoves(s: Sys, a: Action, k: Key)
    requires KeysKnown(s) && Possible(s, a) && k in s.events && !a.Process? && !a.Complete?
    ensures Follows(s, a, k)
  {
  }

  /** An event changes state exactly along these moves; it becomes pending exactly by being made so
      while it is enabled or running, and stops being pending exactly by being injected. */
  lemma StateMoves(s: Sys, a: Action, k: Key)
    requires Inv(s) && KeysKnown(s) && Possible(s, a) && k in s.events
    ensures Follows(s, a, k)
  {
    match a
    case Process(h) => ProcessMoves(s, h, k);
    case Complete(h) => CompleteMoves(s, h, k);
    case _ => OtherMoves(s, a, k);
  }

  // ---------- attributes ----------

  /** The value last written before step `i`, or the one at the start. */
  ghost function Latest<T>(run: seq<Sys>, acts: seq<Action>, write: (Sys, Action) -> Option<T>, first: T, i: nat): T
    requires i <= |acts| <= |run|
  {
    if i == 0 then first
    else
      var w := write(run[i - 1], acts[i - 1]);
      if w.Some? then w.value else Latest(run, acts, write, first, i - 1)
  }

  /** One step writes the attribute `get` of event `k` exactly as `write` says. */
  ghost predicate Written<T(!new)>(s: Sys, a: Action, t: Sys, k: Key, get: Event -> T,
                                   write: (Sys, Action) -> Option<T>)
  {
    k in s.events ==>
      var w := write(s, a);
      k in t.events && get(t.events[k]) == if w.Some? then w.value else get(s.events[k])
  }

  lemma {:induction false} LatestIs<T(!new)>(run: seq<Sys>, acts: seq<Action>, k: Key, i: nat, get: Event -> T,
                                             write: (Sys, Action) -> Option<T>)
    requires i <= |acts| < |run| && k in run[0].events
    requires forall m :: 0 <= m < |acts| ==> Written(run[m], acts[m], run[m + 1], k, get, write)
    ensures k in run[i].events && get(run[i].events[k]) == Latest(run, acts, write, get(run[0].events[k]), i)
  {
    if i > 0 {
      LatestIs(run, acts, k, i - 1, get, write);
      assert Written(run[i - 1], acts[i - 1], run[i], k, get, write);
    }
  }

  /** The entry point and the argument are written by registering an unused event. */
  function EntryOf(k: Key): (Sys, Action) -> Option<(nat, nat)> {
    (s: Sys, a: Action) =>
      if a.Register? && a.k == k && k in s.events && s.events[k].Is(Unused) then Some((a.pc, a.arg)) else None
  }

  /** The other attributes only while the event is neither enabled nor running. */
  predicate Settable(s: Sys, k: Key) {
    k in s.events && (s.events[k].Is(Unused) || s.events[k].Is(Registered))
  }

  function PrioOf(k: Key): (Sys, Action) -> Option<nat> {
    (s: Sys, a: Action) =>
      if a.SetPrio? && a.k == k && Settable(s, k) && a.prio < 0x1_0000_0000 then Some(a.prio) else None
  }

  function ConfigOf(k: Key): (Sys, Action) -> Option<bool> {
    (s: Sys, a: Action) => if a.SetConfig? && a.k == k && Settable(s, k) then Some(a.oneshot) else None
  }

  function HartOf(k: Key): (Sys, Action) -> Option<nat> {
    (s: Sys, a: Action) => if a.SetHart? && a.k == k && Settable(s, k) then Some(a.val) else None
  }

  function IndexOf(k: Key): (Sys, Action) -> Option<nat> {
    (s: Sys, a: Action) =>
      if a.SetHart? && a.k == k && Settable(s, k) then Some(a.val % 0x1_0000_0000) else None
  }

  function Entry(e: Event): (nat, nat) { (e.pc, e.arg) }

  function Prio(e: Event): nat { e.prio }

  function Config(e: Event): bool { e.oneshot }

  function HartId(e: Event): nat { e.hartid }

  function HartIndex(e: Event): nat { e.hartindex }

  lemma StepWrites(s: Sys, a: Action, k: Key)
    requires KeysKnown(s) && Possible(s, a)
    ensures Written(s, a, Do(s, a), k, Entry, EntryOf(k)) && Written(s, a, Do(s, a), k, Prio, PrioOf(k))
    ensures Written(s, a, Do(s, a), k, Config, ConfigOf(k))
  {
  }

  lemma StepSends(s: Sys, a: Action, k: Key)
    requires KeysKnown(s) && Possible(s, a)
    ensures Written(s, a, Do(s, a), k, HartId, HartOf(k)) && Written(s, a, Do(s, a), k, HartIndex, IndexOf(k))
  {
  }

  /** Over every run each attribute of an event is the value last written while writing was allowed. */
  lemma AttributesLast(run: seq<Sys>, acts: seq<Action>, k: Key, i: nat)
    requires IsRun(run, acts) && i <= |acts| && k in run[0].events
    ensures k in run[i].events
    ensures var e, e0 := run[i].events[k], run[0].events[k];
      && (e.pc, e.arg) == Latest(run, acts, EntryOf(k), (e0.pc, e0.arg), i)
      && e.prio == Latest(run, acts, PrioOf(k), e0.prio, i)
      && e.oneshot == Latest(run, acts, ConfigOf(k), e0.oneshot, i)
      && e.hartid == Latest(run, acts, HartOf(k), e0.hartid, i)
      && e.hartindex == Latest(run, acts, IndexOf(k), e0.hartindex, i)
  {
    forall m | 0 <= m < |acts|
      ensures Written(run[m], acts[m], run[m + 1], k, Entry, EntryOf(k))
      ensures Written(run[m], acts[m], run[m + 1], k, Prio, PrioOf(k))
      ensures Written(run[m], acts[m], run[m + 1], k, Config, ConfigOf(k))
      ensures Written(run[m], acts[m], run[m + 1], k, HartId, HartOf(k))
      ensures Written(run[m], acts[m], run[m + 1], k, HartIndex, IndexOf(k))
    {
      StepWrites(run[m], acts[m], k);
      StepSends(run[m], acts[m], k);
    }
    LatestIs(run, acts, k, i, Entry, EntryOf(k));
    LatestIs(run, acts, k, i, Prio, PrioOf(k));
    LatestIs(run, acts, k, i, Config, ConfigOf(k));
    LatestIs(run, acts, k, i, HartId, HartOf(k));
    LatestIs(run, acts, k, i, HartIndex, IndexOf(k));
  }

  /** A hart is masked exactly if its last mask action said so, or it was at the start. */
  function MaskOf(h: nat): (Sys, Action) -> Option<bool> {
    (s: Sys, a: Action) => if a.Mask? && a.h == h then Some(a.on) else None
  }

  lemma {:induction false} MaskLast(run: seq<Sys>, acts: seq<Action>, h: nat, i: nat)
    requires IsRun(run, acts) && i <= |acts| && h < |run[0].harts|
    ensures |run[i].harts| == |run[0].harts|
    ensures run[i].harts[h].masked == Latest(run, acts, MaskOf(h), run[0].harts[h].masked, i)
  {
    if i > 0 {
      MaskLast(run, acts, h, i - 1);
      StepMasks(run[i - 1], acts[i - 1], h);
    }
  }

  lemma StepMasks(s: Sys, a: Action, h: nat)
    requires KeysKnown(s) && Possible(s, a) && h < |s.harts|
    ensures var w := MaskOf(h)(s, a);
      && |Do(s, a).harts| == |s.harts|
      && Do(s, a).harts[h].masked == if w.Some? then w.value else s.harts[h].masked
  {
  }

  // ---------- the handler ----------

  /** Step `r` registers the event with this entry, and no later step before `i` registers it. */
  ghost predicate LastRegistered(run: seq<Sys>, acts: seq<Action>, k: Key, i: nat, r: int, entry: (nat, nat)) {
    && 0 <= r < i <= |acts| < |run|
    && EntryOf(k)(run[r], acts[r]) == Some(entry)
    && forall m :: r < m < i ==> EntryOf(k)(run[m], acts[m]).None?
  }

  lemma StaysUnused(s: Sys, a: Action, k: Key)
    requires KeysKnown(s) && Possible(s, a) && k in s.events && EntryOf(k)(s, a).None?
    requires s.events[k].Is(Unused)
    ensures k in Do(s, a).events && Do(s, a).events[k].Is(Unused)
  {
  }

  /** An event in use has been registered, and its entry is that of its last registration. */
  lemma {:induction false} InUse(run: seq<Sys>, acts: seq<Action>, k: Key, i: nat)
    requires IsRun(run, acts) && i < |run| && k in run[i].events && !run[i].events[k].Is(Unused)
    ensures exists r :: LastRegistered(run, acts, k, i, r, Entry(run[i].events[k]))
  {
    assert i > 0;
    var m := i - 1;
    SameKeys(run[m], acts[m]);
    StepWrites(run[m], acts[m], k);
    if EntryOf(k)(run[m], acts[m]).Some? {
      assert LastRegistered(run, acts, k, i, m, Entry(run[i].events[k]));
    } else {
      if run[m].events[k].Is(Unused) {
        StaysUnused(run[m], acts[m], k);
      }
      InUse(run, acts, k, m);
      var r :| LastRegistered(run, acts, k, m, r, Entry(run[m].events[k]));
      assert LastRegistered(run, acts, k, i, r, Entry(run[i].events[k]));
    }
  }

  lemma SameKeys(s: Sys, a: Action)
    requires KeysKnown(s) && Possible(s, a)
    ensures Do(s, a).events.Keys == s.events.Keys
  {
  }

  /** The context after an injection, in terms of the one before and of how the event was registered. */
  ghost predicate Enters(x: Regs, y: Regs, h: nat, entry: (nat, nat)) {
    && y.mepc == entry.0 && y.a7 == entry.1 && y.a6 == h && y.mpp == 1 && !y.sie
    && y.sepc == x.mepc && (y.spie <==> x.sie) && (y.spp <==> x.mpp == 1)
  }

  lemma EntersAs(s: Sys, h: nat)
    requires KeysKnown(s) && Possible(s, Process(h)) && Injects(s, h)
    ensures var e, t := s.events[InjectedKey(s, h)], Do(s, Process(h));
      h < |t.harts| && Enters(s.harts[h].regs, t.harts[h].regs, h, Entry(e))
  {
  }

  /** Over every run an injected handler starts in S-mode with interrupts off at the address, and with
      the argument, of the last registration of its event; SEPC, SPIE and SPP hold what it interrupted. */
  lemma HandlerEntered(run: seq<Sys>, acts: seq<Action>, i: nat, h: nat)
    requires IsRun(run, acts) && i < |acts| && h < |run[i].harts| && KeysKnown(run[i])
    requires acts[i] == Process(h) && Injects(run[i], h)
    ensures h < |run[i + 1].harts|
    ensures exists r, entry :: LastRegistered(run, acts, InjectedKey(run[i], h), i, r, entry)
                               && Enters(run[i].harts[h].regs, run[i + 1].harts[h].regs, h, entry)
  {
    var k := InjectedKey(run[i], h);
    RunInv(run, acts, i);
    InjectedOutranks(run[i], h);
    InUse(run, acts, k, i);
    var entry := Entry(run[i].events[k]);
    var r :| LastRegistered(run, acts, k, i, r, entry);
    EntersAs(run[i], h);
  }
}
