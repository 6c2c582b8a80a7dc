/** Supervisor software events: per-event state, the priority-sorted enabled
    list of each hart, injection and completion. */
module Sse {

  // ---------- the status word ----------

  datatype State = Unused | Registered | Enabled | Running

  /** The two fields of the status word that drive the machine. */
  datatype Status = Status(state: State, pending: bool)

  const STATE_MASK: bv64 := 3
  const PENDING_BIT: bv64 := 4

  function Decode(w: bv64): Status {
    Status(
      if w & STATE_MASK == 0 then Unused
      else if w & STATE_MASK == 1 then Registered
      else if w & STATE_MASK == 2 then Enabled
      else Running,
      w & PENDING_BIT != 0)
  }

  function StateBits(s: State): bv64 {
    match s
    case Unused => 0
    case Registered => 1
    case Enabled => 2
    case Running => 3
  }

  function SetStateWord(w: bv64, s: State): (r: bv64)
    ensures Decode(r) == Decode(w).(state := s)
  {
    (w & !STATE_MASK) | StateBits(s)
  }

  function SetPendingWord(w: bv64): (r: bv64)
    ensures Decode(r) == Decode(w).(pending := true)
  {
    w | PENDING_BIT
  }

  /** Injection first sets the state and then overwrites the whole word; the event still
      ends up running and not pending. */
  function InjectedWord(w: bv64): (r: bv64)
    ensures Decode(r) == Status(Running, false)
  {
    var _ := SetStateWord(w, Running);
    !PENDING_BIT
  }

  // ---------- events, harts, trap context ----------

  const GLOBAL_BIT: nat := 0x8000

  predicate IsGlobal(id: nat) {
    (id / GLOBAL_BIT) % 2 == 1
  }

  /** Local events exist once per hart, global ones once. */
  datatype Key = LocalKey(home: nat, id: nat) | GlobalKey(id: nat)

  /** What injection sets aside in the event's attributes. */
  datatype Interrupted = Interrupted(sepc: nat, spp: bool, spie: bool, a6: nat, a7: nat)

  datatype Event = Event(
    id: nat, status: Status, prio: nat, oneshot: bool,
    hartid: nat, hartindex: nat, pc: nat, arg: nat, saved: Interrupted)
  {
    predicate Is(s: State) { status.state == s }
    predicate Listed() { Is(Enabled) || Is(Running) }
    /** Pending, enabled and meant for this hart. */
    predicate Ready(h: nat) { status.pending && Is(Enabled) && hartid == h }
  }

  /** Order of the enabled list: by priority, then by event number. */
  predicate Before(a: Event, b: Event) {
    a.prio < b.prio || (a.prio == b.prio && a.id < b.id)
  }

  /** The interrupted context as the trap handler sees it, with SEPC; `mpp` is 0 for U, 1 for S. */
  datatype Regs = Regs(mepc: nat, sepc: nat, a6: nat, a7: nat, mpp: nat, sie: bool, spie: bool, spp: bool)

  /** An injection that has not been completed, with the context it interrupted. */
  datatype Frame = Frame(key: Key, ctx: Regs)

  datatype HartState = HartState(list: seq<Key>, masked: bool, regs: Regs, stack: seq<Frame>)

  datatype Sys = Sys(events: map<Key, Event>, harts: seq<HartState>)

  // ---------- list and context operations ----------

  function InsertPos(events: map<Key, Event>, list: seq<Key>, e: Event): (p: nat)
    requires forall k <- list :: k in events
    ensures p <= |list|
    ensures forall i :: 0 <= i < p ==> !Before(e, events[list[i]])
    ensures p < |list| ==> Before(e, events[list[p]])
  {
    if list == [] || Before(e, events[list[0]]) then 0 else 1 + InsertPos(events, list[1..], e)
  }

  function Insert(events: map<Key, Event>, list: seq<Key>, k: Key): seq<Key>
    requires k in events && forall x <- list :: x in events
  {
    var p := InsertPos(events, list, events[k]);
    list[..p] + [k] + list[p..]
  }

  function Remove(list: seq<Key>, k: Key): seq<Key> {
    if list == [] then []
    else if list[0] == k then list[1..]
    else [list[0]] + Remove(list[1..], k)
  }

  /** Save the context in the event and redirect the hart to the handler. */
  function InjectEvent(e: Event, regs: Regs): Event {
    e.(status := Status(Running, false), saved := Interrupted(regs.sepc, regs.spp, regs.spie, regs.a6, regs.a7))
  }

  function InjectRegs(e: Event, regs: Regs, h: nat): Regs {
    Regs(e.pc, regs.mepc, h, e.arg, 1, false, regs.sie, regs.mpp != 0)
  }

  function ResumeRegs(e: Event, regs: Regs): Regs {
    Regs(regs.sepc, e.saved.sepc, e.saved.a6, e.saved.a7,
         if regs.spp then 1 else 0, regs.spie, e.saved.spie, e.saved.spp)
  }

  /** Index of the first listed event that is running or ready, or the length. */
  function FirstStop(events: map<Key, Event>, list: seq<Key>, h: nat): (i: nat)
    requires forall k <- list :: k in events
    ensures i <= |list|
    ensures forall j :: 0 <= j < i ==> !events[list[j]].Is(Running) && !events[list[j]].Ready(h)
    ensures i < |list| ==> events[list[i]].Is(Running) || events[list[i]].Ready(h)
  {
    if list == [] || events[list[0]].Is(Running) || events[list[0]].Ready(h) then 0
    else 1 + FirstStop(events, list[1..], h)
  }

  function FirstRunning(events: map<Key, Event>, list: seq<Key>): (i: nat)
    requires forall k <- list :: k in events
    ensures i <= |list|
    ensures forall j :: 0 <= j < i ==> !events[list[j]].Is(Running)
    ensures i < |list| ==> events[list[i]].Is(Running)
  {
    if list == [] || events[list[0]].Is(Running) then 0
    else 1 + FirstRunning(events, list[1..])
  }

  // ---------- the machine ----------

  datatype Action =
    | Register(k: Key, pc: nat, arg: nat)
    | Unregister(k: Key)
    | Enable(k: Key)
    | Disable(k: Key)
    | SetPend(k: Key)
    | SetPrio(k: Key, prio: nat)
    | SetConfig(k: Key, oneshot: bool)
    | SetHart(k: Key, val: nat)
    | Mask(h: nat, on: bool)
    | Process(h: nat)
    | Complete(h: nat)
    | Execute(h: nat, after: Regs)  // supervisor code runs on `h` until its next trap

  function Update(s: Sys, k: Key, e: Event): Sys {
    s.(events := s.events[k := e])
  }

  function SetHartState(s: Sys, h: nat, x: HartState): Sys
    requires h < |s.harts|
  {
    s.(harts := s.harts[h := x])
  }

  predicate KeysKnown(s: Sys) {
    && (forall h :: 0 <= h < |s.harts| ==> forall k <- s.harts[h].list :: k in s.events)
    && (forall k <- s.events :: s.events[k].hartindex < |s.harts|)
  }

  predicate Possible(s: Sys, a: Action) {
    match a
    // the trap handler delivers events only on its way back to S- or U-mode
    case Process(h) => h < |s.harts| && s.harts[h].regs.mpp <= 1
    case Complete(h) => h < |s.harts|
    case Mask(h, _) => h < |s.harts|
    case Execute(h, after) =>
      && h < |s.harts|
      // a handler hands SEPC, SPP and SPIE back as it found them
      && (s.harts[h].stack != [] ==>
            after.sepc == s.harts[h].regs.sepc && after.spp == s.harts[h].regs.spp
                && after.spie == s.harts[h].regs.spie)
    case SetHart(k, val) => k in s.events && k.GlobalKey? && val % 0x1_0000_0000 < |s.harts|
    case _ => a.k in s.events
  }

  /** Deliver the first ready event of the list, unless a running one comes before it. */
  function DoProcess(s: Sys, h: nat): Sys
    requires KeysKnown(s) && h < |s.harts|
  {
    var x := s.harts[h];
    var i := FirstStop(s.events, x.list, h);
    if x.masked || i == |x.list| || s.events[x.list[i]].Is(Running) then s
    else
      var k, e := x.list[i], s.events[x.list[i]];
      Sys(s.events[k := InjectEvent(e, x.regs)],
          s.harts[h := x.(regs := InjectRegs(e, x.regs, h), stack := x.stack + [Frame(k, x.regs)])])
  }

  function Pop(stack: seq<Frame>): seq<Frame> {
    if stack == [] then [] else stack[..|stack| - 1]
  }

  /** Complete the first running event of the list; a one-shot event is disabled as well. */
  function DoComplete(s: Sys, h: nat): Sys
    requires KeysKnown(s) && h < |s.harts|
  {
    var x := s.harts[h];
    var i := FirstRunning(s.events, x.list);
    if i == |x.list| || s.events[x.list[i]].hartid != h then s
    else
      var k, e := x.list[i], s.events[x.list[i]];
      var list := if e.oneshot then Remove(x.list, k) else x.list;
      var e' := e.(status := e.status.(state := if e.oneshot then Registered else Enabled));
      Sys(s.events[k := e'],
          s.harts[h := x.(list := list, regs := ResumeRegs(e, x.regs), stack := Pop(x.stack))])
  }

  function Do(s: Sys, a: Action): Sys
    requires KeysKnown(s) && Possible(s, a)
  {
    match a
    case Register(k, pc, arg) =>
      var e := s.events[k];
      if !e.Is(Unused) then s else Update(s, k, e.(pc := pc, arg := arg, status := e.status.(state := Registered)))
    case Unregister(k) =>
      var e := s.events[k];
      if !e.Is(Registered) then s else Update(s, k, e.(status := e.status.(state := Unused)))
    case Enable(k) =>
      var e := s.events[k];
      if !e.Is(Registered) then s
      else
        var s1 := Update(s, k, e.(status := e.status.(state := Enabled)));
        var x := s1.harts[e.hartindex];
        SetHartState(s1, e.hartindex, x.(list := Insert(s1.events, x.list, k)))
    case Disable(k) =>
      var e := s.events[k];
      if !e.Is(Enabled) then s
      else
        var x := s.harts[e.hartindex];
        SetHartState(Update(s, k, e.(status := e.status.(state := Registered))),
                     e.hartindex, x.(list := Remove(x.list, k)))
    case SetPend(k) =>
      var e := s.events[k];
      if !e.Listed() then s else Update(s, k, e.(status := e.status.(pending := true)))
    case SetPrio(k, prio) =>
      var e := s.events[k];
      if e.Listed() || prio >= 0x1_0000_0000 then s else Update(s, k, e.(prio := prio))
    case SetConfig(k, oneshot) =>
      var e := s.events[k];
      if e.Listed() then s else Update(s, k, e.(oneshot := oneshot))
    case SetHart(k, val) =>
      var e := s.events[k];
      if e.Listed() then s else Update(s, k, e.(hartid := val, hartindex := val % 0x1_0000_0000))
    case Mask(h, on) => SetHartState(s, h, s.harts[h].(masked := on))
    case Process(h) => DoProcess(s, h)
    case Complete(h) => DoComplete(s, h)
    case Execute(h, after) => SetHartState(s, h, s.harts[h].(regs := after))
  }
}
