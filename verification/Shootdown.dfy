/** Remote TLB shootdown: the interleaving machine.

    Any number of harts run the request, interrupt and processing code; each
    action below is one access to shared state (a queue operation under its
    lock, one atomic instruction, one device write), and any hart may take the
    next action. */
module Shootdown {
  import opened Fifo
  import opened TlbMerge

  /** Bit of the event word that stands for the TLB event. */
  const TLB_EVENT: nat := 2

  /** `n` harts, queue capacity, range-flush limit, and whether an IPI device is present. */
  datatype Config = Config(n: nat, cap: nat, limit: nat, ipiDev: bool)

  /** A request as given (`orig`), as sent (`info`), and the fence-log lengths when it began. */
  datatype Request = Request(orig: TlbInfo, info: TlbInfo, targets: set<nat>, marks: seq<nat>)

  /** Where the send loop stands: between targets, or partway through target `t`. */
  datatype SendStep =
    | NextTarget
    | Enqueuing(t: nat)   // in-place update left the queue unchanged
    | Drain               // the target queue was full: consume one own entry, then retry
    | Counting(t: nat)    // queued or folded; own counter not yet incremented
    | Signalling(t: nat)  // event bit not yet set
    | RawSending(t: nat)  // event word was zero; interrupt not yet raised

  datatype Phase =
    | Idle
    | Sending(r: Request, todo: set<nat>, step: SendStep)
    | Syncing(r: Request, left: set<nat>, ok: bool)
    | Poking(t: nat)      // sender of some other event, about to raise the interrupt

  /** The entry a hart has taken off its queue. */
  datatype Proc =
    | NoProc
    | Taken(e: TlbInfo)
    | Fenced(todo: set<nat>)

  /** The interrupt handler: none, raw interrupt cleared, or draining the queue. */
  datatype Handler = NoHandler | Cleared | Draining

  datatype Hart = Hart(
    phase: Phase,
    proc: Proc,
    handler: Handler,
    fifo: seq<TlbInfo>,
    sync: int,
    word: set<nat>,
    raw: bool,
    log: seq<Fence>)

  type Sys = seq<Hart>

  datatype Action =
    | Begin(h: nat, orig: TlbInfo, targets: set<nat>)
    | FenceSelf(h: nat)
    | Offer(h: nat, t: nat)
    | Enqueue(h: nat)
    | DrainSkip(h: nat)
    | Count(h: nat)
    | Signal(h: nat)
    | RawSend(h: nat)
    | StartSync(h: nat)
    | Return(h: nat)
    | Dequeue(h: nat)
    | RunFences(h: nat)
    | Decrement(h: nat, src: nat)
    | EndEntry(h: nat)
    | TakeIpi(h: nat)
    | Exchange(h: nat)
    | EndDrain(h: nat)
    | OtherEvent(h: nat, t: nat, ev: nat)
    | OtherRaw(h: nat)

  predicate Free(a: Hart) {
    a.phase.Idle? && a.proc.NoProc? && a.handler.NoHandler?
  }

  predicate Sends(a: Hart) {
    a.phase.Sending? && a.proc.NoProc?
  }

  function Marks(s: Sys): (m: seq<nat>)
    ensures |m| == |s|
  {
    seq(|s|, i requires 0 <= i < |s| => |s[i].log|)
  }

  /** The request is over for target `t`; go on to the next one. */
  function Sent(p: Phase, t: nat): Phase
    requires p.Sending?
  {
    p.(todo := p.todo - {t}, step := NextTarget)
  }

  predicate MayDequeue(a: Hart) {
    || a.phase.Syncing?
    || (a.phase.Sending? && a.phase.step.Drain?)
    || (a.phase.Idle? && a.handler.Draining?)
  }

  /** Which actions are possible. */
  predicate Enabled(c: Config, s: Sys, a: Action) {
    && a.h < |s|
    && var x := s[a.h];
    match a
    case Begin(h, orig, targets) =>
      Free(x) && ValidInfo(Prepare(c.limit, orig)) && forall t <- targets :: t < |s|
    case FenceSelf(h) => Sends(x) && x.phase.step.NextTarget? && h in x.phase.todo
    case Offer(h, t) => Sends(x) && x.phase.step.NextTarget? && t in x.phase.todo && t != h && t < |s|
    case Enqueue(h) => Sends(x) && x.phase.step.Enqueuing? && x.phase.step.t < |s|
    case DrainSkip(h) => Sends(x) && x.phase.step.Drain? && x.fifo == []
    case Count(h) => Sends(x) && x.phase.step.Counting?
    case Signal(h) => Sends(x) && x.phase.step.Signalling? && x.phase.step.t < |s|
    case RawSend(h) => Sends(x) && x.phase.step.RawSending? && x.phase.step.t < |s|
    case StartSync(h) => Sends(x) && x.phase.step.NextTarget? && x.phase.todo == {}
    case Return(h) => x.phase.Syncing? && x.proc.NoProc? && x.sync <= 0
    case Dequeue(h) => x.proc.NoProc? && MayDequeue(x) && x.fifo != []
    case RunFences(h) => x.proc.Taken?
    case Decrement(h, src) => x.proc.Fenced? && src in x.proc.todo && src < |s|
    case EndEntry(h) => x.proc.Fenced? && x.proc.todo == {}
    case TakeIpi(h) => Free(x) && x.raw
    case Exchange(h) => x.handler.Cleared?
    case EndDrain(h) => x.handler.Draining? && x.proc.NoProc? && x.fifo == []
    case OtherEvent(h, t, ev) => Free(x) && t < |s| && t != h && ev != TLB_EVENT
    case OtherRaw(h) => x.phase.Poking? && x.phase.t < |s|
  }

  function SetBit(s: Sys, t: nat, ev: nat): Sys
    requires t < |s|
  {
    s[t := s[t].(word := s[t].word + {ev})]
  }

  function Raise(c: Config, s: Sys, t: nat): Sys
    requires t < |s|
  {
    if c.ipiDev then s[t := s[t].(raw := true)] else s
  }

  /** What each action does. */
  function Do(c: Config, s: Sys, a: Action): (s': Sys)
    requires Enabled(c, s, a)
    ensures |s'| == |s|
  {
    var h := a.h;
    var x := s[h];
    match a
    case Begin(_, orig, targets) =>
      var info := Prepare(c.limit, orig).(smask := {h});
      s[h := x.(phase := Sending(Request(orig, info, targets, Marks(s)), targets, NextTarget))]
    case FenceSelf(_) =>
      s[h := x.(phase := Sent(x.phase, h), log := x.log + LocalFences(x.phase.r.info))]
    case Offer(_, t) =>
      var (fifo, u) := InplaceUpdate(s[t].fifo, x.phase.r.info, UpdateCb);
      s[t := s[t].(fifo := fifo)]
       [h := x.(phase := x.phase.(step := if u == Unchanged then Enqueuing(t) else Counting(t)))]
    case Enqueue(_) =>
      var t := x.phase.step.t;
      if |s[t].fifo| < c.cap then
        s[t := s[t].(fifo := s[t].fifo + [x.phase.r.info])][h := x.(phase := x.phase.(step := Counting(t)))]
      else
        s[h := x.(phase := x.phase.(step := Drain))]
    case DrainSkip(_) => s[h := x.(phase := x.phase.(step := NextTarget))]
    case Count(_) => s[h := x.(sync := x.sync + 1, phase := x.phase.(step := Signalling(x.phase.step.t)))]
    case Signal(_) =>
      var t := x.phase.step.t;
      var p := if s[t].word == {} then x.phase.(step := RawSending(t)) else Sent(x.phase, t);
      SetBit(s, t, TLB_EVENT)[h := SetBit(s, t, TLB_EVENT)[h].(phase := p)]
    case RawSend(_) =>
      var t := x.phase.step.t;
      var p := if c.ipiDev then Sent(x.phase, t) else Syncing(x.phase.r, x.phase.todo - {t}, false);
      Raise(c, s, t)[h := Raise(c, s, t)[h].(phase := p)]
    case StartSync(_) => s[h := x.(phase := Syncing(x.phase.r, {}, true))]
    case Return(_) => s[h := x.(phase := Idle)]
    case Dequeue(_) =>
      var p := if x.phase.Sending? then x.phase.(step := NextTarget) else x.phase;
      s[h := x.(proc := Taken(x.fifo[0]), fifo := x.fifo[1..], phase := p)]
    case RunFences(_) => s[h := x.(log := x.log + LocalFences(x.proc.e), proc := Fenced(x.proc.e.smask))]
    case Decrement(_, src) =>
      var s1 := s[h := x.(proc := Fenced(x.proc.todo - {src}))];
      s1[src := s1[src].(sync := s1[src].sync - 1)]
    case EndEntry(_) => s[h := x.(proc := NoProc)]
    case TakeIpi(_) => s[h := x.(raw := false, handler := Cleared)]
    case Exchange(_) => s[h := x.(word := {}, handler := if TLB_EVENT in x.word then Draining else NoHandler)]
    case EndDrain(_) => s[h := x.(handler := NoHandler)]
    case OtherEvent(_, t, ev) =>
      var p := if s[t].word == {} then Poking(t) else Idle;
      SetBit(s, t, ev)[h := x.(phase := p)]
    case OtherRaw(_) =>
      var t := x.phase.t;
      Raise(c, s, t)[h := Raise(c, s, t)[h].(phase := Idle)]
  }

  const FRESH_HART := Hart(Idle, NoProc, NoHandler, [], 0, {}, false, [])

  predicate Init(c: Config, s: Sys) {
    |s| == c.n && forall i :: 0 <= i < |s| ==> s[i] == FRESH_HART
  }

  /** `run` is a finite behaviour of the machine, `acts` the actions taken in it. */
  ghost predicate IsRun(c: Config, run: seq<Sys>, acts: seq<Action>) {
    && |run| == |acts| + 1
    && Init(c, run[0])
    && forall i :: 0 <= i < |acts| ==> Enabled(c, run[i], acts[i]) && run[i + 1] == Do(c, run[i], acts[i])
  }
}
