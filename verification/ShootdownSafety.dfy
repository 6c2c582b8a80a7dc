/** What every interleaving of the shootdown machine keeps, and what a
    successful return therefore means. */
module ShootdownSafety {
  import opened Wrappers
  import opened Fifo
  import opened TlbMerge
  import opened Shootdown

  // ---------- who waits for whom ----------

  ghost predicate Queued(b: Hart, src: nat) {
    exists i :: 0 <= i < |b.fifo| && src in b.fifo[i].smask
  }

  predicate InProcess(b: Hart, src: nat) {
    (b.proc.Taken? && src in b.proc.e.smask) || (b.proc.Fenced? && src in b.proc.todo)
  }

  /** Some queued or in-process entry of `b` still owes `src` a decrement. */
  ghost predicate Pending(b: Hart, src: nat) {
    Queued(b, src) || InProcess(b, src)
  }

  ghost function Waiters(s: Sys, src: nat): (w: set<nat>) {
    set t | 0 <= t < |s| && Pending(s[t], src)
  }

  /** One if the entry is queued but the counter has not caught up yet. */
  function Owed(p: Phase): nat {
    if p.Sending? && p.step.Counting? then 1 else 0
  }

  /** A source's counter is exactly the number of entries that name it, less the one it
      has queued and not yet counted. */
  ghost predicate Conserved(s: Sys, src: nat)
    requires src < |s|
  {
    |Waiters(s, src)| == s[src].sync + Owed(s[src].phase)
  }

  // ---------- invariants of one hart and of a pair ----------

  predicate AtTarget(step: SendStep, t: nat) {
    (step.Counting? || step.Signalling? || step.RawSending?) && step.t == t
  }

  /** The running request of a hart has reached target `t`. */
  predicate IsSent(p: Phase, t: nat) {
    match p
    case Sending(r, todo, step) => t in r.targets && (t !in todo || AtTarget(step, t))
    case Syncing(r, left, ok) => t in r.targets && t !in left
    case Idle => false
    case Poking(_) => false
  }

  /** Target `b` will fence, or has fenced since the request began, all that was asked. */
  ghost predicate Served(b: Hart, src: nat, r: Request, mark: nat) {
    || (exists i :: 0 <= i < |b.fifo| && src in b.fifo[i].smask && Covers(b.fifo[i], r.orig))
    || (b.proc.Taken? && src in b.proc.e.smask && Covers(b.proc.e, r.orig))
    || (mark <= |b.log| && FencedFor(b.log[mark..], r.orig))
  }

  ghost predicate PairOk(a: Hart, src: nat, b: Hart, t: nat) {
    && (Pending(b, src) ==> IsSent(a.phase, t))
    && (a.phase.Sending? || a.phase.Syncing? ==>
          && t < |a.phase.r.marks|
          && a.phase.r.marks[t] <= |b.log|
          && (IsSent(a.phase, t) ==> Served(b, src, a.phase.r, a.phase.r.marks[t])))
  }

  predicate Others(names: set<nat>, n: nat, h: nat) {
    forall x <- names :: x < n && x != h
  }

  ghost predicate RequestOk(r: Request, n: nat, h: nat) {
    && ValidInfo(r.info) && r.info.smask == {h} && Covers(r.info, r.orig)
    && |r.marks| == n && forall t <- r.targets :: t < n
  }

  ghost predicate PhaseOk(p: Phase, n: nat, h: nat) {
    match p
    case Idle => true
    case Poking(t) => t < n
    case Sending(r, todo, step) =>
      && RequestOk(r, n, h) && todo <= r.targets
      && (step.NextTarget? || step.Drain? || (step.t in todo && step.t != h))
    case Syncing(r, left, ok) => RequestOk(r, n, h) && (ok ==> left == {})
  }

  /** Entries of one queue are valid, name only other harts, and no hart twice. */
  ghost predicate FifoOk(fifo: seq<TlbInfo>, n: nat, h: nat) {
    && (forall i :: 0 <= i < |fifo| ==> ValidInfo(fifo[i]) && fifo[i].smask != {} && Others(fifo[i].smask, n, h))
    && (forall i, j :: 0 <= i < j < |fifo| ==> fifo[i].smask !! fifo[j].smask)
  }

  function ProcNames(p: Proc): set<nat> {
    match p
    case NoProc => {}
    case Taken(e) => e.smask
    case Fenced(todo) => todo
  }

  ghost predicate HartOk(x: Hart, n: nat, h: nat) {
    && PhaseOk(x.phase, n, h)
    && FifoOk(x.fifo, n, h)
    && Others(ProcNames(x.proc), n, h)
    && (forall i :: 0 <= i < |x.fifo| ==> x.fifo[i].smask !! ProcNames(x.proc))
  }

  ghost predicate Inv(c: Config, s: Sys) {
    && |s| == c.n
    && (forall h :: 0 <= h < |s| ==> HartOk(s[h], |s|, h))
    && (forall src, t :: 0 <= src < |s| && 0 <= t < |s| ==> PairOk(s[src], src, s[t], t))
    && (forall src :: 0 <= src < |s| ==> Conserved(s, src))
  }

  // ---------- counting ----------

  lemma WaitersKept(s: Sys, s': Sys, src: nat)
    requires |s'| == |s|
    requires forall t :: 0 <= t < |s| ==> (Pending(s[t], src) <==> Pending(s'[t], src))
    ensures Waiters(s', src) == Waiters(s, src)
  {
  }

  lemma WaiterAdded(s: Sys, s': Sys, src: nat, t: nat)
    requires |s'| == |s| && t < |s| && !Pending(s[t], src) && Pending(s'[t], src)
    requires forall k :: 0 <= k < |s| && k != t ==> (Pending(s[k], src) <==> Pending(s'[k], src))
    ensures |Waiters(s', src)| == |Waiters(s, src)| + 1
  {
    assert Waiters(s', src) == Waiters(s, src) + {t};
  }

  // ---------- queue updates ----------

  /** Folding the request of `h` into the queue of another hart adds `h` to one entry,
      keeps the queue well-formed and loses no coverage. */
  lemma OfferKeepsFifo(fifo: seq<TlbInfo>, info: TlbInfo, n: nat, t: nat, h: nat) returns (k: nat)
    requires FifoOk(fifo, n, t) && ValidInfo(info) && info.smask == {h} && h < n && h != t
    requires forall i :: 0 <= i < |fifo| ==> h !in fifo[i].smask
    ensures var (q, u) := InplaceUpdate(fifo, info, UpdateCb);
      if u == Unchanged then q == fifo
      else
        && k < |fifo| && q == fifo[k := q[k]]
        && FifoOk(q, n, t)
        && q[k].smask == fifo[k].smask + {h}
        && Subsumes(q[k], info) && Subsumes(q[k], fifo[k])
  {
    InplaceUpdateSettles(fifo, info, UpdateCb);
    var (q, u) := InplaceUpdate(fifo, info, UpdateCb);
    if u != Unchanged {
      k :| 0 <= k < |fifo| && UpdateCb(info, fifo[k]).1 == u && q == fifo[k := UpdateCb(info, fifo[k]).0];
      MergeSubsumes(fifo[k], info);
    } else {
      k := 0;
    }
  }

  // ---------- preservation, action by action ----------

  predicate SameWork(x: Hart, y: Hart) {
    x.fifo == y.fifo && x.proc == y.proc && x.log == y.log && x.sync == y.sync
  }

  predicate SameRequest(p: Phase, q: Phase) {
    || (!p.Sending? && !p.Syncing? && !q.Sending? && !q.Syncing?)
    || ((p.Sending? || p.Syncing?) && (q.Sending? || q.Syncing?) && p.r == q.r)
  }

  /** Steps that touch no queue, counter or log and leave the sent targets of `h` alone. */
  lemma QuietStep(c: Config, s: Sys, s': Sys, h: nat)
    requires Inv(c, s) && |s'| == |s| && h < |s|
    requires forall i :: 0 <= i < |s| ==> SameWork(s[i], s'[i])
    requires forall i :: 0 <= i < |s| && i != h ==> s'[i].phase == s[i].phase
    requires PhaseOk(s'[h].phase, |s|, h) && SameRequest(s[h].phase, s'[h].phase)
    requires Owed(s'[h].phase) == Owed(s[h].phase)
    requires forall t: nat :: IsSent(s'[h].phase, t) == IsSent(s[h].phase, t)
    ensures Inv(c, s')
  {
    forall i | 0 <= i < |s| ensures HartOk(s'[i], |s|, i) {
      assert HartOk(s[i], |s|, i);
    }
    forall src, t | 0 <= src < |s| && 0 <= t < |s| ensures PairOk(s'[src], src, s'[t], t) {
      assert PairOk(s[src], src, s[t], t);
    }
    forall src | 0 <= src < |s| ensures Conserved(s', src) {
      assert Conserved(s, src);
      WaitersKept(s, s', src);
    }
  }

  lemma KeepLocalStep(c: Config, s: Sys, a: Action)
    requires Inv(c, s) && Enabled(c, s, a)
    requires a.DrainSkip? || a.StartSync? || a.TakeIpi? || a.Exchange? || a.EndDrain?
    ensures Inv(c, Do(c, s, a))
  {
    assert HartOk(s[a.h], |s|, a.h);
    QuietStep(c, s, Do(c, s, a), a.h);
  }

  lemma KeepSignal(c: Config, s: Sys, a: Action)
    requires Inv(c, s) && Enabled(c, s, a)
    requires a.Signal?
    ensures Inv(c, Do(c, s, a))
  {
    assert HartOk(s[a.h], |s|, a.h);
    QuietStep(c, s, Do(c, s, a), a.h);
  }

  lemma KeepRawSend(c: Config, s: Sys, a: Action)
    requires Inv(c, s) && Enabled(c, s, a)
    requires a.RawSend?
    ensures Inv(c, Do(c, s, a))
  {
    assert HartOk(s[a.h], |s|, a.h);
    QuietStep(c, s, Do(c, s, a), a.h);
  }

  lemma KeepOtherEvent(c: Config, s: Sys, a: Action)
    requires Inv(c, s) && Enabled(c, s, a)
    requires a.OtherEvent? || a.OtherRaw?
    ensures Inv(c, Do(c, s, a))
  {
    assert HartOk(s[a.h], |s|, a.h);
    QuietStep(c, s, Do(c, s, a), a.h);
  }

  lemma KeepBegin(c: Config, s: Sys, a: Action)
    requires Inv(c, s) && Enabled(c, s, a) && a.Begin?
    ensures Inv(c, Do(c, s, a))
  {
    var s' := Do(c, s, a);
    var info := s'[a.h].phase.r.info;
    PrepareCovers(c.limit, a.orig);
    assert LocalFences(info) == LocalFences(Prepare(c.limit, a.orig));
    forall i | 0 <= i < |s| ensures HartOk(s'[i], |s|, i) {
      assert HartOk(s[i], |s|, i);
    }
    forall src, t | 0 <= src < |s| && 0 <= t < |s| ensures PairOk(s'[src], src, s'[t], t) {
      assert PairOk(s[src], src, s[t], t);
    }
    forall src | 0 <= src < |s| ensures Conserved(s', src) {
      assert Conserved(s, src);
      WaitersKept(s, s', src);
    }
  }

  lemma KeepReturn(c: Config, s: Sys, a: Action)
    requires Inv(c, s) && Enabled(c, s, a) && a.Return?
    ensures Inv(c, Do(c, s, a))
  {
    var s' := Do(c, s, a);
    assert Conserved(s, a.h);
    assert Waiters(s, a.h) == {};
    forall i | 0 <= i < |s| ensures HartOk(s'[i], |s|, i) {
      assert HartOk(s[i], |s|, i);
    }
    forall src, t | 0 <= src < |s| && 0 <= t < |s| ensures PairOk(s'[src], src, s'[t], t) {
      assert PairOk(s[src], src, s[t], t);
      assert t !in Waiters(s, a.h);
    }
    forall src | 0 <= src < |s| ensures Conserved(s', src) {
      assert Conserved(s, src);
      WaitersKept(s, s', src);
    }
  }

  lemma KeepCount(c: Config, s: Sys, a: Action)
    requires Inv(c, s) && Enabled(c, s, a) && a.Count?
    ensures Inv(c, Do(c, s, a))
  {
    var s' := Do(c, s, a);
    forall i | 0 <= i < |s| ensures HartOk(s'[i], |s|, i) {
      assert HartOk(s[i], |s|, i);
    }
    forall src, t | 0 <= src < |s| && 0 <= t < |s| ensures PairOk(s'[src], src, s'[t], t) {
      assert PairOk(s[src], src, s[t], t);
    }
    forall src | 0 <= src < |s| ensures Conserved(s', src) {
      assert Conserved(s, src);
      WaitersKept(s, s', src);
    }
  }

  lemma LogGrows(log: seq<Fence>, more: seq<Fence>, mark: nat, req: TlbInfo)
    requires mark <= |log|
    requires FencedFor(log[mark..], req) || FencedFor(more, req)
    ensures FencedFor((log + more)[mark..], req)
  {
    if FencedFor(log[mark..], req) {
      FencedForExtends(log[mark..], [], more, req);
      assert (log + more)[mark..] == [] + log[mark..] + more;
    } else {
      FencedForExtends(more, log[mark..], [], req);
      assert (log + more)[mark..] == log[mark..] + more + [];
    }
  }

  lemma KeepFenceSelf(c: Config, s: Sys, a: Action)
    requires Inv(c, s) && Enabled(c, s, a) && a.FenceSelf?
    ensures Inv(c, Do(c, s, a))
  {
    var s' := Do(c, s, a);
    var h, fs := a.h, LocalFences(s[a.h].phase.r.info);
    forall i | 0 <= i < |s| ensures HartOk(s'[i], |s|, i) {
      assert HartOk(s[i], |s|, i);
    }
    forall src, t | 0 <= src < |s| && 0 <= t < |s| ensures PairOk(s'[src], src, s'[t], t) {
      assert PairOk(s[src], src, s[t], t) && HartOk(s[src], |s|, src);
      var p := s[src].phase;
      if t == h && (p.Sending? || p.Syncing?) {
        var m := p.r.marks[t];
        if src == h || FencedFor(s[h].log[m..], p.r.orig) {
          LogGrows(s[h].log, fs, m, p.r.orig);
        }
      }
    }
    forall src | 0 <= src < |s| ensures Conserved(s', src) {
      assert Conserved(s, src);
      WaitersKept(s, s', src);
    }
  }

  lemma KeepRunFences(c: Config, s: Sys, a: Action)
    requires Inv(c, s) && Enabled(c, s, a) && a.RunFences?
    ensures Inv(c, Do(c, s, a))
  {
    var s' := Do(c, s, a);
    var h, e := a.h, s[a.h].proc.e;
    forall i | 0 <= i < |s| ensures HartOk(s'[i], |s|, i) {
      assert HartOk(s[i], |s|, i);
    }
    forall src, t | 0 <= src < |s| && 0 <= t < |s| ensures PairOk(s'[src], src, s'[t], t) {
      assert PairOk(s[src], src, s[t], t);
      var p := s[src].phase;
      if t == h && (p.Sending? || p.Syncing?) {
        var m := p.r.marks[t];
        if FencedFor(s[h].log[m..], p.r.orig) || Covers(e, p.r.orig) {
          LogGrows(s[h].log, LocalFences(e), m, p.r.orig);
        }
      }
    }
    forall src | 0 <= src < |s| ensures Conserved(s', src) {
      assert Conserved(s, src);
      WaitersKept(s, s', src);
    }
  }

  lemma KeepEndEntry(c: Config, s: Sys, a: Action)
    requires Inv(c, s) && Enabled(c, s, a) && a.EndEntry?
    ensures Inv(c, Do(c, s, a))
  {
    var s' := Do(c, s, a);
    forall i | 0 <= i < |s| ensures HartOk(s'[i], |s|, i) {
      assert HartOk(s[i], |s|, i);
    }
    forall src, t | 0 <= src < |s| && 0 <= t < |s| ensures PairOk(s'[src], src, s'[t], t) {
      assert PairOk(s[src], src, s[t], t);
    }
    forall src | 0 <= src < |s| ensures Conserved(s', src) {
      assert Conserved(s, src);
      WaitersKept(s, s', src);
    }
  }

  lemma TakeFirst(x: Hart, y: Hart)
    requires x.proc.NoProc? && x.fifo != []
    requires y.proc == Taken(x.fifo[0]) && y.fifo == x.fifo[1..] && y.log == x.log
    ensures forall src :: Pending(y, src) <==> Pending(x, src)
    ensures forall src, r, mark :: Served(x, src, r, mark) ==> Served(y, src, r, mark)
  {
    forall src ensures Queued(x, src) <==> (src in x.fifo[0].smask || Queued(y, src)) {
      if i :| 0 < i < |x.fifo| && src in x.fifo[i].smask { assert y.fifo[i - 1] == x.fifo[i]; }
      if i :| 0 <= i < |y.fifo| && src in y.fifo[i].smask { assert x.fifo[i + 1] == y.fifo[i]; }
    }
    forall src, r, mark | Served(x, src, r, mark) ensures Served(y, src, r, mark) {
      if i :| 0 < i < |x.fifo| && src in x.fifo[i].smask && Covers(x.fifo[i], r.orig) {
        assert y.fifo[i - 1] == x.fifo[i];
      }
    }
  }

  lemma KeepDequeue(c: Config, s: Sys, a: Action)
    requires Inv(c, s) && Enabled(c, s, a) && a.Dequeue?
    ensures Inv(c, Do(c, s, a))
  {
    var s' := Do(c, s, a);
    TakeFirst(s[a.h], s'[a.h]);
    forall i | 0 <= i < |s| ensures HartOk(s'[i], |s|, i) {
      assert HartOk(s[i], |s|, i);
    }
    forall src, t | 0 <= src < |s| && 0 <= t < |s| ensures PairOk(s'[src], src, s'[t], t) {
      DequeuePair(c, s, a, src, t);
    }
    forall src | 0 <= src < |s| ensures Conserved(s', src) {
      assert Conserved(s, src);
      WaitersKept(s, s', src);
    }
  }

  lemma DequeuePair(c: Config, s: Sys, a: Action, src: nat, t: nat)
    requires Enabled(c, s, a) && a.Dequeue? && src < |s| && t < |s| && PairOk(s[src], src, s[t], t)
    ensures PairOk(Do(c, s, a)[src], src, Do(c, s, a)[t], t)
  {
    TakeFirst(s[a.h], Do(c, s, a)[a.h]);
  }

  lemma DecrementPending(c: Config, s: Sys, a: Action, src: nat)
    requires Inv(c, s) && Enabled(c, s, a) && a.Decrement? && src < |s|
    ensures src != a.src ==> forall t :: 0 <= t < |s| ==> (Pending(s[t], src) <==> Pending(Do(c, s, a)[t], src))
    ensures src == a.src ==> Pending(s[a.h], src) && !Pending(Do(c, s, a)[a.h], src)
    ensures forall t :: 0 <= t < |s| && t != a.h ==> (Pending(s[t], src) <==> Pending(Do(c, s, a)[t], src))
  {
    var s' := Do(c, s, a);
    assert HartOk(s[a.h], |s|, a.h);
    assert s'[a.h].fifo == s[a.h].fifo;
    forall t | 0 <= t < |s| && t != a.h ensures Pending(s[t], src) <==> Pending(s'[t], src) {
      assert s'[t].fifo == s[t].fifo && s'[t].proc == s[t].proc;
    }
  }

  lemma KeepDecrement(c: Config, s: Sys, a: Action)
    requires Inv(c, s) && Enabled(c, s, a) && a.Decrement?
    ensures Inv(c, Do(c, s, a))
  {
    var s' := Do(c, s, a);
    forall i | 0 <= i < |s| ensures HartOk(s'[i], |s|, i) {
      assert HartOk(s[i], |s|, i);
    }
    forall src, t | 0 <= src < |s| && 0 <= t < |s| ensures PairOk(s'[src], src, s'[t], t) {
      assert PairOk(s[src], src, s[t], t);
      DecrementPending(c, s, a, src);
      assert s'[src].phase == s[src].phase && s'[t].fifo == s[t].fifo && s'[t].log == s[t].log;
    }
    forall src | 0 <= src < |s| ensures Conserved(s', src) {
      assert Conserved(s, src) && HartOk(s[a.h], |s|, a.h);
      DecrementPending(c, s, a, src);
      if src == a.src {
        WaiterAdded(s', s, src, a.h);
      } else {
        WaitersKept(s, s', src);
      }
    }
  }

  /** The request of `h` enters the queue of `t`: by folding or at the tail. */
  ghost predicate Enters(s: Sys, s': Sys, h: nat, t: nat)
    requires |s'| == |s| && h < |s| && t < |s| && h != t
    requires s[h].phase.Sending?
  {
    && (forall i :: 0 <= i < |s| && i != h && i != t ==> s'[i] == s[i])
    && s'[h] == s[h].(phase := s[h].phase.(step := Counting(t)))
    && s'[t] == s[t].(fifo := s'[t].fifo)
    && FifoOk(s'[t].fifo, |s|, t)
    && (forall src :: Queued(s'[t], src) <==> Queued(s[t], src) || src == h)
    && (forall i :: 0 <= i < |s'[t].fifo| ==> s'[t].fifo[i].smask !! ProcNames(s[t].proc))
    && (forall src, r, mark :: Served(s[t], src, r, mark) ==> Served(s'[t], src, r, mark))
    && (exists i :: 0 <= i < |s'[t].fifo| && h in s'[t].fifo[i].smask && Covers(s'[t].fifo[i], s[h].phase.r.orig))
  }

  lemma NotYetPending(c: Config, s: Sys, h: nat, t: nat)
    requires Inv(c, s) && h < |s| && t < |s| && s[h].phase.Sending? && t in s[h].phase.todo
    requires s[h].phase.step.NextTarget? || s[h].phase.step.Enqueuing?
    ensures !Pending(s[t], h)
  {
    assert PairOk(s[h], h, s[t], t);
  }

  ghost predicate Entering(c: Config, s: Sys, s': Sys, h: nat, t: nat) {
    && Inv(c, s) && |s'| == |s| && h < |s| && t < |s| && h != t
    && s[h].phase.Sending? && t in s[h].phase.todo
    && (s[h].phase.step.NextTarget? || s[h].phase.step.Enqueuing?)
    && Enters(s, s', h, t)
  }

  lemma EntersPending(c: Config, s: Sys, s': Sys, h: nat, t: nat, src: nat, k: nat)
    requires Entering(c, s, s', h, t) && k < |s|
    ensures Pending(s'[k], src) <==> Pending(s[k], src) || (k == t && src == h)
  {
    if k != t {
      assert s'[k].fifo == s[k].fifo && s'[k].proc == s[k].proc;
    }
  }

  lemma EntersPair(c: Config, s: Sys, s': Sys, h: nat, t: nat, src: nat, k: nat)
    requires Entering(c, s, s', h, t) && src < |s| && k < |s|
    ensures PairOk(s'[src], src, s'[k], k)
  {
    assert PairOk(s[src], src, s[k], k) && HartOk(s[src], |s|, src);
    EntersPending(c, s, s', h, t, src, k);
    if k != t {
      assert s'[k].fifo == s[k].fifo && s'[k].proc == s[k].proc && s'[k].log == s[k].log;
    } else {
      assert s'[k].log == s[k].log;
    }
  }

  lemma EntersConserved(c: Config, s: Sys, s': Sys, h: nat, t: nat, src: nat)
    requires Entering(c, s, s', h, t) && src < |s|
    ensures Conserved(s', src)
  {
    assert Conserved(s, src);
    forall k | 0 <= k < |s| ensures Pending(s'[k], src) <==> Pending(s[k], src) || (k == t && src == h) {
      EntersPending(c, s, s', h, t, src, k);
    }
    if src == h {
      NotYetPending(c, s, h, t);
      WaiterAdded(s, s', src, t);
    } else {
      WaitersKept(s, s', src);
    }
  }

  lemma EntersKeeps(c: Config, s: Sys, s': Sys, h: nat, t: nat)
    requires Entering(c, s, s', h, t)
    ensures Inv(c, s')
  {
    forall i | 0 <= i < |s| ensures HartOk(s'[i], |s|, i) {
      assert HartOk(s[i], |s|, i);
    }
    forall src, k | 0 <= src < |s| && 0 <= k < |s| ensures PairOk(s'[src], src, s'[k], k) {
      EntersPair(c, s, s', h, t, src, k);
    }
    forall src | 0 <= src < |s| ensures Conserved(s', src) {
      EntersConserved(c, s, s', h, t, src);
    }
  }

  /** A queue in which entries only grew, and only by requests of `h`, still holds what it held. */
  lemma QueueGrows(b: Hart, b': Hart, h: nat, k: nat)
    requires b'.proc == b.proc && b'.log == b.log && |b.fifo| <= |b'.fifo| && k < |b'.fifo| && h in b'.fifo[k].smask
    requires forall i :: 0 <= i < |b.fifo| ==> b.fifo[i].smask <= b'.fifo[i].smask <= b.fifo[i].smask + {h}
    requires forall i :: 0 <= i < |b.fifo| ==> Subsumes(b'.fifo[i], b.fifo[i])
    requires forall i :: |b.fifo| <= i < |b'.fifo| ==> b'.fifo[i].smask <= {h}
    ensures forall src :: Queued(b', src) <==> Queued(b, src) || src == h
    ensures forall src, r, mark :: Served(b, src, r, mark) ==> Served(b', src, r, mark)
  {
    forall src ensures Queued(b', src) <==> Queued(b, src) || src == h {
      if i :| 0 <= i < |b.fifo| && src in b.fifo[i].smask { assert src in b'.fifo[i].smask; }
      if i :| 0 <= i < |b'.fifo| && src in b'.fifo[i].smask { assert src == h || src in b.fifo[i].smask; }
    }
    forall src, r, mark | Served(b, src, r, mark) ensures Served(b', src, r, mark) {
      if i :| 0 <= i < |b.fifo| && src in b.fifo[i].smask && Covers(b.fifo[i], r.orig) {
        assert src in b'.fifo[i].smask && Covers(b'.fifo[i], r.orig);
      }
    }
  }

  lemma KeepOffer(c: Config, s: Sys, a: Action)
    requires Inv(c, s) && Enabled(c, s, a) && a.Offer?
    ensures Inv(c, Do(c, s, a))
  {
    var s' := Do(c, s, a);
    var h, t := a.h, a.t;
    var info, orig := s[h].phase.r.info, s[h].phase.r.orig;
    assert HartOk(s[h], |s|, h) && HartOk(s[t], |s|, t);
    NotYetPending(c, s, h, t);
    var k := OfferKeepsFifo(s[t].fifo, info, |s|, t, h);
    if InplaceUpdate(s[t].fifo, info, UpdateCb).1 == Unchanged {
      QuietStep(c, s, s', h);
    } else {
      var q, q' := s[t].fifo, s'[t].fifo;
      assert q' == q[k := q'[k]] && Covers(q'[k], orig);
      QueueGrows(s[t], s'[t], h, k);
      EntersKeeps(c, s, s', h, t);
    }
  }

  lemma KeepEnqueue(c: Config, s: Sys, a: Action)
    requires Inv(c, s) && Enabled(c, s, a) && a.Enqueue?
    ensures Inv(c, Do(c, s, a))
  {
    var s' := Do(c, s, a);
    var h, t := a.h, s[a.h].phase.step.t;
    var info, orig := s[h].phase.r.info, s[h].phase.r.orig;
    assert HartOk(s[h], |s|, h) && HartOk(s[t], |s|, t);
    NotYetPending(c, s, h, t);
    if |s[t].fifo| < c.cap {
      var q, q' := s[t].fifo, s'[t].fifo;
      assert q'[|q|] == info && h in info.smask;
      QueueGrows(s[t], s'[t], h, |q|);
      EntersKeeps(c, s, s', h, t);
    } else {
      QuietStep(c, s, s', h);
    }
  }

  // ---------- whole runs ----------

  lemma KeepStep(c: Config, s: Sys, a: Action)
    requires Inv(c, s) && Enabled(c, s, a)
    ensures Inv(c, Do(c, s, a))
  {
    match a
    case Begin(_, _, _) => KeepBegin(c, s, a);
    case FenceSelf(_) => KeepFenceSelf(c, s, a);
    case Offer(_, _) => KeepOffer(c, s, a);
    case Enqueue(_) => KeepEnqueue(c, s, a);
    case Count(_) => KeepCount(c, s, a);
    case Signal(_) => KeepSignal(c, s, a);
    case RawSend(_) => KeepRawSend(c, s, a);
    case Return(_) => KeepReturn(c, s, a);
    case Dequeue(_) => KeepDequeue(c, s, a);
    case RunFences(_) => KeepRunFences(c, s, a);
    case Decrement(_, _) => KeepDecrement(c, s, a);
    case EndEntry(_) => KeepEndEntry(c, s, a);
    case OtherEvent(_, _, _) => KeepOtherEvent(c, s, a);
    case OtherRaw(_) => KeepOtherEvent(c, s, a);
    case _ => KeepLocalStep(c, s, a);
  }

  lemma InitInv(c: Config, s: Sys)
    requires Init(c, s)
    ensures Inv(c, s)
  {
    forall src | 0 <= src < |s| ensures Conserved(s, src) {
      assert Waiters(s, src) == {};
    }
  }

  lemma {:induction false} RunInv(c: Config, run: seq<Sys>, acts: seq<Action>, k: nat)
    requires IsRun(c, run, acts) && k < |run|
    ensures Inv(c, run[k])
  {
    if k == 0 {
      InitInv(c, run[0]);
    } else {
      RunInv(c, run, acts, k - 1);
      KeepStep(c, run[k - 1], acts[k - 1]);
    }
  }

  predicate Busy(p: Phase) {
    p.Sending? || p.Syncing?
  }

  predicate BusyAt(run: seq<Sys>, h: nat, m: int) {
    0 <= m < |run| && h < |run[m]| && Busy(run[m][h].phase)
  }

  /** Only the owner changes its phase, and a running request never changes identity. */
  lemma RequestStable(c: Config, s: Sys, a: Action, h: nat)
    requires Enabled(c, s, a) && h < |s|
    requires Busy(s[h].phase) && Busy(Do(c, s, a)[h].phase)
    ensures Do(c, s, a)[h].phase.r == s[h].phase.r
  {
  }

  lemma {:induction false} RequestSpan(c: Config, run: seq<Sys>, acts: seq<Action>, i: nat, k: nat)
    requires IsRun(c, run, acts) && i < k < |run| && acts[i].Begin?
    requires forall m :: i < m <= k ==> BusyAt(run, acts[i].h, m)
    ensures BusyAt(run, acts[i].h, k)
    ensures var r := run[k][acts[i].h].phase.r;
      r.orig == acts[i].orig && r.targets == acts[i].targets && r.marks == Marks(run[i])
  {
    assert BusyAt(run, acts[i].h, k);
    if k > i + 1 {
      assert BusyAt(run, acts[i].h, k - 1);
      RequestSpan(c, run, acts, i, k - 1);
      RequestStable(c, run[k - 1], acts[k - 1], acts[i].h);
    }
  }

  /** Completion. If the request begun at step `i` is still running at step `k` and then
      returns success, every targeted hart has run, since step `i`, fences of the requested
      kind over every requested page, whether its request was queued or folded. */
  lemma Completion(c: Config, run: seq<Sys>, acts: seq<Action>, i: nat, k: nat)
    requires IsRun(c, run, acts) && i < k < |acts|
    requires acts[i].Begin? && acts[k].Return? && acts[k].h == acts[i].h
    requires forall m :: i < m <= k ==> BusyAt(run, acts[i].h, m)
    requires acts[i].h < |run[k]| && run[k][acts[i].h].phase.Syncing? && run[k][acts[i].h].phase.ok
    ensures forall t <- acts[i].targets ::
      && t < |run[i]| && t < |run[k]|
      && |run[i][t].log| <= |run[k][t].log|
      && FencedFor(run[k][t].log[|run[i][t].log|..], acts[i].orig)
  {
    var s, h := run[k], acts[i].h;
    RunInv(c, run, acts, k);
    RunInv(c, run, acts, i);
    RequestSpan(c, run, acts, i, k);
    assert Conserved(s, h) && HartOk(s[h], |s|, h);
    assert Waiters(s, h) == {};
    forall t <- acts[i].targets
      ensures && t < |run[i]| && t < |s| && |run[i][t].log| <= |s[t].log|
              && FencedFor(s[t].log[|run[i][t].log|..], acts[i].orig)
    {
      assert PairOk(s[h], h, s[t], t);
      assert t !in Waiters(s, h);
      assert !Pending(s[t], h);
    }
  }

  /** Conservation, spelled out for every state of every run. */
  lemma Conservation(c: Config, run: seq<Sys>, acts: seq<Action>, k: nat, src: nat)
    requires IsRun(c, run, acts) && k < |run| && src < c.n
    ensures |run[k]| == c.n
    ensures run[k][src].sync + Owed(run[k][src].phase) == |Waiters(run[k], src)|
    ensures run[k][src].phase.Idle? ==> run[k][src].sync == 0
    ensures FifoOk(run[k][src].fifo, c.n, src)
  {
    RunInv(c, run, acts, k);
    var s := run[k];
    assert Conserved(s, src) && HartOk(s[src], |s|, src);
    if s[src].phase.Idle? {
      forall t | 0 <= t < |s| ensures !Pending(s[t], src) {
        assert PairOk(s[src], src, s[t], t);
      }
      assert Waiters(s, src) == {};
    }
  }

  /** Disjoint, non-empty masks drawn from a finite set are no more than its elements. */
  lemma {:induction false} Pigeonhole(fifo: seq<TlbInfo>, pool: set<nat>)
    requires forall i :: 0 <= i < |fifo| ==> fifo[i].smask != {} && fifo[i].smask <= pool
    requires forall i, j :: 0 <= i < j < |fifo| ==> fifo[i].smask !! fifo[j].smask
    ensures |fifo| <= |pool|
  {
    if fifo != [] {
      var rest := pool - fifo[0].smask;
      Pigeonhole(fifo[1..], rest);
      assert pool == rest + fifo[0].smask;
      assert |fifo[0].smask| >= 1;
    }
  }

  /** With a slot for every other hart the retry branch is dead: no enqueue meets a full queue. */
  lemma NeverFull(c: Config, run: seq<Sys>, acts: seq<Action>, k: nat)
    requires IsRun(c, run, acts) && k < |acts| && acts[k].Enqueue? && c.cap + 1 >= c.n
    ensures |run[k][run[k][acts[k].h].phase.step.t].fifo| < c.cap
  {
    var s, h := run[k], acts[k].h;
    var t := s[h].phase.step.t;
    RunInv(c, run, acts, k);
    assert HartOk(s[h], |s|, h) && HartOk(s[t], |s|, t);
    NotYetPending(c, s, h, t);
    var all := Below(c.n);
    Pigeonhole(s[t].fifo, all - {t, h});
    assert |all| == |all - {t, h}| + 2 by {
      assert all == (all - {t, h}) + {t, h};
      assert |{t, h}| == 2;
    }
  }
}
