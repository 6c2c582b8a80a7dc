/** Which remote fence requests report success, over every run. */
module ShootdownOutcome {
  import opened TlbMerge
  import opened Shootdown
  import opened ShootdownSafety

  /** At step `m` hart `h` raises an interrupt without a device to raise it with. */
  ghost predicate FailedSend(c: Config, acts: seq<Action>, h: nat, m: int) {
    0 <= m < |acts| && acts[m] == RawSend(h) && !c.ipiDev
  }

  /** At step `m` hart `h` finds its target's event word empty, and there is no such device. */
  ghost predicate Stranded(c: Config, run: seq<Sys>, acts: seq<Action>, h: nat, m: int) {
    && 0 <= m < |acts| && m < |run| && acts[m] == Signal(h) && !c.ipiDev
    && h < |run[m]| && SignalsEmpty(run[m], h)
  }

  predicate SignalsEmpty(s: Sys, h: nat)
    requires h < |s|
  {
    && s[h].phase.Sending? && s[h].phase.step.Signalling?
    && s[h].phase.step.t < |s| && s[s[h].phase.step.t].word == {}
  }

  /** Some send between steps `i` and `k` failed. */
  ghost predicate Failed(c: Config, acts: seq<Action>, h: nat, i: nat, k: nat) {
    exists m :: i < m < k && FailedSend(c, acts, h, m)
  }

  ghost predicate Stuck(c: Config, run: seq<Sys>, acts: seq<Action>, h: nat, i: nat, k: nat) {
    exists m :: i < m < k && Stranded(c, run, acts, h, m)
  }

  /** What a phase says of the sends made so far: none has failed while sending goes on, though one may
      be bound to; from then on the flag tells. */
  predicate Tells(p: Phase, ipiDev: bool, failed: bool, stuck: bool) {
    match p
    case Sending(_, _, step) => !failed && (stuck <==> step.RawSending? && !ipiDev)
    case Syncing(_, _, ok) => failed == stuck == !ok
    case _ => true
  }

  /** Other harts never touch the phase of `h`. */
  lemma OwnPhase(c: Config, s: Sys, a: Action, h: nat)
    requires Enabled(c, s, a) && h < |s| && a.h != h
    ensures Do(c, s, a)[h].phase == s[h].phase
  {
  }

  lemma OwnStep(c: Config, s: Sys, a: Action, h: nat, failed: bool, stuck: bool)
    requires Enabled(c, s, a) && h < |s| && a.h == h && Busy(s[h].phase) && Busy(Do(c, s, a)[h].phase)
    requires Tells(s[h].phase, c.ipiDev, failed, stuck)
    ensures var fails, strands := a.RawSend? && !c.ipiDev, a.Signal? && !c.ipiDev && SignalsEmpty(s, h);
      Tells(Do(c, s, a)[h].phase, c.ipiDev, failed || fails, stuck || strands)
  {
  }

  lemma FailedGrows(c: Config, acts: seq<Action>, h: nat, i: nat, k: nat)
    requires i < k
    ensures Failed(c, acts, h, i, k + 1) <==> Failed(c, acts, h, i, k) || FailedSend(c, acts, h, k)
  {
    if Failed(c, acts, h, i, k + 1) {
      var m :| i < m < k + 1 && FailedSend(c, acts, h, m);
      assert m < k || m == k;
    }
  }

  lemma StuckGrows(c: Config, run: seq<Sys>, acts: seq<Action>, h: nat, i: nat, k: nat)
    requires i < k
    ensures Stuck(c, run, acts, h, i, k + 1) <==> Stuck(c, run, acts, h, i, k) || Stranded(c, run, acts, h, k)
  {
    if Stuck(c, run, acts, h, i, k + 1) {
      var m :| i < m < k + 1 && Stranded(c, run, acts, h, m);
      assert m < k || m == k;
    }
  }

  lemma FlagStep(c: Config, run: seq<Sys>, acts: seq<Action>, h: nat, k: nat, failed: bool, stuck: bool)
    requires IsRun(c, run, acts) && k < |acts| && BusyAt(run, h, k) && BusyAt(run, h, k + 1)
    requires Tells(run[k][h].phase, c.ipiDev, failed, stuck)
    ensures Tells(run[k + 1][h].phase, c.ipiDev, failed || FailedSend(c, acts, h, k),
                  stuck || Stranded(c, run, acts, h, k))
  {
    if acts[k].h == h {
      OwnStep(c, run[k], acts[k], h, failed, stuck);
    } else {
      OwnPhase(c, run[k], acts[k], h);
    }
  }

  lemma Begun(c: Config, run: seq<Sys>, acts: seq<Action>, i: nat)
    requires IsRun(c, run, acts) && i < |acts| && acts[i].Begin?
    ensures acts[i].h < |run[i + 1]| && Tells(run[i + 1][acts[i].h].phase, c.ipiDev, false, false)
  {
  }

  lemma {:induction false} FlagTells(c: Config, run: seq<Sys>, acts: seq<Action>, h: nat, i: nat, k: nat)
    requires IsRun(c, run, acts) && i < k < |run| && acts[i].Begin? && acts[i].h == h
    requires forall m :: i < m <= k ==> BusyAt(run, h, m)
    ensures BusyAt(run, h, k)
    ensures Tells(run[k][h].phase, c.ipiDev, Failed(c, acts, h, i, k), Stuck(c, run, acts, h, i, k))
    decreases k
  {
    assert BusyAt(run, h, k);
    if k == i + 1 {
      Begun(c, run, acts, i);
    } else {
      var m := k - 1;
      assert BusyAt(run, h, m);
      FlagTells(c, run, acts, h, i, m);
      FailedGrows(c, acts, h, i, m);
      StuckGrows(c, run, acts, h, i, m);
      FlagStep(c, run, acts, h, m, Failed(c, acts, h, i, m), Stuck(c, run, acts, h, i, m));
    }
  }

  /** Exactly when a request succeeds: it returns with its flag set if and only if none of its raw
      sends failed, that is, there is a device or every target signalled had an event pending. */
  lemma SuccessExact(c: Config, run: seq<Sys>, acts: seq<Action>, i: nat, k: nat)
    requires IsRun(c, run, acts) && i < k < |acts|
    requires acts[i].Begin? && acts[k].Return? && acts[k].h == acts[i].h
    requires forall m :: i < m <= k ==> BusyAt(run, acts[i].h, m)
    ensures BusyAt(run, acts[i].h, k) && run[k][acts[i].h].phase.Syncing?
    ensures run[k][acts[i].h].phase.ok <==> !Failed(c, acts, acts[i].h, i, k)
    ensures run[k][acts[i].h].phase.ok <==> !Stuck(c, run, acts, acts[i].h, i, k)
  {
    FlagTells(c, run, acts, acts[i].h, i, k);
  }

  /** With a device every request that returns has succeeded, and so reached every page of every
      target. */
  lemma DeviceSucceeds(c: Config, run: seq<Sys>, acts: seq<Action>, i: nat, k: nat)
    requires IsRun(c, run, acts) && i < k < |acts| && c.ipiDev
    requires acts[i].Begin? && acts[k].Return? && acts[k].h == acts[i].h
    requires forall m :: i < m <= k ==> BusyAt(run, acts[i].h, m)
    ensures acts[i].h < |run[k]| && run[k][acts[i].h].phase.Syncing? && run[k][acts[i].h].phase.ok
    ensures forall t <- acts[i].targets ::
      && t < |run[i]| && t < |run[k]|
      && |run[i][t].log| <= |run[k][t].log|
      && FencedFor(run[k][t].log[|run[i][t].log|..], acts[i].orig)
  {
    SuccessExact(c, run, acts, i, k);
    Completion(c, run, acts, i, k);
  }
}
