/** The ticket spin lock: a 16-bit owner and a 16-bit next ticket share one 32-bit word.

    Each action is one access to that word by one of `n` harts. Drawn tickets and entries
    are recorded without wrap-around so that the wrapped tickets have something to mean. */
module TicketLock {
  import opened Wrappers

  const HALF: nat := 0x1_0000
  const WORD: nat := 0x1_0000_0000

  function Owner(w: nat): nat { w % HALF }

  function Next(w: nat): nat { w / HALF }

  function Pack(owner: nat, next: nat): nat { owner + HALF * next }

  /** The atomic add both lock paths use; a carry out of the next half is lost. */
  function Draw(w: nat): nat { (w + HALF) % WORD }

  /** A half-word store to the owner. */
  function StoreOwner(w: nat, owner: nat): nat { Pack(owner, Next(w)) }

  datatype Phase =
    | Idle
    | Waiting(ticket: nat)     // spinning in spin_lock
    | Trying                   // in spin_trylock, about to load
    | Reserved(seen: nat)      // loaded a free lock with a reservation
    | Holding
    | Unlocking(owner: nat)    // has read the owner, not yet stored

  datatype Sys = Sys(
    word: nat, harts: seq<Phase>, reservations: set<nat>,
    drawn: seq<nat>, entered: seq<nat>, served: nat)

  datatype Action =
    | Lock(i: nat)
    | Spin(i: nat)
    | Try(i: nat)
    | TryLoad(i: nat)
    | TryStore(i: nat, ok: bool)
    | UnlockLoad(i: nat)
    | UnlockStore(i: nat)

  /** A conditional store may fail for no reason, but succeeds only under a live reservation. */
  predicate Enabled(s: Sys, a: Action) {
    && a.i < |s.harts|
    && var p := s.harts[a.i];
       match a
       case Lock(_) => p.Idle?
       case Spin(_) => p.Waiting?
       case Try(_) => p.Idle?
       case TryLoad(_) => p.Trying?
       case TryStore(i, ok) => p.Reserved? && (ok ==> i in s.reservations)
       case UnlockLoad(_) => p.Holding?
       case UnlockStore(_) => p.Unlocking?
  }

  function Set(s: Sys, i: nat, p: Phase): Sys
    requires i < |s.harts|
  {
    s.(harts := s.harts[i := p])
  }

  function Do(s: Sys, a: Action): Sys
    requires Enabled(s, a)
  {
    match a
    case Lock(i) =>
      var t := s.(word := Draw(s.word), reservations := {}, drawn := s.drawn + [i]);
      if Next(s.word) == Owner(s.word) then Set(t, i, Holding).(entered := s.entered + [i])
      else Set(t, i, Waiting(Next(s.word)))
    case Spin(i) =>
      if s.harts[i].ticket == Owner(s.word) then Set(s, i, Holding).(entered := s.entered + [i]) else s
    case Try(i) => Set(s, i, Trying)
    case TryLoad(i) =>
      if Owner(s.word) == Next(s.word) then Set(s, i, Reserved(s.word)).(reservations := s.reservations + {i})
      else Set(s, i, Idle)
    case TryStore(i, ok) =>
      if ok then
        Set(s, i, Holding).(word := Draw(s.harts[i].seen), reservations := {}, drawn := s.drawn + [i],
            entered := s.entered + [i])
      else Set(s, i, Trying)
    case UnlockLoad(i) => Set(s, i, Unlocking(Owner(s.word)))
    case UnlockStore(i) =>
      Set(s, i, Idle).(word := StoreOwner(s.word, (s.harts[i].owner + 1) % HALF), reservations := {},
          served := s.served + 1)
  }

  predicate Init(n: nat, s: Sys) {
    && s.word == 0 && s.reservations == {} && s.drawn == [] && s.entered == [] && s.served == 0
    && |s.harts| == n && forall i :: 0 <= i < n ==> s.harts[i].Idle?
  }

  ghost predicate IsRun(n: nat, run: seq<Sys>, acts: seq<Action>) {
    && |run| == |acts| + 1 && Init(n, run[0])
    && forall k :: 0 <= k < |acts| ==> Enabled(run[k], acts[k]) && run[k + 1] == Do(run[k], acts[k])
  }

  predicate Inside(p: Phase) { p.Holding? || p.Unlocking? }

  predicate Busy(p: Phase) { Inside(p) || p.Waiting? }

  // ---------- the word ----------

  lemma PackParts(owner: nat, next: nat)
    requires owner < HALF
    ensures Owner(Pack(owner, next)) == owner && Next(Pack(owner, next)) == next
  {
  }

  lemma DrawPack(owner: nat, k: nat)
    requires owner < HALF
    ensures Draw(Pack(owner, k % HALF)) == Pack(owner, (k + 1) % HALF)
  {
  }

  // ---------- the invariant ----------

  predicate PhaseOk(s: Sys, k: nat, p: Phase) {
    if k < |s.entered| then p.Holding? || p == Unlocking(s.served % HALF)
    else p == Waiting(k % HALF)
  }

  /** Ticket k belongs to a hart that is waiting for it or using it. */
  predicate TicketOk(s: Sys, k: nat)
    requires k < |s.drawn|
  {
    s.drawn[k] < |s.harts| && PhaseOk(s, k, s.harts[s.drawn[k]])
  }

  predicate CountersOk(s: Sys) {
    && s.word == Pack(s.served % HALF, |s.drawn| % HALF)
    && s.served <= |s.entered| <= s.served + 1 && s.entered <= s.drawn
  }

  /** Whose ticket it is: a busy hart has exactly one unserved ticket. */
  ghost predicate TicketsOk(s: Sys)
    requires s.served <= |s.drawn|
  {
    && (forall k :: s.served <= k < |s.drawn| ==> TicketOk(s, k))
    && (forall j, k :: s.served <= j < k < |s.drawn| ==> s.drawn[j] != s.drawn[k])
    && (forall i :: 0 <= i < |s.harts| && Busy(s.harts[i]) ==> i in s.drawn[s.served..])
  }

  predicate ReservationOk(s: Sys, i: nat)
    requires i < |s.harts|
  {
    s.harts[i].Reserved? && i in s.reservations ==> s.harts[i].seen == s.word && Owner(s.word) == Next(s.word)
  }

  ghost predicate Inv(s: Sys) {
    && CountersOk(s) && TicketsOk(s)
    && forall i :: 0 <= i < |s.harts| ==> ReservationOk(s, i)
  }

  /** Distinct harts are no more than there are harts. */
  lemma {:induction false} DistinctBound(q: seq<nat>, pool: set<nat>)
    requires forall j, k :: 0 <= j < k < |q| ==> q[j] != q[k]
    requires forall j :: 0 <= j < |q| ==> q[j] in pool
    ensures |q| <= |pool|
  {
    if q != [] {
      DistinctBound(q[1..], pool - {q[0]});
    }
  }

  /** No more tickets are unserved than there are harts, and one fewer while some hart is not busy. */
  lemma Outstanding(s: Sys, i: nat)
    requires Inv(s) && i < |s.harts|
    ensures |s.drawn| - s.served + (if Busy(s.harts[i]) then 0 else 1) <= |s.harts|
  {
    var q := s.drawn[s.served..];
    var all := Below(|s.harts|);
    forall j | 0 <= j < |q| ensures q[j] in all {
      assert TicketOk(s, s.served + j);
    }
    if Busy(s.harts[i]) {
      DistinctBound(q, all);
    } else {
      forall j | 0 <= j < |q| ensures q[j] != i {
        assert TicketOk(s, s.served + j);
      }
      DistinctBound(q, all - {i});
    }
  }

  /** Fewer than 2^16 apart, tickets with the same low half are the same ticket. */
  lemma NoAlias(a: nat, b: nat)
    requires a <= b < a + HALF && a % HALF == b % HALF
    ensures a == b
  {
  }

  lemma WhoHolds(s: Sys, i: nat) returns (k: nat)
    requires Inv(s) && i < |s.harts| && Busy(s.harts[i])
    ensures s.served <= k < |s.drawn| && s.drawn[k] == i && PhaseOk(s, k, s.harts[i])
  {
    var q := s.drawn[s.served..];
    var j :| 0 <= j < |q| && q[j] == i;
    k := s.served + j;
    assert TicketOk(s, k);
  }

  /** A lock that looks free to a hart that is not in line is free. */
  lemma LooksFree(s: Sys, i: nat)
    requires Inv(s) && i < |s.harts| <= HALF && !Busy(s.harts[i]) && Owner(s.word) == Next(s.word)
    ensures s.served == |s.entered| == |s.drawn|
  {
    Outstanding(s, i);
    PackParts(s.served % HALF, |s.drawn| % HALF);
    NoAlias(s.served, |s.drawn|);
  }

  lemma KeepLock(s: Sys, i: nat)
    requires Inv(s) && |s.harts| <= HALF && Enabled(s, Lock(i))
    ensures Inv(Do(s, Lock(i)))
  {
    var t := Do(s, Lock(i));
    var m := |s.drawn|;
    PackParts(s.served % HALF, m % HALF);
    DrawPack(s.served % HALF, m);
    if Next(s.word) == Owner(s.word) {
      LooksFree(s, i);
    }
    forall k | s.served <= k < |t.drawn| ensures TicketOk(t, k) {
      if k < m {
        assert TicketOk(s, k);
      }
    }
    forall k | s.served <= k < m ensures s.drawn[k] != i {
      assert TicketOk(s, k);
    }
    assert t.drawn[s.served..] == s.drawn[s.served..] + [i];
  }

  lemma KeepSpin(s: Sys, i: nat)
    requires Inv(s) && |s.harts| <= HALF && Enabled(s, Spin(i))
    ensures Inv(Do(s, Spin(i)))
  {
    var t := Do(s, Spin(i));
    PackParts(s.served % HALF, |s.drawn| % HALF);
    if s.harts[i].ticket == Owner(s.word) {
      var k0 := WhoHolds(s, i);
      Outstanding(s, i);
      NoAlias(s.served, k0);
      forall k | s.served <= k < |t.drawn| ensures TicketOk(t, k) {
        assert TicketOk(s, k);
      }
      forall j | 0 <= j < |t.harts| ensures ReservationOk(t, j) {
        assert ReservationOk(s, j);
      }
    }
  }

  /** Steps of a hart that is not in line, leaving the word and the line alone. */
  lemma KeepAside(s: Sys, a: Action)
    requires Inv(s) && Enabled(s, a) && (a.Try? || a.TryLoad? || (a.TryStore? && !a.ok))
    ensures Inv(Do(s, a))
  {
    var t := Do(s, a);
    forall k | t.served <= k < |t.drawn| ensures TicketOk(t, k) {
      assert TicketOk(s, k);
    }
    forall i | 0 <= i < |t.harts| ensures ReservationOk(t, i) {
      assert ReservationOk(s, i);
    }
  }

  lemma KeepTryStore(s: Sys, i: nat)
    requires Inv(s) && |s.harts| <= HALF && Enabled(s, TryStore(i, true))
    ensures Inv(Do(s, TryStore(i, true)))
  {
    var t := Do(s, TryStore(i, true));
    assert ReservationOk(s, i);
    LooksFree(s, i);
    PackParts(s.served % HALF, |s.drawn| % HALF);
    DrawPack(s.served % HALF, |s.drawn|);
    assert s.drawn[s.served..] == [];
    assert t.drawn[t.served..] == [i];
  }

  lemma KeepUnlockLoad(s: Sys, i: nat)
    requires Inv(s) && Enabled(s, UnlockLoad(i))
    ensures Inv(Do(s, UnlockLoad(i)))
  {
    var t := Do(s, UnlockLoad(i));
    PackParts(s.served % HALF, |s.drawn| % HALF);
    var k0 := WhoHolds(s, i);
    forall k | t.served <= k < |t.drawn| ensures TicketOk(t, k) {
      assert TicketOk(s, k);
    }
    forall j | 0 <= j < |t.harts| ensures ReservationOk(t, j) {
      assert ReservationOk(s, j);
    }
  }

  lemma KeepUnlockStore(s: Sys, i: nat)
    requires Inv(s) && Enabled(s, UnlockStore(i))
    ensures Inv(Do(s, UnlockStore(i)))
  {
    var t := Do(s, UnlockStore(i));
    PackParts(s.served % HALF, |s.drawn| % HALF);
    var k0 := WhoHolds(s, i);
    assert k0 == s.served;
    forall k | t.served <= k < |t.drawn| ensures TicketOk(t, k) {
      assert TicketOk(s, k);
      assert s.drawn[k] != i;
    }
    forall j | 0 <= j < |t.harts| && Busy(t.harts[j]) ensures j in t.drawn[t.served..] {
      var k := WhoHolds(s, j);
      assert t.drawn[t.served..][k - t.served] == j;
    }
  }

  lemma Keep(s: Sys, a: Action)
    requires Inv(s) && |s.harts| <= HALF && Enabled(s, a)
    ensures Inv(Do(s, a))
  {
    match a
    case Lock(i) => KeepLock(s, i);
    case Spin(i) => KeepSpin(s, i);
    case UnlockLoad(i) => KeepUnlockLoad(s, i);
    case UnlockStore(i) => KeepUnlockStore(s, i);
    case TryStore(i, ok) =>
      if ok {
        KeepTryStore(s, i);
      } else {
        KeepAside(s, a);
      }
    case _ => KeepAside(s, a);
  }

  lemma {:induction false} RunInv(n: nat, run: seq<Sys>, acts: seq<Action>, k: nat)
    requires IsRun(n, run, acts) && k <= |acts| && n <= HALF
    ensures Inv(run[k]) && |run[k].harts| == n
  {
    if k > 0 {
      RunInv(n, run, acts, k - 1);
      Keep(run[k - 1], acts[k - 1]);
    }
  }

  // ---------- main results ----------

  predicate Exclusive(s: Sys) {
    forall i, j :: 0 <= i < j < |s.harts| ==> !(Inside(s.harts[i]) && Inside(s.harts[j]))
  }

  /** Up to 2^16 harts, through any number of wrap-arounds: one hart inside at a time, and
      harts enter in the order in which they drew their tickets. */
  lemma ExclusionAndOrder(n: nat, run: seq<Sys>, acts: seq<Action>, k: nat)
    requires IsRun(n, run, acts) && k <= |acts| && n <= HALF
    ensures Exclusive(run[k])
    ensures run[k].entered <= run[k].drawn
    ensures run[k].served <= |run[k].entered| <= run[k].served + 1
  {
    RunInv(n, run, acts, k);
    var s := run[k];
    forall i, j | 0 <= i < j < |s.harts| && Inside(s.harts[i]) && Inside(s.harts[j]) ensures false {
      var a := WhoHolds(s, i);
      var b := WhoHolds(s, j);
    }
  }

  /** A successful trylock found nobody inside and nobody in line. */
  lemma TryOnlyWhenFree(n: nat, run: seq<Sys>, acts: seq<Action>, k: nat)
    requires IsRun(n, run, acts) && k < |acts| && n <= HALF
    requires acts[k] == TryStore(acts[k].i, true)
    ensures forall j :: 0 <= j < |run[k].harts| ==> !Busy(run[k].harts[j])
  {
    RunInv(n, run, acts, k);
    var s, i := run[k], acts[k].i;
    assert ReservationOk(s, i);
    LooksFree(s, i);
    assert s.drawn[s.served..] == [];
  }

  /** Nobody holds the lock or waits for it. */
  ghost predicate Unused(s: Sys) {
    forall j :: 0 <= j < |s.harts| ==> !Busy(s.harts[j])
  }

  /** To a hart that is not in line the lock looks free exactly when it is. */
  lemma FreeExactly(s: Sys, i: nat)
    requires Inv(s) && i < |s.harts| <= HALF && !Busy(s.harts[i])
    ensures Owner(s.word) == Next(s.word) <==> Unused(s)
  {
    PackParts(s.served % HALF, |s.drawn| % HALF);
    if Owner(s.word) == Next(s.word) {
      LooksFree(s, i);
      assert s.drawn[s.served..] == [];
    } else {
      assert TicketOk(s, s.served);
    }
  }

  /** A trylock goes on to its store exactly if the lock is unused, and gives up otherwise. If the store
      follows at once it can succeed, and then the hart, and no other, is inside. */
  lemma TryExactly(n: nat, run: seq<Sys>, acts: seq<Action>, k: nat, i: nat)
    requires IsRun(n, run, acts) && k <= |acts| && n <= HALF && i < n == |run[k].harts| && run[k].harts[i].Trying?
    ensures var t := Do(run[k], TryLoad(i));
      if Unused(run[k]) then
        && Enabled(t, TryStore(i, true))
        && Do(t, TryStore(i, true)).harts == run[k].harts[i := Holding]
        && Do(t, TryStore(i, true)).entered == run[k].entered + [i]
      else t.harts == run[k].harts[i := Idle]
  {
    RunInv(n, run, acts, k);
    FreeExactly(run[k], i);
  }

  /** A lock call goes in at once exactly if the lock is unused, and waits otherwise. */
  lemma LockExactly(n: nat, run: seq<Sys>, acts: seq<Action>, k: nat, i: nat)
    requires IsRun(n, run, acts) && k <= |acts| && n <= HALF && i < n == |run[k].harts| && run[k].harts[i].Idle?
    ensures var t := Do(run[k], Lock(i));
      && t.drawn == run[k].drawn + [i] && i < |t.harts|
      && if Unused(run[k]) then t.harts[i] == Holding else t.harts[i].Waiting?
  {
    RunInv(n, run, acts, k);
    FreeExactly(run[k], i);
  }

  /** Someone is always able to go on: with a line, the hart at its head is inside or sees its number. */
  lemma HeadCanEnter(n: nat, run: seq<Sys>, acts: seq<Action>, k: nat)
    requires IsRun(n, run, acts) && k <= |acts| && n <= HALF && run[k].served < |run[k].drawn|
    ensures var s := run[k];
            var i := s.drawn[s.served];
            i < |s.harts| && (Inside(s.harts[i]) || s.harts[i] == Waiting(Owner(s.word)))
  {
    RunInv(n, run, acts, k);
    var s := run[k];
    assert TicketOk(s, s.served);
    PackParts(s.served % HALF, |s.drawn| % HALF);
  }

  /** The first m harts draw a ticket each; the first of them goes in. */
  lemma {:induction false} Queue(n: nat, m: nat) returns (run: seq<Sys>, acts: seq<Action>)
    requires m <= n && m <= HALF
    ensures IsRun(n, run, acts)
    ensures var s := run[|acts|];
            && s.word == Pack(0, m % HALF) && |s.harts| == n
            && (m > 0 ==> s.harts[0].Holding?) && forall i :: m <= i < n ==> s.harts[i].Idle?
  {
    if m == 0 {
      run, acts := [Sys(0, seq(n, i => Idle), {}, [], [], 0)], [];
    } else {
      run, acts := Queue(n, m - 1);
      var a := Lock(m - 1);
      DrawPack(0, m - 1);
      PackParts(0, m - 1);
      run, acts := run + [Do(run[|acts|], a)], acts + [a];
    }
  }

  ghost predicate AlwaysExclusive(n: nat) {
    forall run: seq<Sys>, acts: seq<Action> :: IsRun(n, run, acts) ==> Exclusive(run[|acts|])
  }

  /** The bound is exact: with one hart more, hart 2^16 draws the number of the hart inside. */
  lemma ExclusiveExactly(n: nat)
    ensures AlwaysExclusive(n) <==> n <= HALF
  {
    if n <= HALF {
      forall run: seq<Sys>, acts: seq<Action> | IsRun(n, run, acts) ensures Exclusive(run[|acts|]) {
        ExclusionAndOrder(n, run, acts, |acts|);
      }
    } else {
      var run, acts := Queue(n, HALF);
      var a := Lock(HALF);
      PackParts(0, 0);
      run, acts := run + [Do(run[|acts|], a)], acts + [a];
      assert IsRun(n, run, acts);
      var s := run[|acts|];
      assert Inside(s.harts[0]) && Inside(s.harts[HALF]);
    }
  }
}
