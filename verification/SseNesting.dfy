/** What every run of the event machine keeps: the enabled lists, the nesting
    of running events, and the interrupted contexts. */
module SseNesting {
  import opened Sse

  // ---------- invariants ----------

  /** Keys carry the event number they stand for; local events never leave their hart. */
  ghost predicate KeyOk(k: Key, e: Event, n: nat) {
    && e.id == k.id && e.hartindex < n
    && (if k.GlobalKey? then IsGlobal(k.id) else !IsGlobal(k.id) && e.hartindex == k.home)
  }

  /** The list of hart `h` holds exactly its enabled and running events, strictly sorted. */
  ghost predicate ListOk(events: map<Key, Event>, list: seq<Key>, h: nat) {
    && (forall k <- list :: k in events && events[k].hartindex == h && events[k].Listed())
    && (forall k <- events :: events[k].hartindex == h && events[k].Listed() ==> k in list)
    && Sorted(events, list)
  }

  ghost predicate Sorted(events: map<Key, Event>, list: seq<Key>)
    requires forall k <- list :: k in events
  {
    forall i, j :: 0 <= i < j < |list| ==> Before(events[list[i]], events[list[j]])
  }

  /** The running events of hart `h` are those on its stack, each outranking all below it. */
  ghost predicate StackOk(events: map<Key, Event>, stack: seq<Frame>, h: nat) {
    && (forall i :: 0 <= i < |stack| ==> stack[i].key in events)
    && (forall i :: 0 <= i < |stack| ==>
          var e := events[stack[i].key]; e.Is(Running) && e.hartindex == h && e.hartid == h)
    && (forall k <- events :: events[k].hartindex == h && events[k].Is(Running) ==> OnStack(stack, k))
    && (forall i, j :: 0 <= i < j < |stack| ==> Before(events[stack[j].key], events[stack[i].key]))
  }

  ghost predicate OnStack(stack: seq<Frame>, k: Key) {
    exists i :: 0 <= i < |stack| && stack[i].key == k
  }

  /** (SEPC, SPP, SPIE) as they stood right after the `i`-th injection. */
  function Live(events: map<Key, Event>, stack: seq<Frame>, regs: Regs, i: nat): (nat, bool, bool)
    requires i < |stack| && forall j :: 0 <= j < |stack| ==> stack[j].key in events
  {
    if i == |stack| - 1 then (regs.sepc, regs.spp, regs.spie)
    else var sv := events[stack[i + 1].key].saved; (sv.sepc, sv.spp, sv.spie)
  }

  /** Attributes and live registers together encode each interrupted context. */
  ghost predicate ContextOk(events: map<Key, Event>, stack: seq<Frame>, regs: Regs)
    requires forall j :: 0 <= j < |stack| ==> stack[j].key in events
  {
    forall i :: 0 <= i < |stack| ==>
      var ctx := stack[i].ctx;
      && ctx.mpp <= 1
      && events[stack[i].key].saved == Interrupted(ctx.sepc, ctx.spp, ctx.spie, ctx.a6, ctx.a7)
      && Live(events, stack, regs, i) == (ctx.mepc, ctx.mpp != 0, ctx.sie)
  }

  ghost predicate HartOk(events: map<Key, Event>, x: HartState, h: nat) {
    && ListOk(events, x.list, h)
    && StackOk(events, x.stack, h)
    && ContextOk(events, x.stack, x.regs)
  }

  ghost predicate Inv(s: Sys) {
    && (forall k <- s.events :: KeyOk(k, s.events[k], |s.harts|))
    && (forall h :: 0 <= h < |s.harts| ==> HartOk(s.events, s.harts[h], h))
  }

  lemma InvKnown(s: Sys)
    requires Inv(s)
    ensures KeysKnown(s)
  {
    forall h | 0 <= h < |s.harts| ensures forall k <- s.harts[h].list :: k in s.events {
      assert HartOk(s.events, s.harts[h], h);
    }
  }

  // ---------- small facts ----------

  lemma DistinctIds(events: map<Key, Event>, n: nat, a: Key, b: Key)
    requires forall k <- events :: KeyOk(k, events[k], n)
    requires a in events && b in events && a != b && events[a].hartindex == events[b].hartindex
    ensures Before(events[a], events[b]) || Before(events[b], events[a])
  {
  }

  lemma {:induction false} RemoveOnce(list: seq<Key>, k: Key, p: nat)
    requires p < |list| && list[p] == k && forall i :: 0 <= i < p ==> list[i] != k
    ensures Remove(list, k) == list[..p] + list[p + 1..]
  {
    if p > 0 {
      RemoveOnce(list[1..], k, p - 1);
      assert list[..p] == [list[0]] + list[1..][..p - 1];
      assert list[1..][p - 1 + 1..] == list[p + 1..];
    }
  }

  /** Nothing about hart `g` changes when only events of other harts do. */
  lemma Unaffected(events: map<Key, Event>, events': map<Key, Event>, x: HartState, g: nat)
    requires HartOk(events, x, g) && events'.Keys == events.Keys
    requires forall k <- events :: events[k].hartindex == g || events'[k].hartindex == g ==> events'[k] == events[k]
    ensures HartOk(events', x, g)
  {
    forall i | 0 <= i < |x.stack| ensures events'[x.stack[i].key] == events[x.stack[i].key] {
      assert x.stack[i].key in events && events[x.stack[i].key].hartindex == g;
    }
    forall k <- x.list ensures k in events' && events'[k] == events[k] {
      assert k in events && events[k].hartindex == g;
    }
    forall i | 0 <= i < |x.stack| ensures Live(events', x.stack, x.regs, i) == Live(events, x.stack, x.regs, i) {}
  }

  /** One event changes in ways no list or stack looks at. */
  lemma Unlisted(s: Sys, k: Key, e: Event)
    requires Inv(s) && k in s.events && KeyOk(k, e, |s.harts|)
    requires !s.events[k].Listed() && !e.Listed()
    ensures Inv(Update(s, k, e))
  {
    var events' := s.events[k := e];
    forall h | 0 <= h < |s.harts| ensures HartOk(events', s.harts[h], h) {
      assert HartOk(s.events, s.harts[h], h);
      var x := s.harts[h];
      assert k !in x.list;
      forall i | 0 <= i < |x.stack| ensures x.stack[i].key != k {}
      forall i | 0 <= i < |x.stack| ensures Live(events', x.stack, x.regs, i) == Live(s.events, x.stack, x.regs, i) {}
    }
  }

  predicate SameView(a: Event, b: Event) {
    && a.id == b.id && a.prio == b.prio && a.hartid == b.hartid && a.hartindex == b.hartindex
    && a.saved == b.saved && a.status.state == b.status.state
  }

  /** Lists, stacks and contexts look at no more of an event than its view. */
  lemma Cosmetic(events: map<Key, Event>, events': map<Key, Event>, x: HartState, h: nat)
    requires HartOk(events, x, h) && events'.Keys == events.Keys
    requires forall k <- events :: SameView(events[k], events'[k])
    ensures HartOk(events', x, h)
  {
    CosmeticList(events, events', x.list, h);
    CosmeticStack(events, events', x.stack, h);
    CosmeticContext(events, events', x.stack, x.regs);
  }

  lemma CosmeticList(events: map<Key, Event>, events': map<Key, Event>, list: seq<Key>, h: nat)
    requires ListOk(events, list, h) && events'.Keys == events.Keys
    requires forall k <- events :: SameView(events[k], events'[k])
    ensures ListOk(events', list, h)
  {
  }

  lemma CosmeticStack(events: map<Key, Event>, events': map<Key, Event>, stack: seq<Frame>, h: nat)
    requires StackOk(events, stack, h) && events'.Keys == events.Keys
    requires forall k <- events :: SameView(events[k], events'[k])
    ensures StackOk(events', stack, h)
  {
  }

  lemma CosmeticContext(events: map<Key, Event>, events': map<Key, Event>, stack: seq<Frame>, regs: Regs)
    requires forall j :: 0 <= j < |stack| ==> stack[j].key in events
    requires ContextOk(events, stack, regs) && events'.Keys == events.Keys
    requires forall k <- events :: SameView(events[k], events'[k])
    ensures ContextOk(events', stack, regs)
  {
    forall i | 0 <= i < |stack| ensures Live(events', stack, regs, i) == Live(events, stack, regs, i) {
      assert stack[i].key in events;
    }
  }

  lemma KeepPending(s: Sys, k: Key)
    requires Inv(s) && k in s.events && s.events[k].Listed()
    ensures Inv(Update(s, k, s.events[k].(status := s.events[k].status.(pending := true))))
  {
    var events' := s.events[k := s.events[k].(status := s.events[k].status.(pending := true))];
    forall h | 0 <= h < |s.harts| ensures HartOk(events', s.harts[h], h) {
      Cosmetic(s.events, events', s.harts[h], h);
    }
  }

  // ---------- enabling and disabling ----------

  lemma InsertMembers(list: seq<Key>, p: nat, k: Key)
    requires p <= |list|
    ensures forall x :: x in list[..p] + [k] + list[p..] <==> x == k || x in list
  {
    assert list == list[..p] + list[p..];
  }

  lemma InsertSorted(events: map<Key, Event>, list: seq<Key>, k: Key, n: nat)
    requires forall x <- events :: KeyOk(x, events[x], n)
    requires k in events && k !in list
    requires forall x <- list :: x in events && events[x].hartindex == events[k].hartindex
    requires Sorted(events, list)
    ensures Sorted(events, Insert(events, list, k))
  {
    var e := events[k];
    var p := InsertPos(events, list, e);
    var r := Insert(events, list, k);
    forall i | 0 <= i < p ensures Before(events[list[i]], e) {
      DistinctIds(events, n, list[i], k);
    }
    forall i | p <= i < |list| ensures Before(e, events[list[i]]) {
      assert Before(e, events[list[p]]);
    }
    assert forall i :: 0 <= i < |r| ==> r[i] == if i < p then list[i] else if i == p then k else list[i - 1];
  }

  lemma CutMembers(list: seq<Key>, p: nat)
    requires p < |list| && forall i :: 0 <= i < |list| && i != p ==> list[i] != list[p]
    ensures forall x :: x in list[..p] + list[p + 1..] <==> x in list && x != list[p]
  {
    assert list == list[..p] + [list[p]] + list[p + 1..];
  }

  lemma RemoveMembers(events: map<Key, Event>, list: seq<Key>, k: Key) returns (p: nat)
    requires k in list && (forall x <- list :: x in events) && Sorted(events, list)
    ensures p < |list| && Remove(list, k) == list[..p] + list[p + 1..]
    ensures forall x :: x in Remove(list, k) <==> x in list && x != k
  {
    p :| 0 <= p < |list| && list[p] == k;
    forall i | 0 <= i < |list| && i != p ensures list[i] != k {
      assert Before(events[list[i]], events[list[p]]) || Before(events[list[p]], events[list[i]]);
    }
    RemoveOnce(list, k, p);
    CutMembers(list, p);
  }

  lemma CutSorted(events: map<Key, Event>, list: seq<Key>, p: nat)
    requires p < |list| && (forall x <- list :: x in events) && Sorted(events, list)
    ensures Sorted(events, list[..p] + list[p + 1..])
  {
    var r := list[..p] + list[p + 1..];
    assert forall i :: 0 <= i < |r| ==> r[i] == if i < p then list[i] else list[i + 1];
  }

  lemma EnableList(events: map<Key, Event>, events': map<Key, Event>, list: seq<Key>, k: Key, h: nat, n: nat)
    requires ListOk(events, list, h) && k in events && !events[k].Listed()
    requires k in events' && events' == events[k := events'[k]] && events'[k].Listed() && events'[k].hartindex == h
    requires forall x <- events' :: KeyOk(x, events'[x], n)
    ensures (forall x <- list :: x in events') && ListOk(events', Insert(events', list, k), h)
  {
    assert k !in list && Sorted(events', list);
    InsertSorted(events', list, k, n);
    InsertMembers(list, InsertPos(events', list, events'[k]), k);
  }

  lemma DisableList(events: map<Key, Event>, events': map<Key, Event>, list: seq<Key>, k: Key, h: nat)
    requires ListOk(events, list, h) && k in list
    requires k in events' && events' == events[k := events'[k]] && !events'[k].Listed()
    ensures ListOk(events', Remove(list, k), h)
  {
    var p := RemoveMembers(events, list, k);
    CutSorted(events, list, p);
    assert Sorted(events', Remove(list, k));
  }

  /** The stack and contexts survive a change to an event that never runs. */
  lemma StackKept(events: map<Key, Event>, events': map<Key, Event>, x: HartState, k: Key, h: nat)
    requires StackOk(events, x.stack, h) && ContextOk(events, x.stack, x.regs) && events'.Keys == events.Keys
    requires forall y <- events :: y != k ==> SameView(events[y], events'[y])
    requires k in events && !events[k].Is(Running) && !events'[k].Is(Running)
    ensures StackOk(events', x.stack, h) && ContextOk(events', x.stack, x.regs)
  {
    forall i | 0 <= i < |x.stack| ensures x.stack[i].key in events && x.stack[i].key != k {}
    forall i | 0 <= i < |x.stack| ensures Live(events', x.stack, x.regs, i) == Live(events, x.stack, x.regs, i) {}
  }

  lemma KeepEnable(s: Sys, k: Key)
    requires Inv(s) && k in s.events && s.events[k].Is(Registered)
    ensures KeysKnown(s) && Inv(Do(s, Enable(k)))
  {
    InvKnown(s);
    var s' := Do(s, Enable(k));
    var h := s.events[k].hartindex;
    assert forall x <- s'.events :: KeyOk(x, s'.events[x], |s.harts|);
    forall g | 0 <= g < |s.harts| ensures HartOk(s'.events, s'.harts[g], g) {
      assert HartOk(s.events, s.harts[g], g);
      if g == h {
        EnableList(s.events, s'.events, s.harts[h].list, k, h, |s.harts|);
        StackKept(s.events, s'.events, s.harts[h], k, h);
      } else {
        Unaffected(s.events, s'.events, s.harts[g], g);
      }
    }
  }

  lemma KeepDisable(s: Sys, k: Key)
    requires Inv(s) && k in s.events && s.events[k].Is(Enabled)
    ensures KeysKnown(s) && Inv(Do(s, Disable(k)))
  {
    InvKnown(s);
    var s' := Do(s, Disable(k));
    var h := s.events[k].hartindex;
    forall g | 0 <= g < |s.harts| ensures HartOk(s'.events, s'.harts[g], g) {
      assert HartOk(s.events, s.harts[g], g);
      if g == h {
        DisableList(s.events, s'.events, s.harts[h].list, k, h);
        StackKept(s.events, s'.events, s.harts[h], k, h);
      } else {
        Unaffected(s.events, s'.events, s.harts[g], g);
      }
    }
  }

  // ---------- injection ----------

  /** What `DoProcess` injects, if anything: the first list entry that is running or ready. */
  predicate Injects(s: Sys, h: nat)
    requires KeysKnown(s) && h < |s.harts|
  {
    var x := s.harts[h];
    var i := FirstStop(s.events, x.list, h);
    !x.masked && i < |x.list| && !s.events[x.list[i]].Is(Running)
  }

  function InjectedKey(s: Sys, h: nat): Key
    requires KeysKnown(s) && h < |s.harts| && Injects(s, h)
  {
    s.harts[h].list[FirstStop(s.events, s.harts[h].list, h)]
  }

  /** An event number the hart has ready to deliver, ahead of everything it is running. */
  ghost predicate Deliverable(s: Sys, h: nat, k: Key) {
    && k in s.events && s.events[k].hartindex == h && s.events[k].Ready(h)
    && forall r <- s.events :: s.events[r].hartindex == h && s.events[r].Is(Running)
        ==> Before(s.events[k], s.events[r])
  }

  lemma InjectedOutranks(s: Sys, h: nat)
    requires Inv(s) && h < |s.harts|
    requires KeysKnown(s) && Injects(s, h)
    ensures Deliverable(s, h, InjectedKey(s, h))
    ensures var k := InjectedKey(s, h);
      forall r <- s.events :: s.events[r].hartindex == h && s.events[r].Ready(h) && r != k
          ==> Before(s.events[k], s.events[r])
  {
    assert HartOk(s.events, s.harts[h], h);
    FirstStopLeads(s.events, s.harts[h].list, h);
  }

  /** The event the scan stops at comes before everything else the scan could have stopped at. */
  lemma FirstStopLeads(events: map<Key, Event>, list: seq<Key>, h: nat)
    requires ListOk(events, list, h)
    ensures var i := FirstStop(events, list, h);
      i < |list| ==> forall r <- events ::
        events[r].hartindex == h && r != list[i] && (events[r].Ready(h) || events[r].Is(Running)) ==>
          Before(events[list[i]], events[r])
  {
    var i := FirstStop(events, list, h);
    forall r <- events | i < |list| && events[r].hartindex == h && r != list[i]
        && (events[r].Ready(h) || events[r].Is(Running))
      ensures Before(events[list[i]], events[r])
    {
      assert r in list;
      var j :| 0 <= j < |list| && list[j] == r;
      assert j > i;
    }
  }

  /** Delivery is exact: an unmasked hart injects if and only if some ready event outranks
      everything it is running. */
  lemma InjectsIff(s: Sys, h: nat)
    requires Inv(s) && h < |s.harts|
    ensures KeysKnown(s)
    ensures Injects(s, h) <==> !s.harts[h].masked && exists k :: Deliverable(s, h, k)
  {
    InvKnown(s);
    assert HartOk(s.events, s.harts[h], h);
    if Injects(s, h) {
      InjectedOutranks(s, h);
    }
    if k :| Deliverable(s, h, k) {
      StopsAtReady(s, h, k);
    }
  }

  lemma StopsAtReady(s: Sys, h: nat, k: Key)
    requires h < |s.harts| && HartOk(s.events, s.harts[h], h) && KeysKnown(s) && Deliverable(s, h, k)
    ensures !s.harts[h].masked ==> Injects(s, h)
  {
    var list := s.harts[h].list;
    assert k in list;
    FirstStopLeads(s.events, list, h);
  }

  lemma InjectStack(events: map<Key, Event>, x: HartState, k: Key, h: nat)
    requires StackOk(events, x.stack, h) && k in events && events[k].hartindex == h && events[k].Ready(h)
    requires forall r <- events :: events[r].hartindex == h && events[r].Is(Running) ==> Before(events[k], events[r])
    ensures StackOk(events[k := InjectEvent(events[k], x.regs)], x.stack + [Frame(k, x.regs)], h)
  {
    var events' := events[k := InjectEvent(events[k], x.regs)];
    var stack' := x.stack + [Frame(k, x.regs)];
    forall i | 0 <= i < |x.stack| ensures stack'[i].key in events && stack'[i].key != k {}
    forall r <- events' | events'[r].hartindex == h && events'[r].Is(Running) ensures OnStack(stack', r) {
      if r == k {
        assert stack'[|x.stack|].key == k;
      } else {
        assert OnStack(x.stack, r);
        var i :| 0 <= i < |x.stack| && x.stack[i].key == r;
        assert stack'[i].key == r;
      }
    }
  }

  lemma InjectContext(events: map<Key, Event>, x: HartState, k: Key, h: nat)
    requires StackOk(events, x.stack, h) && ContextOk(events, x.stack, x.regs) && x.regs.mpp <= 1
    requires k in events && !events[k].Is(Running)
    ensures forall j :: 0 <= j < |x.stack| ==> x.stack[j].key in events && x.stack[j].key != k
    ensures ContextOk(events[k := InjectEvent(events[k], x.regs)], x.stack + [Frame(k, x.regs)],
        InjectRegs(events[k], x.regs, h))
  {
    var events' := events[k := InjectEvent(events[k], x.regs)];
    var stack' := x.stack + [Frame(k, x.regs)];
    var regs' := InjectRegs(events[k], x.regs, h);
    forall j | 0 <= j < |x.stack| ensures stack'[j].key in events && stack'[j].key != k {}
    forall i | 0 <= i < |x.stack| ensures Live(events', stack', regs', i) == Live(events, x.stack, x.regs, i) {}
  }

  lemma KeepProcess(s: Sys, h: nat)
    requires Inv(s) && h < |s.harts| && s.harts[h].regs.mpp <= 1
    ensures KeysKnown(s) && Inv(DoProcess(s, h))
  {
    InvKnown(s);
    if Injects(s, h) {
      InjectedOutranks(s, h);
      var s', k := DoProcess(s, h), InjectedKey(s, h);
      forall g | 0 <= g < |s.harts| ensures HartOk(s'.events, s'.harts[g], g) {
        assert HartOk(s.events, s.harts[g], g);
        if g == h {
          InjectStack(s.events, s.harts[h], k, h);
          InjectContext(s.events, s.harts[h], k, h);
          assert ListOk(s'.events, s'.harts[h].list, h);
        } else {
          Unaffected(s.events, s'.events, s.harts[g], g);
        }
      }
    }
  }

  // ---------- completion ----------

  /** The first running event of the list is the one injected last, and it belongs here. */
  lemma CompletesTop(s: Sys, h: nat)
    requires Inv(s) && h < |s.harts| && s.harts[h].stack != []
    ensures KeysKnown(s)
    ensures var x := s.harts[h];
      var i := FirstRunning(s.events, x.list);
      && i < |x.list| && x.list[i] == x.stack[|x.stack| - 1].key
      && s.events[x.list[i]].hartid == h
  {
    InvKnown(s);
    var x := s.harts[h];
    assert HartOk(s.events, x, h);
    FirstRunningIsTop(s.events, x.list, x.stack, h);
  }

  lemma FirstRunningIsTop(events: map<Key, Event>, list: seq<Key>, stack: seq<Frame>, h: nat)
    requires ListOk(events, list, h) && StackOk(events, stack, h) && stack != []
    ensures var i := FirstRunning(events, list);
      i < |list| && list[i] == stack[|stack| - 1].key && events[list[i]].hartid == h
  {
    var top := stack[|stack| - 1].key;
    assert top in list;
    var j :| 0 <= j < |list| && list[j] == top;
    var i := FirstRunning(events, list);
    assert i <= j;
    assert OnStack(stack, list[i]);
    var m :| 0 <= m < |stack| && stack[m].key == list[i];
    var first, last := events[list[i]], events[top];
    assert m < |stack| - 1 ==> Before(last, first);
    assert i < j ==> Before(first, last);
  }

  lemma PopStack(events: map<Key, Event>, events': map<Key, Event>, stack: seq<Frame>, h: nat)
    requires StackOk(events, stack, h) && stack != []
    requires var k := stack[|stack| - 1].key;
      k in events' && events' == events[k := events'[k]] && !events'[k].Is(Running)
    ensures StackOk(events', Pop(stack), h)
  {
    var k := stack[|stack| - 1].key;
    var stack' := Pop(stack);
    forall i | 0 <= i < |stack'| ensures stack'[i].key in events && stack'[i].key != k {
      assert Before(events[k], events[stack[i].key]);
    }
    forall r <- events' | events'[r].hartindex == h && events'[r].Is(Running) ensures OnStack(stack', r) {
      assert OnStack(stack, r);
      var i :| 0 <= i < |stack| && stack[i].key == r;
      assert stack'[i].key == r;
    }
  }

  lemma PopContext(events: map<Key, Event>, events': map<Key, Event>, stack: seq<Frame>, regs: Regs, h: nat)
    requires StackOk(events, stack, h) && stack != [] && ContextOk(events, stack, regs)
    requires var k := stack[|stack| - 1].key;
      k in events' && events' == events[k := events'[k]]
    ensures var regs' := ResumeRegs(events[stack[|stack| - 1].key], regs);
      && (forall j :: 0 <= j < |Pop(stack)| ==> Pop(stack)[j].key in events')
      && ContextOk(events', Pop(stack), regs')
  {
    var k := stack[|stack| - 1].key;
    var stack' := Pop(stack);
    var regs' := ResumeRegs(events[k], regs);
    forall i | 0 <= i < |stack'| ensures stack'[i].key in events && stack'[i].key != k {
      assert Before(events[k], events[stack[i].key]);
    }
    forall i | 0 <= i < |stack'| ensures Live(events', stack', regs', i) == Live(events, stack, regs, i) {}
  }

  lemma CompletedHart(s: Sys, h: nat)
    requires Inv(s) && h < |s.harts| && s.harts[h].stack != []
    ensures KeysKnown(s) && HartOk(DoComplete(s, h).events, DoComplete(s, h).harts[h], h)
  {
    CompletesTop(s, h);
    var x, s' := s.harts[h], DoComplete(s, h);
    assert HartOk(s.events, x, h);
    var k := x.stack[|x.stack| - 1].key;
    PopStack(s.events, s'.events, x.stack, h);
    PopContext(s.events, s'.events, x.stack, x.regs, h);
    if s.events[k].oneshot {
      DisableList(s.events, s'.events, x.list, k, h);
    } else {
      assert ListOk(s'.events, x.list, h);
    }
  }

  lemma KeepComplete(s: Sys, h: nat)
    requires Inv(s) && h < |s.harts|
    ensures KeysKnown(s) && Inv(DoComplete(s, h))
  {
    InvKnown(s);
    var x := s.harts[h];
    assert HartOk(s.events, x, h);
    if x.stack == [] {
      assert FirstRunning(s.events, x.list) == |x.list|;
    } else {
      CompletesTop(s, h);
      var s', k := DoComplete(s, h), x.stack[|x.stack| - 1].key;
      forall g | 0 <= g < |s.harts| ensures HartOk(s'.events, s'.harts[g], g) {
        assert HartOk(s.events, s.harts[g], g);
        if g == h {
          CompletedHart(s, h);
        } else {
          Unaffected(s.events, s'.events, s.harts[g], g);
        }
      }
    }
  }

  /** Completion gives the whole interrupted context back. */
  lemma CompleteRestores(s: Sys, h: nat)
    requires Inv(s) && h < |s.harts| && s.harts[h].stack != []
    ensures KeysKnown(s)
    ensures DoComplete(s, h).harts[h].regs == s.harts[h].stack[|s.harts[h].stack| - 1].ctx
  {
    CompletesTop(s, h);
    assert HartOk(s.events, s.harts[h], h);
  }

  // ---------- whole runs ----------

  lemma KeepExecute(s: Sys, h: nat, x: HartState)
    requires Inv(s) && h < |s.harts|
    requires var y := s.harts[h];
      && x.list == y.list && x.stack == y.stack
      && (y.stack != [] ==> x.regs.sepc == y.regs.sepc && x.regs.spp == y.regs.spp && x.regs.spie == y.regs.spie)
    ensures Inv(SetHartState(s, h, x))
  {
    var y, s' := s.harts[h], SetHartState(s, h, x);
    forall g | 0 <= g < |s.harts| ensures HartOk(s'.events, s'.harts[g], g) {
      assert HartOk(s.events, s.harts[g], g);
      if g == h {
        forall i | 0 <= i < |x.stack| ensures Live(s.events, x.stack, x.regs, i)
            == Live(s.events, y.stack, y.regs, i) {}
      }
    }
  }

  lemma KeepStep(s: Sys, a: Action)
    requires Inv(s) && Possible(s, a)
    ensures KeysKnown(s) && Inv(Do(s, a))
  {
    InvKnown(s);
    match a
    case Process(h) => KeepProcess(s, h);
    case Complete(h) => KeepComplete(s, h);
    case Mask(h, on) => KeepExecute(s, h, s.harts[h].(masked := on));
    case Execute(h, after) => KeepExecute(s, h, s.harts[h].(regs := after));
    case Enable(k) => if s.events[k].Is(Registered) { KeepEnable(s, k); }
    case Disable(k) => if s.events[k].Is(Enabled) { KeepDisable(s, k); }
    case SetPend(k) => if s.events[k].Listed() { KeepPending(s, k); }
    case _ =>
      assert KeyOk(a.k, s.events[a.k], |s.harts|);
      var s' := Do(s, a);
      if s' != s { Unlisted(s, a.k, s'.events[a.k]); }
  }

  /** Start of day: no event in use, empty lists. */
  ghost predicate Init(s: Sys) {
    && (forall k <- s.events :: KeyOk(k, s.events[k], |s.harts|) && s.events[k].Is(Unused))
    && (forall h :: 0 <= h < |s.harts| ==> s.harts[h].list == [] && s.harts[h].stack == [])
  }

  ghost predicate IsRun(run: seq<Sys>, acts: seq<Action>) {
    && |run| == |acts| + 1
    && Init(run[0])
    && forall i :: 0 <= i < |acts|
        ==> KeysKnown(run[i]) && Possible(run[i], acts[i]) && run[i + 1] == Do(run[i], acts[i])
  }

  lemma {:induction false} RunInv(run: seq<Sys>, acts: seq<Action>, k: nat)
    requires IsRun(run, acts) && k < |run|
    ensures Inv(run[k]) && KeysKnown(run[k])
  {
    if k > 0 {
      RunInv(run, acts, k - 1);
      KeepStep(run[k - 1], acts[k - 1]);
    }
    InvKnown(run[k]);
  }

  /** Nesting, over every run: an injection delivers the highest-priority ready event, which
      outranks every running one, and a completion finishes the event injected last. */
  lemma Nesting(run: seq<Sys>, acts: seq<Action>, i: nat, h: nat)
    requires IsRun(run, acts) && i < |acts| && h < |run[i].harts|
    ensures KeysKnown(run[i]) && ListOk(run[i].events, run[i].harts[h].list, h)
    ensures acts[i] == Process(h) && Injects(run[i], h) ==>
      var s, k := run[i], InjectedKey(run[i], h);
      && Deliverable(s, h, k)
      && (forall r <- s.events :: s.events[r].hartindex == h && s.events[r].Ready(h) && r != k ==>
            Before(s.events[k], s.events[r]))
      && run[i + 1].harts[h].stack == s.harts[h].stack + [Frame(k, s.harts[h].regs)]
    ensures acts[i] == Complete(h) && run[i].harts[h].stack != [] ==>
      var s, k := run[i], run[i].harts[h].stack[|run[i].harts[h].stack| - 1].key;
      && k in s.events && s.events[k].Is(Running)
      && k in run[i + 1].events && !run[i + 1].events[k].Is(Running)
      && run[i + 1].harts[h].stack == Pop(s.harts[h].stack)
  {
    var s := run[i];
    RunInv(run, acts, i);
    assert HartOk(s.events, s.harts[h], h);
    if acts[i] == Process(h) && Injects(s, h) { InjectedOutranks(s, h); }
    if acts[i] == Complete(h) && s.harts[h].stack != [] { CompletesTop(s, h); }
  }

  function Depth(run: seq<Sys>, h: nat, k: int): nat {
    if 0 <= k < |run| && h < |run[k].harts| then |run[k].harts[h].stack| else 0
  }

  /** A step leaves the lower part of a stack alone. */
  lemma StepKeepsBase(s: Sys, a: Action, h: nat, d: nat)
    requires KeysKnown(s) && Possible(s, a) && h < |s.harts|
    requires d < |s.harts[h].stack| && d < |Do(s, a).harts[h].stack|
    ensures |Do(s, a).harts| == |s.harts| && Do(s, a).harts[h].stack[d] == s.harts[h].stack[d]
  {
  }

  lemma {:induction false} BaseKept(run: seq<Sys>, acts: seq<Action>, i: nat, j: nat, h: nat, d: nat)
    requires IsRun(run, acts) && i < j < |run| && h < |run[i].harts|
    requires forall m :: i < m <= j ==> Depth(run, h, m) > d
    ensures h < |run[j].harts| && d < |run[i + 1].harts[h].stack| && d < |run[j].harts[h].stack|
    ensures run[j].harts[h].stack[d] == run[i + 1].harts[h].stack[d]
  {
    assert Depth(run, h, j) > d && Depth(run, h, i + 1) > d;
    if j > i + 1 {
      BaseKept(run, acts, i, j - 1, h, d);
      StepKeepsBase(run[j - 1], acts[j - 1], h, d);
    }
  }

  lemma InjectionPushes(s: Sys, h: nat)
    requires KeysKnown(s) && h < |s.harts| && Injects(s, h) && Possible(s, Process(h))
    ensures var t, d := Do(s, Process(h)), |s.harts[h].stack|;
      && h < |t.harts| && |t.harts[h].stack| == d + 1 && t.harts[h].stack[d].ctx == s.harts[h].regs
  {
  }

  lemma InjectedAt(run: seq<Sys>, acts: seq<Action>, i: nat, h: nat)
    requires IsRun(run, acts) && i < |acts| && h < |run[i].harts| && KeysKnown(run[i])
    requires acts[i] == Process(h) && Injects(run[i], h)
    ensures var x, d := run[i].harts[h], Depth(run, h, i);
      && h < |run[i + 1].harts| && d < |run[i + 1].harts[h].stack|
      && run[i + 1].harts[h].stack[d].ctx == x.regs
  {
    InjectionPushes(run[i], h);
  }

  /** Completing an event would bring its context back. */
  predicate Restores(s: Sys, h: nat) {
    KeysKnown(s) && h < |s.harts| && s.harts[h].stack != []
    && DoComplete(s, h).harts[h].regs == s.harts[h].stack[|s.harts[h].stack| - 1].ctx
  }

  lemma InvRestores(s: Sys, h: nat)
    requires Inv(s) && h < |s.harts| && s.harts[h].stack != []
    ensures Restores(s, h)
  {
    CompleteRestores(s, h);
  }

  lemma RestoredAt(run: seq<Sys>, acts: seq<Action>, j: nat, h: nat)
    requires IsRun(run, acts) && j < |run| && h < |run[j].harts| && run[j].harts[h].stack != []
    ensures Restores(run[j], h)
  {
    RunInv(run, acts, j);
    InvRestores(run[j], h);
  }

  lemma CompletedAt(run: seq<Sys>, acts: seq<Action>, j: nat, h: nat)
    requires IsRun(run, acts) && j < |acts| && h < |run[j].harts| && run[j].harts[h].stack != []
    requires acts[j] == Complete(h)
    ensures h < |run[j + 1].harts|
    ensures run[j + 1].harts[h].regs == run[j].harts[h].stack[|run[j].harts[h].stack| - 1].ctx
  {
    RestoredAt(run, acts, j, h);
  }

  /** Context round trip, over every run: the completion that matches an injection puts back
      mepc, SEPC, a6, a7, MPP, SIE, SPIE and SPP as they stood when the event was injected,
      however many other events were injected and completed in between. */
  lemma RoundTrip(run: seq<Sys>, acts: seq<Action>, i: nat, j: nat, h: nat)
    requires IsRun(run, acts) && i < j < |acts| && h < |run[i].harts| && KeysKnown(run[i])
    requires acts[i] == Process(h) && Injects(run[i], h) && acts[j] == Complete(h)
    requires forall m :: i < m <= j ==> Depth(run, h, m) > Depth(run, h, i)
    requires Depth(run, h, j) == Depth(run, h, i) + 1
    ensures h < |run[j + 1].harts|
    ensures run[j + 1].harts[h].regs == run[i].harts[h].regs
  {
    BaseKept(run, acts, i, j, h, Depth(run, h, i));
    InjectedAt(run, acts, i, h);
    CompletedAt(run, acts, j, h);
  }
}
