/** The list-walking firmware routines of the event machine, updating events,
    lists and trap registers in place. */
module SseFirmware {
  import opened Sse
  import opened SseNesting

  datatype Code = Ok | InvalidState | Invalid

  lemma {:induction false} RemoveAbsent(list: seq<Key>, k: Key)
    requires k !in list
    ensures Remove(list, k) == list
  {
    if list != [] {
      RemoveAbsent(list[1..], k);
      assert list == [list[0]] + list[1..];
    }
  }

  class Firmware {
    var events: map<Key, Event>
    var harts: seq<HartState>

    function View(): Sys
      reads this
    {
      Sys(events, harts)
    }

    /** Walk to the first entry the event goes in front of, and link it in there. */
    method AddToList(k: Key, h: nat)
      requires KeysKnown(View()) && k in events && h < |harts|
      modifies this`harts
      ensures harts == old(harts)[h := old(harts)[h].(list := Insert(events, old(harts)[h].list, k))]
    {
      var list := harts[h].list;
      ghost var p := InsertPos(events, list, events[k]);
      var i := 0;
      while i < |list|
        invariant 0 <= i <= p
      {
        var tmp := events[list[i]];
        if events[k].prio < tmp.prio {
          break;
        }
        if events[k].prio == tmp.prio && events[k].id < tmp.id {
          break;
        }
        i := i + 1;
      }
      harts := harts[h := harts[h].(list := list[..i] + [k] + list[i..])];
    }

    method Enable(k: Key) returns (code: Code)
      requires KeysKnown(View()) && k in events
      modifies this
      ensures View() == Do(old(View()), Action.Enable(k))
      ensures code == if old(events)[k].Is(Registered) then Ok else InvalidState
    {
      var e := events[k];
      if !e.Is(Registered) {
        return InvalidState;
      }
      events := events[k := e.(status := e.status.(state := Enabled))];
      AddToList(k, e.hartindex);
      code := Ok;
    }

    method RemoveFromList(k: Key, h: nat)
      requires h < |harts|
      modifies this`harts
      ensures harts == old(harts)[h := old(harts)[h].(list := Remove(old(harts)[h].list, k))]
    {
      var list := harts[h].list;
      var i := Position(list, k);
      if i < |list| {
        harts := harts[h := harts[h].(list := list[..i] + list[i + 1..])];
      } else {
        assert harts[h] == harts[h].(list := Remove(list, k));
        assert harts == harts[h := harts[h]];
      }
    }

    /** Where the event is on the list, if it is. */
    static method Position(list: seq<Key>, k: Key) returns (i: nat)
      ensures i <= |list|
      ensures Remove(list, k) == if i < |list| then list[..i] + list[i + 1..] else list
    {
      i := 0;
      while i < |list| && list[i] != k
        invariant 0 <= i <= |list|
        invariant forall j :: 0 <= j < i ==> list[j] != k
      {
        i := i + 1;
      }
      if i < |list| {
        RemoveOnce(list, k, i);
      } else {
        RemoveAbsent(list, k);
      }
    }

    method Disable(k: Key) returns (code: Code)
      requires KeysKnown(View()) && k in events
      modifies this
      ensures View() == Do(old(View()), Action.Disable(k))
      ensures code == if old(events)[k].Is(Enabled) then Ok else InvalidState
    {
      var e := events[k];
      if !e.Is(Enabled) {
        return InvalidState;
      }
      RemoveFromList(k, e.hartindex);
      events := events[k := e.(status := e.status.(state := Registered))];
      code := Ok;
    }

    /** Deliver at most one pending event to hart `h`, highest priority first. */
    method ProcessPending(h: nat)
      requires KeysKnown(View()) && h < |harts|
      modifies this
      ensures View() == DoProcess(old(View()), h)
    {
      var x := harts[h];
      if x.masked {
        return;
      }
      ghost var p := FirstStop(events, x.list, h);
      var i := 0;
      while i < |x.list|
        invariant 0 <= i <= p
        invariant View() == old(View())
      {
        var k := x.list[i];
        var e := events[k];
        if e.Is(Running) {
          return;
        }
        if e.Ready(h) {
          events := events[k := InjectEvent(e, x.regs)];
          harts := harts[h := x.(regs := InjectRegs(e, x.regs, h), stack := x.stack + [Frame(k, x.regs)])];
          return;
        }
        i := i + 1;
      }
    }

    /** Complete the first running event of hart `h`, if there is one. */
    method Complete(h: nat) returns (code: Code)
      requires KeysKnown(View()) && h < |harts|
      modifies this
      ensures View() == DoComplete(old(View()), h)
      ensures var list := old(harts)[h].list;
        var i := FirstRunning(old(events), list);
        code == if i < |list| && old(events)[list[i]].hartid != h then Invalid else Ok
    {
      var x := harts[h];
      ghost var p := FirstRunning(events, x.list);
      var i := 0;
      while i < |x.list| && !events[x.list[i]].Is(Running)
        invariant 0 <= i <= p
        invariant View() == old(View())
      {
        i := i + 1;
      }
      if i == |x.list| {
        return Ok;
      }
      var k := x.list[i];
      var e := events[k];
      if e.hartid != h {
        return Invalid;
      }
      events := events[k := e.(status := e.status.(state := Enabled))];
      if e.oneshot {
        RemoveFromList(k, h);
        events := events[k := e.(status := e.status.(state := Registered))];
      }
      harts := harts[h := harts[h].(regs := ResumeRegs(e, x.regs), stack := Pop(x.stack))];
      code := Ok;
    }
  }
}
