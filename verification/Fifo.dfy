/** The bounded ring buffer that carries flush requests between harts.

    Every operation runs with the queue lock held, so one call is one atomic
    step of the protocols built on it. */
module Fifo {
  import opened Wrappers

  /** The three verdicts of an in-place update callback. */
  datatype Update = Skip | Updated | Unchanged

  /** Offer `x` to the queued entries, oldest first, until the callback accepts one. */
  function InplaceUpdate<T>(q: seq<T>, x: T, cb: (T, T) -> (T, Update)): (r: (seq<T>, Update))
    ensures |r.0| == |q|
  {
    if q == [] then
      ([], Unchanged)
    else
      var (e, u) := cb(x, q[0]);
      if u != Unchanged then
        ([e] + q[1..], u)
      else
        var (rest, v) := InplaceUpdate(q[1..], x, cb);
        ([e] + rest, v)
  }

  /** One scan step past the first `i` entries, all of which declined. */
  lemma {:induction false} InplaceUpdatePrefix<T>(q: seq<T>, x: T, cb: (T, T) -> (T, Update), i: nat, done: seq<T>)
    requires i <= |q| && |done| == i
    requires forall k :: 0 <= k < i ==> cb(x, q[k]) == (done[k], Unchanged)
    ensures InplaceUpdate(q, x, cb).0 == done + InplaceUpdate(q[i..], x, cb).0
    ensures InplaceUpdate(q, x, cb).1 == InplaceUpdate(q[i..], x, cb).1
  {
    if i == 0 {
      assert q[0..] == q;
      assert done + InplaceUpdate(q, x, cb).0 == InplaceUpdate(q, x, cb).0;
    } else {
      InplaceUpdatePrefix(q[1..], x, cb, i - 1, done[1..]);
      assert q[1..][i - 1..] == q[i..];
      assert done == [done[0]] + done[1..];
    }
  }

  /** A scan that settles at entry `i` rewrites that entry and keeps every other one. */
  lemma {:induction false} InplaceUpdateSettles<T>(q: seq<T>, x: T, cb: (T, T) -> (T, Update))
    requires forall a, b :: cb(a, b).1 == Unchanged ==> cb(a, b).0 == b
    ensures var (r, u) := InplaceUpdate(q, x, cb);
      if u == Unchanged then
        r == q && forall k :: 0 <= k < |q| ==> cb(x, q[k]).1 == Unchanged
      else
        exists i :: 0 <= i < |q| && cb(x, q[i]).1 == u && r == q[i := cb(x, q[i]).0]
                 && forall k :: 0 <= k < i ==> cb(x, q[k]).1 == Unchanged
  {
    if q != [] && cb(x, q[0]).1 == Unchanged {
      InplaceUpdateSettles(q[1..], x, cb);
      var (rest, v) := InplaceUpdate(q[1..], x, cb);
      if v != Unchanged {
        var i :| 0 <= i < |q[1..]| && cb(x, q[1..][i]).1 == v && rest == q[1..][i := cb(x, q[1..][i]).0]
              && forall k :: 0 <= k < i ==> cb(x, q[1..][k]).1 == Unchanged;
        assert [q[0]] + rest == q[i + 1 := cb(x, q[i + 1]).0];
        forall k | 0 <= k < i + 1 ensures cb(x, q[k]).1 == Unchanged {
          if k > 0 { assert q[k] == q[1..][k - 1]; }
        }
      } else {
        assert [q[0]] + q[1..] == q;
        forall k | 0 <= k < |q| ensures cb(x, q[k]).1 == Unchanged {
          if k > 0 { assert q[k] == q[1..][k - 1]; }
        }
      }
    } else if q != [] {
      assert [cb(x, q[0]).0] + q[1..] == q[0 := cb(x, q[0]).0];
    }
  }

  /** The first element whose callback asks for a change is the last one looked at. */
  lemma UpdatedHere<T>(was: seq<T>, before: seq<T>, x: T, cb: (T, T) -> (T, Update), i: nat)
    requires |before| == |was| && i < |was| && before[i..] == was[i..] && cb(x, was[i]).1 != Unchanged
    requires forall k :: 0 <= k < i ==> cb(x, was[k]) == (before[k], Unchanged)
    ensures (before[i := cb(x, was[i]).0], cb(x, was[i]).1) == InplaceUpdate(was, x, cb)
  {
    InplaceUpdatePrefix(was, x, cb, i, before[..i]);
    var e, rest := cb(x, was[i]).0, was[i..][1..];
    assert InplaceUpdate(was[i..], x, cb) == ([e] + rest, cb(x, was[i]).1);
    assert before == before[..i] + before[i..];
    assert before[i..][1..] == before[i + 1..];
    assert before[i := e] == before[..i] + ([e] + before[i + 1..]);
  }

  class Ring<T(0)> {
    var queue: array<T>
    var avail: nat
    var tail: nat

    ghost predicate Valid()
      reads this
    {
      && avail <= queue.Length
      && (tail < queue.Length || (tail == 0 && queue.Length == 0))
    }

    /** Slot that holds the `i`-th oldest entry. */
    function Slot(i: nat): (k: nat)
      reads this
      requires Valid() && i < queue.Length
      ensures k < queue.Length
    {
      if tail + i >= queue.Length then tail + i - queue.Length else tail + i
    }

    ghost function Contents(): (s: seq<T>)
      reads this, queue
      requires Valid()
      ensures |s| == avail
    {
      seq(avail, i requires 0 <= i < avail reads this, queue requires Valid() => queue[Slot(i)])
    }

    constructor (entries: nat)
      ensures Valid() && fresh(queue) && queue.Length == entries && Contents() == []
    {
      queue := new T[entries];
      avail, tail := 0, 0;
    }

    /** Append, or report that the ring is full; a forced append drops the oldest entry instead. */
    method Enqueue(data: T, force: bool) returns (ok: bool)
      requires Valid()
      requires force ==> queue.Length > 0
      modifies this`avail, this`tail, queue
      ensures Valid() && queue == old(queue)
      ensures ok == (force || |old(Contents())| < queue.Length)
      ensures !ok ==> Contents() == old(Contents())
      ensures ok && |old(Contents())| < queue.Length ==> Contents() == old(Contents()) + [data]
      ensures ok && |old(Contents())| == queue.Length ==> Contents() == old(Contents())[1..] + [data]
    {
      if avail == queue.Length {
        if !force {
          return false;
        }
        var _ := RawDequeue();
      }
      RawEnqueue(data);
      ok := true;
    }

    method RawEnqueue(data: T)
      requires Valid() && avail < queue.Length
      modifies this`avail, queue
      ensures Valid()
      ensures Contents() == old(Contents()) + [data]
    {
      ghost var was := Contents();
      var head := tail + avail;
      if head >= queue.Length {
        head := head - queue.Length;
      }
      assert head == Slot(avail);
      assert forall i :: 0 <= i < avail ==> Slot(i) != head;
      queue[head] := data;
      avail := avail + 1;
      assert forall i :: 0 <= i < |was| ==> Contents()[i] == was[i];
    }

    method RawDequeue() returns (data: T)
      requires Valid() && avail > 0
      modifies this`avail, this`tail
      ensures Valid()
      ensures data == old(Contents())[0] && Contents() == old(Contents())[1..]
    {
      data := queue[tail];
      avail := avail - 1;
      tail := tail + 1;
      if tail >= queue.Length {
        tail := 0;
      }
      assert forall i :: 0 <= i < avail ==> Contents()[i] == old(Contents())[i + 1];
    }

    /** Remove and return the oldest entry, if there is one. */
    method Dequeue() returns (data: Option<T>)
      requires Valid()
      modifies this`avail, this`tail
      ensures Valid()
      ensures old(Contents()) == [] ==> data == None && Contents() == []
      ensures old(Contents()) != [] ==> data == Some(old(Contents())[0]) && Contents() == old(Contents())[1..]
    {
      if avail == 0 {
        return None;
      }
      var d := RawDequeue();
      data := Some(d);
    }

    /** The scan loop computes exactly the sequence-level `InplaceUpdate`. */
    method Update(x: T, cb: (T, T) -> (T, Update)) returns (u: Update)
      requires Valid()
      modifies queue
      ensures Valid()
      ensures (Contents(), u) == InplaceUpdate(old(Contents()), x, cb)
    {
      ghost var was := Contents();
      u := Unchanged;
      var i := 0;
      while i < avail
        invariant 0 <= i <= avail
        invariant Valid() && u == Unchanged
        invariant |Contents()| == |was|
        invariant Contents()[i..] == was[i..]
        invariant forall k :: 0 <= k < i ==> cb(x, was[k]) == (Contents()[k], Unchanged)
      {
        var index := tail + i;
        if index >= queue.Length {
          index := index - queue.Length;
        }
        assert index == Slot(i) && queue[index] == Contents()[i] == Contents()[i..][0] == was[i];
        ghost var before := Contents();
        var (e, v) := cb(x, queue[index]);
        queue[index] := e;
        assert Contents() == before[i := e];
        u := v;
        if u != Unchanged {
          UpdatedHere(was, before, x, cb, i);
          return;
        }
        assert Contents()[i + 1..] == before[i..][1..] == was[i..][1..] == was[i + 1..];
        i := i + 1;
      }
      InplaceUpdatePrefix(was, x, cb, |was|, Contents());
      assert was[|was|..] == [];
      assert Contents() + [] == Contents();
    }
  }
}
