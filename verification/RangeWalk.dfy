/** A walk along addresses that checks one address per stretch, against checking every address. */
module RangeWalk {

  datatype Verdict = Accept | Reject | At(addr: nat)

  /** The loop cut off after `turns` turns. */
  function Walk(turn: nat -> Verdict, addr: nat, turns: nat): Verdict
    decreases turns
  {
    if turns == 0 then At(addr)
    else
      match turn(addr)
      case Accept => Accept
      case Reject => Reject
      case At(next) => Walk(turn, next, turns - 1)
  }

  /** Every address of `[lo, hi)` passes. */
  ghost predicate All(good: nat -> bool, lo: nat, hi: nat) {
    forall a: nat | lo <= a < hi :: good(a)
  }

  /** What a turn from `a` may do: refuse a bad address, accept or wrap to zero when the rest of the
      range is good, or move on over good addresses. Which of accepting and wrapping happens at the
      end of the range is fixed for the range. */
  ghost predicate Advances(turn: nat -> Verdict, good: nat -> bool, max: nat, wraps: bool, a: nat) {
    match turn(a)
    case Reject => !good(a)
    case Accept => !wraps && All(good, a, max)
    case At(next) =>
      if next == 0 then wraps && All(good, a, max)
      else if next < max then a < next && All(good, a, next)
      else !wraps && All(good, a, max)
  }

  /** A turn that moves to `reach`, or to zero when the stretch reaches the top. */
  lemma Lands(turn: nat -> Verdict, good: nat -> bool, max: nat, wraps: bool, a: nat, reach: nat, top: bool)
    requires a < max && a < reach && All(good, a, if reach < max then reach else max)
    requires (top ==> max <= reach) && (max <= reach ==> wraps == top)
    requires if turn(a).At? then turn(a).addr == (if top then 0 else reach) else turn(a).Accept? && max <= reach && !top
    ensures Advances(turn, good, max, wraps, a)
  {
  }

  ghost predicate Sound(turn: nat -> Verdict, good: nat -> bool, max: nat, wraps: bool) {
    forall a: nat :: if a < max then Advances(turn, good, max, wraps, a) else turn(a) == Accept
  }

  /** A walk that accepts has checked everything, wrapped or not. */
  lemma {:induction false} AcceptSound(turn: nat -> Verdict, good: nat -> bool, max: nat, wraps: bool, addr: nat,
                                       turns: nat)
    requires Sound(turn, good, max, wraps) && Walk(turn, addr, turns) == Accept
    ensures All(good, addr, max)
    ensures addr < max ==> !wraps
    decreases turns
  {
    if addr < max {
      assert Advances(turn, good, max, wraps, addr);
      if turn(addr).At? {
        AcceptSound(turn, good, max, wraps, turn(addr).addr, turns - 1);
      }
    }
  }

  lemma {:induction false} WalkMonotone(turn: nat -> Verdict, addr: nat, m: nat, n: nat)
    requires m <= n && !Walk(turn, addr, m).At?
    ensures Walk(turn, addr, n) == Walk(turn, addr, m)
    decreases m
  {
    if turn(addr).At? {
      WalkMonotone(turn, turn(addr).addr, m - 1, n - 1);
    }
  }

  /** If some address of the range fails, the walk meets it before anything can wrap. */
  lemma {:induction false} RejectReached(turn: nat -> Verdict, good: nat -> bool, max: nat, wraps: bool, addr: nat,
                                         bad: nat)
    requires Sound(turn, good, max, wraps) && addr <= bad < max && !good(bad)
    ensures Walk(turn, addr, bad - addr + 1) == Reject
    decreases bad - addr
  {
    assert Advances(turn, good, max, wraps, addr);
    if turn(addr) != Reject {
      var next := turn(addr).addr;
      assert addr < next <= bad;
      RejectReached(turn, good, max, wraps, next, bad);
      WalkMonotone(turn, next, bad - next + 1, bad - addr);
    }
  }

  lemma {:induction false} AcceptReached(turn: nat -> Verdict, good: nat -> bool, max: nat, addr: nat)
    requires Sound(turn, good, max, false) && All(good, addr, max)
    ensures Walk(turn, addr, if addr < max then max - addr + 1 else 1) == Accept
    decreases max - addr
  {
    if addr < max {
      assert Advances(turn, good, max, false, addr);
      if turn(addr).At? {
        var next := turn(addr).addr;
        AcceptReached(turn, good, max, next);
        WalkMonotone(turn, next, if next < max then max - next + 1 else 1, max - addr);
      }
    }
  }

  /** A walk over good addresses that wraps at the end of the range goes round for ever. */
  lemma {:induction false} GoesRound(turn: nat -> Verdict, good: nat -> bool, max: nat, addr: nat, turns: nat)
    requires Sound(turn, good, max, true) && addr < max && All(good, 0, max)
    ensures Walk(turn, addr, turns).At?
    decreases turns
  {
    if turns > 0 {
      assert Advances(turn, good, max, true, addr) && good(addr);
      GoesRound(turn, good, max, turn(addr).addr, turns - 1);
    }
  }

  /** A walk that wraps meets the bad addresses before its start on the second round. */
  lemma {:induction false} RejectedAfterWrap(turn: nat -> Verdict, good: nat -> bool, max: nat, addr: nat, bad: nat)
    returns (turns: nat)
    requires Sound(turn, good, max, true) && addr < max && All(good, addr, max) && bad < max && !good(bad)
    ensures Walk(turn, addr, turns) == Reject
    decreases max - addr
  {
    assert Advances(turn, good, max, true, addr) && good(addr);
    var next := turn(addr).addr;
    if next == 0 {
      RejectReached(turn, good, max, true, 0, bad);
      turns := bad + 1;
    } else {
      turns := RejectedAfterWrap(turn, good, max, next, bad);
    }
    turns := turns + 1;
  }

  /** How far a walk has come; `wrapped` once it has started again from zero. */
  ghost predicate Tracked(good: nat -> bool, start: nat, max: nat, wraps: bool, wrapped: bool, addr: nat) {
    if wrapped then start < max && wraps && addr < max && All(good, 0, addr)
    else start <= addr && All(good, start, if addr < max then addr else max) && (start < max <= addr ==> !wraps)
  }

  /** A turn keeps track, or its answer is the right one. */
  lemma Tracks(turn: nat -> Verdict, good: nat -> bool, start: nat, max: nat, wraps: bool, wrapped: bool, addr: nat)
    requires addr < max && Advances(turn, good, max, wraps, addr) && Tracked(good, start, max, wraps, wrapped, addr)
    requires !(start < max && wraps && All(good, 0, max))
    ensures match turn(addr)
      case Reject => start < max && !(All(good, start, max) && !wraps)
      case Accept => All(good, start, max) && !wraps
      case At(next) =>
        && Tracked(good, start, max, wraps, wrapped || next == 0, next)
        && (next == 0 ==> !wrapped) && (next != 0 ==> addr < next)
  {
  }

  /** Two answers of one walk are the same answer. */
  lemma OneAnswer(turn: nat -> Verdict, addr: nat, m: nat, n: nat)
    requires !Walk(turn, addr, m).At? && !Walk(turn, addr, n).At?
    ensures Walk(turn, addr, m) == Walk(turn, addr, n)
  {
    if m <= n {
      WalkMonotone(turn, addr, m, n);
    } else {
      WalkMonotone(turn, addr, n, m);
    }
  }

  lemma AcceptExact(turn: nat -> Verdict, good: nat -> bool, max: nat, wraps: bool, addr: nat)
    requires Sound(turn, good, max, wraps) && addr < max
    ensures (exists turns :: Walk(turn, addr, turns) == Accept) <==> All(good, addr, max) && !wraps
  {
    if turns :| Walk(turn, addr, turns) == Accept {
      AcceptSound(turn, good, max, wraps, addr, turns);
    }
    if All(good, addr, max) && !wraps {
      AcceptReached(turn, good, max, addr);
    }
  }

  /** The walk, exactly. It accepts if and only if every address passes and the end of the range
      does not wrap. It refuses if and only if some address fails, where a range that wraps is
      walked from zero again. In the remaining case it never answers. */
  lemma Exact(turn: nat -> Verdict, good: nat -> bool, max: nat, wraps: bool, addr: nat)
    requires Sound(turn, good, max, wraps) && addr < max
    ensures (exists turns :: Walk(turn, addr, turns) == Accept) <==> All(good, addr, max) && !wraps
    ensures (exists turns :: Walk(turn, addr, turns) == Reject) <==> !All(good, if wraps then 0 else addr, max)
  {
    AcceptExact(turn, good, max, wraps, addr);
    if !All(good, addr, max) {
      var bad: nat :| addr <= bad < max && !good(bad);
      RejectReached(turn, good, max, wraps, addr, bad);
    } else if !wraps {
      AcceptReached(turn, good, max, addr);
      if turns :| Walk(turn, addr, turns) == Reject {
        OneAnswer(turn, addr, turns, max - addr + 1);
      }
    } else if All(good, 0, max) {
      if turns :| Walk(turn, addr, turns) == Reject {
        GoesRound(turn, good, max, addr, turns);
      }
    } else {
      var bad: nat :| bad < max && !good(bad);
      var turns := RejectedAfterWrap(turn, good, max, addr, bad);
    }
  }

  /** The same for a start and a size whose sum is taken modulo n: a sum that wraps leaves nothing
      to walk. */
  lemma ExactSum(turn: nat -> Verdict, good: nat -> bool, start: nat, size: nat, n: nat, max: nat, wraps: bool)
    requires start < n && size < n && max == (if start + size < n then start + size else start + size - n)
    requires Sound(turn, good, max, wraps)
    ensures (exists turns :: Walk(turn, start, turns) == Accept)
            <==> size == 0 || n <= start + size || (All(good, start, max) && !wraps)
    ensures (exists turns :: Walk(turn, start, turns) == Reject)
            <==> 0 < size && start + size < n && !All(good, if wraps then 0 else start, max)
  {
    if start < max {
      Exact(turn, good, max, wraps, start);
    } else {
      assert turn(start) == Accept;
      assert Walk(turn, start, 1) == Accept;
    }
  }
}
