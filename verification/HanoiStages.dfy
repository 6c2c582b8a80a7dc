/** Towers of Hanoi with an explicit stack whose frames carry a stage instead of a program counter. */
module HanoiStages {
  import opened PowersOfTwo
  import opened Hanoi

  datatype Stage = Stage(n: int, from: char, to: char, tmp: char, stage: nat)

  /** The stack, bottom first, the running count, and the moves printed. */
  datatype State = State(stack: seq<Stage>, count: nat, out: seq<Move>)

  /** One turn of the loop, as a function of the state. */
  function Next(c: State): State
    requires c.stack != []
  {
    var below, f := c.stack[..|c.stack| - 1], c.stack[|c.stack| - 1];
    var mv := Move(f.from, f.to);
    if f.n == 1 then State(below, c.count + 1, c.out + [mv])
    else match f.stage
      case 0 => c.(stack := below + [f.(stage := 1), Stage(f.n - 1, f.from, f.tmp, f.to, 0)])
      case 1 => State(below + [f.(stage := 2)], c.count + 1, c.out + [mv])
      case 2 => c.(stack := below + [f.(stage := 3), Stage(f.n - 1, f.tmp, f.to, f.from, 0)])
      case 3 => c.(stack := below)
      case _ => c
  }

  predicate CanTurn(c: State, room: nat) {
    && 0 < |c.stack| <= room
    && var f := c.stack[|c.stack| - 1];
       f.n == 1 || (f.stage <= 3 && (f.stage == 0 || f.stage == 2 ==> |c.stack| < room))
  }

  /** k turns, none of them out of room, lead from c to d. */
  predicate Leads(c: State, k: nat, room: nat, d: State)
    decreases k
  {
    if k == 0 then c == d else CanTurn(c, room) && Leads(Next(c), k - 1, room, d)
  }

  lemma {:induction false} Onward(c: State, j: nat, room: nat, d: State, k: nat, e: State)
    requires Leads(c, j, room, d) && Leads(d, k, room, e)
    ensures Leads(c, j + k, room, e)
    decreases j
  {
    if j > 0 {
      Onward(Next(c), j - 1, room, d, k, e);
    }
  }

  function Turns(n: nat): nat
    requires n >= 1
  {
    if n == 1 then 1 else 4 + 2 * Turns(n - 1)
  }

  /** One turn with frame f on top of any stack. */
  lemma TurnOnTop(below: seq<Stage>, f: Stage, count: nat, out: seq<Move>, room: nat, d: State)
    requires |below| < room && f.stage <= 3 && (f.n != 1 && (f.stage == 0 || f.stage == 2) ==> |below| + 1 < room)
    requires var mv := [Move(f.from, f.to)];
             if f.n == 1 then d == State(below, count + 1, out + mv)
             else match f.stage
               case 0 => d == State((below + [f.(stage := 1)]) + [Stage(f.n - 1, f.from, f.tmp, f.to, 0)], count, out)
               case 1 => d == State(below + [f.(stage := 2)], count + 1, out + mv)
               case 2 => d == State((below + [f.(stage := 3)]) + [Stage(f.n - 1, f.tmp, f.to, f.from, 0)], count, out)
               case _ => d == State(below, count, out)
    ensures Leads(State(below + [f], count, out), 1, room, d)
  {
    var c := State(below + [f], count, out);
    assert c.stack[..|c.stack| - 1] == below;
    assert forall g, h :: (below + [g]) + [h] == below + [g, h];
    assert Next(c) == d;
    assert Leads(Next(c), 0, room, d);
  }

  /** The four stages in turn, given that each pushed frame runs until it is popped. */
  lemma AllStages(below: seq<Stage>, f: Stage, count: nat, out: seq<Move>, room: nat, k: nat, m: nat, ms1: seq<Move>,
                  ms2: seq<Move>)
    requires f.stage == 0 && f.n > 1 && |below| + 1 < room
    requires Leads(State((below + [f.(stage := 1)]) + [Stage(f.n - 1, f.from, f.tmp, f.to, 0)], count, out), k, room,
                   State(below + [f.(stage := 1)], count + m, out + ms1))
    requires var out2 := (out + ms1) + [Move(f.from, f.to)];
             var last := below + [f.(stage := 3)];
             Leads(State(last + [Stage(f.n - 1, f.tmp, f.to, f.from, 0)], count + m + 1, out2), k, room,
                   State(last, count + m + 1 + m, out2 + ms2))
    ensures Leads(State(below + [f], count, out), 4 + 2 * k, room,
                  State(below, count + (m + m + 1), out + ms1 + [Move(f.from, f.to)] + ms2))
  {
    var out2 := (out + ms1) + [Move(f.from, f.to)];
    var c0 := State(below + [f], count, out);
    var c1 := State((below + [f.(stage := 1)]) + [Stage(f.n - 1, f.from, f.tmp, f.to, 0)], count, out);
    var c2 := State(below + [f.(stage := 1)], count + m, out + ms1);
    var c3 := State(below + [f.(stage := 2)], count + m + 1, out2);
    var c4 := State((below + [f.(stage := 3)]) + [Stage(f.n - 1, f.tmp, f.to, f.from, 0)], count + m + 1, out2);
    var c5 := State(below + [f.(stage := 3)], count + m + 1 + m, out2 + ms2);
    var c6 := State(below, count + (m + m + 1), out2 + ms2);
    TurnOnTop(below, f, count, out, room, c1);
    TurnOnTop(below, f.(stage := 1), count + m, out + ms1, room, c3);
    TurnOnTop(below, f.(stage := 2), count + m + 1, out2, room, c4);
    TurnOnTop(below, f.(stage := 3), count + m + 1 + m, out2 + ms2, room, c6);
    Onward(c4, k, room, c5, 1, c6);
    Onward(c3, 1, room, c4, k + 1, c6);
    Onward(c2, 1, room, c3, k + 2, c6);
    Onward(c1, k, room, c2, k + 3, c6);
    Onward(c0, 1, room, c1, 2 * k + 3, c6);
  }

  /** A frame pushed on any stack runs until it is popped, with the recursion's moves and count. */
  lemma {:induction false} FrameRuns(below: seq<Stage>, n: nat, from: char, to: char, tmp: char, count: nat,
                                     out: seq<Move>, room: nat)
    requires n >= 1 && |below| + n <= room
    ensures Leads(State(below + [Stage(n, from, to, tmp, 0)], count, out), Turns(n), room,
                  State(below, count + Count(n), out + Moves(n, from, to, tmp)))
    decreases n
  {
    var f := Stage(n, from, to, tmp, 0);
    if n == 1 {
      TurnOnTop(below, f, count, out, room, State(below, count + 1, out + [Move(from, to)]));
    } else {
      var m, k, mid := Count(n - 1), Turns(n - 1), [Move(from, to)];
      var ms1, ms2 := Moves(n - 1, from, tmp, to), Moves(n - 1, tmp, to, from);
      FrameRuns(below + [f.(stage := 1)], n - 1, from, tmp, to, count, out, room);
      FrameRuns(below + [f.(stage := 3)], n - 1, tmp, to, from, count + m + 1, (out + ms1) + mid, room);
      assert State(below, count + Count(n), out + Moves(n, from, to, tmp))
          == State(below, count + (m + m + 1), out + ms1 + mid + ms2) by {
        Regroup(out, ms1, mid, ms2);
      }
      assert Turns(n) == 4 + 2 * k;
      AllStages(below, f, count, out, room, k, m, ms1, ms2);
    }
  }

  lemma WayOut(c: State, left: nat, room: nat, end: State)
    requires Leads(c, left, room, end) && end.stack == []
    ensures c.stack == [] ==> c == end
    ensures c.stack != [] ==> left > 0 && CanTurn(c, room) && Leads(Next(c), left - 1, room, end)
  {
  }

  const MAX_STACK_DEEP: nat := 1024

  lemma FromTheFrame(n: nat, from: char, to: char, tmp: char) returns (left: nat, end: State)
    requires 1 <= n <= MAX_STACK_DEEP
    ensures end == State([], Pow2(n) - 1, Moves(n, from, to, tmp))
    ensures Leads(State([Stage(n, from, to, tmp, 0)], 0, []), left, MAX_STACK_DEEP, end)
  {
    left, end := Turns(n), State([], Pow2(n) - 1, Moves(n, from, to, tmp));
    assert end == State([], 0 + Count(n), [] + Moves(n, from, to, tmp)) by {
      CountIs(n, from, to, tmp);
    }
    assert [] + [Stage(n, from, to, tmp, 0)] == [Stage(n, from, to, tmp, 0)];
    FrameRuns([], n, from, to, tmp, 0, [], MAX_STACK_DEEP);
  }

  /** One turn of the loop on the array of frames. */
  method TakeTurn(stack: array<Stage>, top: nat, count0: nat, out0: seq<Move>)
    returns (above: int, count: nat, out: seq<Move>)
    requires top < stack.Length
    requires stack[top].n == 1 || (stack[top].stage <= 3 && (stack[top].stage in {0, 2} ==> top + 1 < stack.Length))
    modifies stack
    ensures -1 <= above < stack.Length
    ensures State(stack[..above + 1], count, out) == Next(old(State(stack[..top + 1], count0, out0)))
  {
    ghost var below := stack[..top];
    var cur := stack[top];
    above, count, out := top, count0, out0;
    if cur.n == 1 {
      out, count, above := out + [Move(cur.from, cur.to)], count + 1, top - 1;
    } else if cur.stage == 0 {
      above := top + 1;
      stack[above] := Stage(cur.n - 1, cur.from, cur.tmp, cur.to, 0);
      stack[top] := cur.(stage := 1);
    } else if cur.stage == 1 {
      out, count := out + [Move(cur.from, cur.to)], count + 1;
      stack[top] := cur.(stage := 2);
    } else if cur.stage == 2 {
      above := top + 1;
      stack[above] := Stage(cur.n - 1, cur.tmp, cur.to, cur.from, 0);
      stack[top] := cur.(stage := 3);
    } else if cur.stage == 3 {
      above := top - 1;
    }
    assert stack[..top] == below == old(stack[..top + 1])[..top];
    assert above == top - 1 ==> stack[..above + 1] == below;
    assert above == top ==> stack[..above + 1] == below + [stack[top]];
    assert above == top + 1 ==> stack[..above + 1] == below + [stack[top], stack[above]];
  }

  method Drain(stack: array<Stage>, ghost turns: nat, ghost end: State) returns (count: nat, out: seq<Move>)
    requires stack.Length == MAX_STACK_DEEP && end.stack == []
    requires Leads(State(stack[..1], 0, []), turns, MAX_STACK_DEEP, end)
    modifies stack
    ensures State([], count, out) == end
  {
    var top := 0;
    count, out := 0, [];
    ghost var left := turns;
    while top >= 0
      invariant -1 <= top < MAX_STACK_DEEP
      invariant Leads(State(stack[..top + 1], count, out), left, MAX_STACK_DEEP, end)
      decreases left
    {
      ghost var c := State(stack[..top + 1], count, out);
      WayOut(c, left, MAX_STACK_DEEP, end);
      assert c.stack[|c.stack| - 1] == stack[top];
      top, count, out := TakeTurn(stack, top, count, out);
      assert State(stack[..top + 1], count, out) == Next(c);
      left := left - 1;
    }
    WayOut(State(stack[..top + 1], count, out), left, MAX_STACK_DEEP, end);
  }

  /** The staged program ends, never leaves its array, and prints and counts what the recursion does;
      with no disks it does nothing. */
  method RunStages(n: int, from: char, to: char, tmp: char) returns (count: nat, out: seq<Move>)
    requires n <= MAX_STACK_DEEP
    ensures n <= 0 ==> count == 0 && out == []
    ensures n >= 1 ==> out == Moves(n, from, to, tmp) && count == Pow2(n) - 1
  {
    if n <= 0 {
      return 0, [];
    }
    var stack := new Stage[MAX_STACK_DEEP](_ => Stage(0, from, to, tmp, 0));
    stack[0] := Stage(n, from, to, tmp, 0);
    assert stack[..1] == [Stage(n, from, to, tmp, 0)];
    ghost var turns, end := FromTheFrame(n, from, to, tmp);
    count, out := Drain(stack, turns, end);
  }
}
