/** Towers of Hanoi: the recursive program and the two programs that replace its call stack
    by an explicit one. Printing is recorded as a list of moves. */
module Hanoi {
  import opened PowersOfTwo

  datatype Move = Move(from: char, to: char)

  /** What the recursive program prints. */
  function Moves(n: nat, from: char, to: char, via: char): seq<Move>
    requires n >= 1
  {
    if n == 1 then [Move(from, to)]
    else Moves(n - 1, from, via, to) + [Move(from, to)] + Moves(n - 1, via, to, from)
  }

  /** What the recursive program returns. */
  function Count(n: nat): nat
    requires n >= 1
  {
    if n == 1 then 1 else Count(n - 1) + Count(n - 1) + 1
  }

  lemma {:induction false} CountIs(n: nat, from: char, to: char, via: char)
    requires n >= 1
    ensures Count(n) == |Moves(n, from, to, via)| == Pow2(n) - 1
  {
    if n > 1 {
      CountIs(n - 1, from, via, to);
      CountIs(n - 1, via, to, from);
    } else {
      assert Pow2(1) == 2 * Pow2(0);
    }
  }

  // ---------- the puzzle ----------

  /** Each peg's disks, bottom first; a disk is known by its size. */
  type Pegs = map<char, seq<nat>>

  predicate Legal(p: Pegs, m: Move) {
    && m.from in p && m.to in p && p[m.from] != []
    && (p[m.to] == [] || p[m.to][|p[m.to]| - 1] > p[m.from][|p[m.from]| - 1])
  }

  function Apply(p: Pegs, m: Move): Pegs
    requires Legal(p, m)
  {
    var disk := p[m.from][|p[m.from]| - 1];
    var q := p[m.from := p[m.from][..|p[m.from]| - 1]];
    q[m.to := q[m.to] + [disk]]
  }

  datatype Outcome = Illegal | Pegs(pegs: Pegs)

  /** Play a list of moves, stopping at the first that breaks the rules. */
  function Play(p: Pegs, ms: seq<Move>): Outcome {
    if ms == [] then Pegs(p)
    else if Legal(p, ms[0]) then Play(Apply(p, ms[0]), ms[1..])
    else Illegal
  }

  lemma {:induction false} PlayAppend(p: Pegs, a: seq<Move>, b: seq<Move>)
    requires Play(p, a).Pegs?
    ensures Play(p, a + b) == Play(Play(p, a).pegs, b)
  {
    if a == [] {
      assert a + b == b;
    } else {
      PlayAppend(Apply(p, a[0]), a[1..], b);
      assert (a + b)[1..] == a[1..] + b;
    }
  }

  /** Disks n down to 1, the smallest on top. */
  function Tower(n: nat): seq<nat> {
    if n == 0 then [] else [n] + Tower(n - 1)
  }

  /** Every disk here is larger than n. */
  predicate Wide(q: seq<nat>, n: nat) {
    forall k :: 0 <= k < |q| ==> q[k] > n
  }

  /** q is p with the disks `disks` carried from the top of one peg to the top of another. */
  ghost predicate Carried(p: Pegs, q: Pegs, from: char, to: char, base: seq<nat>, disks: seq<nat>)
    requires from in p && to in p
  {
    && from in q && to in q && (forall c :: c in p <==> c in q)
    && p[from] == base + disks && q[from] == base && q[to] == p[to] + disks
    && (forall c :: c in p && c != from && c != to ==> p[c] == q[c])
  }

  /** From any position whose other disks are larger, the moves are all legal and carry exactly
      the tower of n disks from one peg to the other. */
  lemma {:induction false} Solves(p: Pegs, n: nat, from: char, to: char, via: char, base: seq<nat>) returns (q: Pegs)
    requires n >= 1 && from != to && from != via && to != via
    requires from in p && to in p && via in p
    requires p[from] == base + Tower(n) && Wide(base, n) && Wide(p[to], n) && Wide(p[via], n)
    ensures Play(p, Moves(n, from, to, via)) == Pegs(q) && Carried(p, q, from, to, base, Tower(n))
  {
    var m := Move(from, to);
    if n == 1 {
      assert Tower(1) == [1];
      q := MiddleMove(p, from, to, base, 1);
    } else {
      var small := Tower(n - 1);
      assert Tower(n) == [n] + small;
      assert p[from] == (base + [n]) + small;
      var p1 := Solves(p, n - 1, from, via, to, base + [n]);
      var p2 := MiddleMove(p1, from, to, base, n);
      q := Solves(p2, n - 1, via, to, from, p[via]);
      var first, last := Moves(n - 1, from, via, to), Moves(n - 1, via, to, from);
      assert Moves(n, from, to, via) == first + [m] + last;
      Stages(p, p1, p2, first, m, last);
      CarriedThrice(p, p1, p2, q, from, to, via, base, n, small);
    }
  }

  lemma CarriedThrice(p: Pegs, p1: Pegs, p2: Pegs, q: Pegs, from: char, to: char, via: char, base: seq<nat>, n: nat,
                      small: seq<nat>)
    requires from != to && from != via && to != via && from in p && to in p && via in p
    requires Carried(p, p1, from, via, base + [n], small)
    requires Carried(p1, p2, from, to, base, [n])
    requires via in p2 && to in p2 && Carried(p2, q, via, to, p[via], small)
    ensures Carried(p, q, from, to, base, [n] + small)
  {
    assert (base + [n]) + small == base + ([n] + small);
    assert (p[to] + [n]) + small == p[to] + ([n] + small);
  }

  lemma Stages(p: Pegs, p1: Pegs, p2: Pegs, a: seq<Move>, m: Move, b: seq<Move>)
    requires Play(p, a) == Pegs(p1) && Play(p1, [m]) == Pegs(p2)
    ensures Play(p, a + [m] + b) == Play(p2, b)
  {
    PlayAppend(p, a, [m]);
    PlayAppend(p, a + [m], b);
  }

  /** The largest disk crosses once the others are out of the way. */
  lemma MiddleMove(p: Pegs, from: char, to: char, base: seq<nat>, n: nat) returns (q: Pegs)
    requires from in p && to in p && from != to
    requires p[from] == base + [n] && Wide(p[to], n)
    ensures Play(p, [Move(from, to)]) == Pegs(q) && Carried(p, q, from, to, base, [n])
  {
    var m := Move(from, to);
    q := Apply(p, m);
    assert p[from][..|base|] == base;
    assert [m][1..] == [];
    assert Play(q, []) == Pegs(q);
  }

  // ---------- the loop with a program counter ----------

  datatype Frame = Frame(pc: nat, n: int, from: char, to: char, via: char, c1: int, c2: int)

  function Call(n: int, from: char, to: char, via: char): Frame {
    Frame(0, n, from, to, via, 0, 0)
  }

  /** A machine state: the stack, bottom first, the last return value, and the moves printed. */
  datatype Config = Config(stack: seq<Frame>, retval: int, out: seq<Move>)

  /** One turn of the loop, as a function of the state. */
  function Step(c: Config): Config
    requires c.stack != []
  {
    var below, f := c.stack[..|c.stack| - 1], c.stack[|c.stack| - 1];
    var g := f.(pc := f.pc + 1);
    match f.pc
    case 0 => if f.n == 1 then Config(below, 1, c.out + [Move(f.from, f.to)]) else c.(stack := below + [g])
    case 1 => c.(stack := below + [g, Call(f.n - 1, f.from, f.via, f.to)])
    case 2 => c.(stack := below + [g.(c1 := c.retval)])
    case 3 => c.(stack := below + [g, Call(1, f.from, f.to, f.via)])
    case 4 => c.(stack := below + [g, Call(f.n - 1, f.via, f.to, f.from)])
    case 5 => c.(stack := below + [g.(c2 := c.retval)])
    case _ => Config(below, f.c1 + f.c2 + 1, c.out)
  }

  /** The next turn is one the program can take: a known statement, and room for the frame a call pushes. */
  predicate Ready(c: Config, room: nat) {
    && 0 < |c.stack| <= room
    && var f := c.stack[|c.stack| - 1];
       f.pc <= 6 && (f.pc in {1, 3, 4} ==> |c.stack| < room)
  }

  /** k turns, none of them out of room, lead from c to d. */
  predicate Reaches(c: Config, k: nat, room: nat, d: Config)
    decreases k
  {
    if k == 0 then c == d else Ready(c, room) && Reaches(Step(c), k - 1, room, d)
  }

  lemma {:induction false} Then(c: Config, j: nat, room: nat, d: Config, k: nat, e: Config)
    requires Reaches(c, j, room, d) && Reaches(d, k, room, e)
    ensures Reaches(c, j + k, room, e)
    decreases j
  {
    if j > 0 {
      Then(Step(c), j - 1, room, d, k, e);
    }
  }

  /** Turns a whole call takes. */
  function Steps(n: nat): nat
    requires n >= 1
  {
    if n == 1 then 1 else 8 + 2 * Steps(n - 1)
  }

  /** One turn with frame f on top of any stack. */
  lemma OneTurn(below: seq<Frame>, f: Frame, r: int, out: seq<Move>, room: nat, d: Config)
    requires |below| < room && f.pc <= 6 && (f.pc in {1, 3, 4} ==> |below| + 1 < room)
    requires var g := f.(pc := f.pc + 1);
             match f.pc
             case 0 => f.n > 1 && d == Config(below + [g], r, out)
             case 1 => d == Config((below + [g]) + [Call(f.n - 1, f.from, f.via, f.to)], r, out)
             case 2 => d == Config(below + [g.(c1 := r)], r, out)
             case 3 => d == Config((below + [g]) + [Call(1, f.from, f.to, f.via)], r, out)
             case 4 => d == Config((below + [g]) + [Call(f.n - 1, f.via, f.to, f.from)], r, out)
             case 5 => d == Config(below + [g.(c2 := r)], r, out)
             case _ => d == Config(below, f.c1 + f.c2 + 1, out)
    ensures Reaches(Config(below + [f], r, out), 1, room, d)
  {
    var c := Config(below + [f], r, out);
    assert c.stack[..|c.stack| - 1] == below;
    assert forall g, h :: (below + [g]) + [h] == below + [g, h];
    assert Step(c) == d;
    assert Reaches(Step(c), 0, room, d);
  }

  lemma LeafCall(below: seq<Frame>, from: char, to: char, via: char, r: int, out: seq<Move>, room: nat)
    requires |below| < room
    ensures Reaches(Config(below + [Call(1, from, to, via)], r, out), 1, room, Config(below, 1, out + [Move(from, to)]))
  {
    var c, d := Config(below + [Call(1, from, to, via)], r, out), Config(below, 1, out + [Move(from, to)]);
    assert c.stack[..|c.stack| - 1] == below;
    assert Reaches(Step(c), 0, room, d);
  }

  /** Statements 0 and 1: up to the return of the first inner call. */
  lemma Opening(below: seq<Frame>, f: Frame, r: int, out: seq<Move>, room: nat, k: nat, d: Config)
    requires f.pc == 0 && f.n > 1 && |below| + 1 < room
    requires Reaches(Config((below + [f.(pc := 2)]) + [Call(f.n - 1, f.from, f.via, f.to)], r, out), k, room, d)
    ensures Reaches(Config(below + [f], r, out), 2 + k, room, d)
  {
    var c0, c1 := Config(below + [f], r, out), Config(below + [f.(pc := 1)], r, out);
    var c2 := Config((below + [f.(pc := 2)]) + [Call(f.n - 1, f.from, f.via, f.to)], r, out);
    OneTurn(below, f, r, out, room, c1);
    OneTurn(below, f.(pc := 1), r, out, room, c2);
    Then(c1, 1, room, c2, k, d);
    Then(c0, 1, room, c1, 1 + k, d);
  }

  /** Statements 2 and 3: the count is kept and the largest disk is moved by a call of its own. */
  lemma Middle(below: seq<Frame>, f: Frame, r: int, out: seq<Move>, room: nat)
    requires f.pc == 2 && f.n > 1 && |below| + 1 < room
    ensures Reaches(Config(below + [f], r, out), 3, room,
                    Config(below + [f.(pc := 4, c1 := r)], 1, out + [Move(f.from, f.to)]))
  {
    var g, h := f.(pc := 3, c1 := r), f.(pc := 4, c1 := r);
    var c0, c1 := Config(below + [f], r, out), Config(below + [g], r, out);
    var c2 := Config((below + [h]) + [Call(1, f.from, f.to, f.via)], r, out);
    var c3 := Config(below + [h], 1, out + [Move(f.from, f.to)]);
    OneTurn(below, f, r, out, room, c1);
    OneTurn(below, g, r, out, room, c2);
    LeafCall(below + [h], f.from, f.to, f.via, r, out, room);
    Then(c1, 1, room, c2, 1, c3);
    Then(c0, 1, room, c1, 2, c3);
  }

  /** Statement 4: up to the return of the second inner call. */
  lemma Second(below: seq<Frame>, f: Frame, r: int, out: seq<Move>, room: nat, k: nat, d: Config)
    requires f.pc == 4 && f.n > 1 && |below| + 1 < room
    requires Reaches(Config((below + [f.(pc := 5)]) + [Call(f.n - 1, f.via, f.to, f.from)], r, out), k, room, d)
    ensures Reaches(Config(below + [f], r, out), 1 + k, room, d)
  {
    var c1 := Config((below + [f.(pc := 5)]) + [Call(f.n - 1, f.via, f.to, f.from)], r, out);
    OneTurn(below, f, r, out, room, c1);
    Then(Config(below + [f], r, out), 1, room, c1, k, d);
  }

  /** Statements 5 and 6: the two counts are added up and returned. */
  lemma Closing(below: seq<Frame>, f: Frame, r: int, out: seq<Move>, room: nat)
    requires f.pc == 5 && |below| < room
    ensures Reaches(Config(below + [f], r, out), 2, room, Config(below, f.c1 + r + 1, out))
  {
    var g := f.(pc := 6, c2 := r);
    var c1, c2 := Config(below + [g], r, out), Config(below, f.c1 + r + 1, out);
    OneTurn(below, f, r, out, room, c1);
    OneTurn(below, g, r, out, room, c2);
    Then(Config(below + [f], r, out), 1, room, c1, 1, c2);
  }

  /** The seven statements in turn, given that each inner call runs to its return. */
  lemma WholeCall(below: seq<Frame>, f: Frame, r: int, out: seq<Move>, room: nat, k: nat, m: int, ms1: seq<Move>,
                  ms2: seq<Move>)
    requires f.pc == 0 && f.n > 1 && |below| + 1 < room
    requires Reaches(Config((below + [f.(pc := 2)]) + [Call(f.n - 1, f.from, f.via, f.to)], r, out), k, room,
                     Config(below + [f.(pc := 2)], m, out + ms1))
    requires var out2, g := (out + ms1) + [Move(f.from, f.to)], f.(pc := 5, c1 := m);
             Reaches(Config((below + [g]) + [Call(f.n - 1, f.via, f.to, f.from)], 1, out2), k, room,
                     Config(below + [g], m, out2 + ms2))
    ensures Reaches(Config(below + [f], r, out), 8 + 2 * k, room,
                    Config(below, m + m + 1, out + ms1 + [Move(f.from, f.to)] + ms2))
  {
    var out2 := (out + ms1) + [Move(f.from, f.to)];
    var g := f.(pc := 4, c1 := m);
    var c1, c2 := Config(below + [f.(pc := 2)], m, out + ms1), Config(below + [g], 1, out2);
    var c3, c4 := Config(below + [g.(pc := 5)], m, out2 + ms2), Config(below, m + m + 1, out2 + ms2);
    Opening(below, f, r, out, room, k, c1);
    Middle(below, f.(pc := 2), m, out + ms1, room);
    Second(below, g, 1, out2, room, k, c3);
    Closing(below, g.(pc := 5), m, out2 + ms2, room);
    Then(c2, 1 + k, room, c3, 2, c4);
    Then(c1, 3, room, c2, 3 + k, c4);
    Then(Config(below + [f], r, out), 2 + k, room, c1, 6 + k, c4);
  }

  /** A call pushed on any stack runs to its return: it leaves the stack below as it was, prints the
      recursion's moves, returns the recursion's count, and never needs more than n frames. */
  lemma {:induction false} CallRuns(below: seq<Frame>, n: nat, from: char, to: char, via: char, r: int,
                                    out: seq<Move>, room: nat)
    requires n >= 1 && |below| + n <= room
    ensures Reaches(Config(below + [Call(n, from, to, via)], r, out), Steps(n), room,
                    Config(below, Count(n), out + Moves(n, from, to, via)))
    decreases n
  {
    if n == 1 {
      LeafCall(below, from, to, via, r, out, room);
    } else {
      var f, m, k := Call(n, from, to, via), Count(n - 1), Steps(n - 1);
      var ms1, mid, ms2 := Moves(n - 1, from, via, to), [Move(from, to)], Moves(n - 1, via, to, from);
      CallRuns(below + [f.(pc := 2)], n - 1, from, via, to, r, out, room);
      CallRuns(below + [f.(pc := 5, c1 := m)], n - 1, via, to, from, 1, (out + ms1) + mid, room);
      assert Config(below, Count(n), out + Moves(n, from, to, via))
          == Config(below, m + m + 1, out + ms1 + mid + ms2) by {
        Regroup(out, ms1, mid, ms2);
      }
      assert Steps(n) == 8 + 2 * k;
      WholeCall(below, f, r, out, room, k, m, ms1, ms2);
    }
  }

  /** A state on the way to an empty stack has a turn to take exactly while its stack is not empty. */
  lemma OnTheWay(c: Config, left: nat, room: nat, end: Config)
    requires Reaches(c, left, room, end) && end.stack == []
    ensures c.stack == [] ==> c == end
    ensures c.stack != [] ==> left > 0 && Ready(c, room) && Reaches(Step(c), left - 1, room, end)
  {
  }

  lemma Regroup<T>(a: seq<T>, b: seq<T>, c: seq<T>, d: seq<T>)
    ensures a + b + c + d == a + (b + c + d)
  {
  }

  const STACK_FRAMES: nat := 64

  /** One turn of the loop on the array of frames; a popped frame's program counter is still written. */
  method Turn(stk: array<Frame>, top: nat, retval0: int, out0: seq<Move>)
    returns (above: int, retval: int, out: seq<Move>)
    requires top < stk.Length && stk[top].pc <= 6
    requires stk[top].pc in {1, 3, 4} ==> top + 1 < stk.Length
    modifies stk
    ensures -1 <= above < stk.Length
    ensures Config(stk[..above + 1], retval, out) == Step(old(Config(stk[..top + 1], retval0, out0)))
  {
    ghost var below := stk[..top];
    var f := stk[top];
    above, retval, out := top, retval0, out0;
    if f.pc == 0 {
      if f.n == 1 {
        out := out + [Move(f.from, f.to)];
        above, retval := top - 1, 1;
      }
    } else if f.pc == 1 {
      above := top + 1;
      stk[above] := Call(f.n - 1, f.from, f.via, f.to);
    } else if f.pc == 2 {
      stk[top] := stk[top].(c1 := retval);
    } else if f.pc == 3 {
      above := top + 1;
      stk[above] := Call(1, f.from, f.to, f.via);
    } else if f.pc == 4 {
      above := top + 1;
      stk[above] := Call(f.n - 1, f.via, f.to, f.from);
    } else if f.pc == 5 {
      stk[top] := stk[top].(c2 := retval);
    } else {
      above, retval := top - 1, f.c1 + f.c2 + 1;
    }
    stk[top] := stk[top].(pc := f.pc + 1);
    assert stk[..top] == below == old(stk[..top + 1])[..top];
    assert above == top - 1 ==> stk[..above + 1] == below;
    assert above == top ==> stk[..above + 1] == below + [stk[top]];
    assert above == top + 1 ==> stk[..above + 1] == below + [stk[top], stk[above]];
  }

  /** The loop: from a single frame until the stack is empty. */
  method Loop(stk: array<Frame>, ghost turns: nat, ghost end: Config) returns (retval: int, out: seq<Move>)
    requires stk.Length == STACK_FRAMES && end.stack == []
    requires Reaches(Config(stk[..1], 0, []), turns, STACK_FRAMES, end)
    modifies stk
    ensures Config([], retval, out) == end
  {
    var top := 0;
    retval, out := 0, [];
    ghost var left := turns;
    while top >= 0
      invariant -1 <= top < STACK_FRAMES
      invariant Reaches(Config(stk[..top + 1], retval, out), left, STACK_FRAMES, end)
      decreases left
    {
      OnTheWay(Config(stk[..top + 1], retval, out), left, STACK_FRAMES, end);
      top, retval, out := Turn(stk, top, retval, out);
      left := left - 1;
    }
    OnTheWay(Config(stk[..top + 1], retval, out), left, STACK_FRAMES, end);
  }

  /** The non-recursive program, on its own array of frames. It ends, never leaves the array,
      prints exactly what the recursion prints and returns 2^n - 1. */
  method RunFrames(n: nat, from: char, to: char, via: char) returns (retval: int, out: seq<Move>)
    requires 1 <= n <= STACK_FRAMES
    ensures out == Moves(n, from, to, via) && retval == Pow2(n) - 1
  {
    var stk := new Frame[STACK_FRAMES](_ => Call(0, from, to, via));
    stk[0] := Call(n, from, to, via);
    assert stk[..1] == [Call(n, from, to, via)];
    ghost var turns, end := FromTheCall(n, from, to, via);
    retval, out := Loop(stk, turns, end);
  }

  lemma FromTheCall(n: nat, from: char, to: char, via: char) returns (left: nat, end: Config)
    requires 1 <= n <= STACK_FRAMES
    ensures end == Config([], Pow2(n) - 1, Moves(n, from, to, via))
    ensures Reaches(Config([Call(n, from, to, via)], 0, []), left, STACK_FRAMES, end)
  {
    left, end := Steps(n), Config([], Pow2(n) - 1, Moves(n, from, to, via));
    assert end == Config([], Count(n), [] + Moves(n, from, to, via)) by {
      CountIs(n, from, to, via);
    }
    assert [] + [Call(n, from, to, via)] == [Call(n, from, to, via)];
    CallRuns([], n, from, to, via, 0, [], STACK_FRAMES);
  }
}
