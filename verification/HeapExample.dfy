/** A fresh heap on which allocating the front of a block and freeing it again loses a request. */
module HeapExample {
  import opened Wrappers
  import opened HeapTiling
  import opened Heap
  import opened HeapRuns
  import opened HeapControl

  const BASE: nat := 0x1_0000
  const SIZE: nat := 0x4000
  const ALIGN: nat := 64

  /** The nodes that stay spare: contents and numbers. */
  datatype Others = Others(nodes: seq<Node>, spare: seq<nat>)

  predicate Unused(o: Others) {
    |o.nodes| == 28 && |o.spare| == 28 && forall i :: 0 <= i < 28 ==> o.spare[i] == i + 4 && o.nodes[i] == Node(0, 0)
  }

  /** A heap of which four nodes are in use at some time. */
  function Heap4(n: seq<Node>, spare: seq<nat>, free: seq<nat>, used: seq<nat>, o: Others): State {
    State(n + o.nodes, spare + o.spare, free, used)
  }

  const NONE := Node(0, 0)
  const A := Node(0x1_0400, 64)
  const B := Node(0x1_0440, 64)
  const C := Node(0x1_0480, 0x3b80)
  const AB := Node(0x1_0400, 128)

  function S0(o: Others): State { Heap4([Node(0x1_0400, 0x3c00), NONE, NONE, NONE], [1, 2, 3], [0], [], o) }
  function S1(o: Others): State { Heap4([Node(0x1_0440, 0x3bc0), A, NONE, NONE], [2, 3], [0], [1], o) }
  function S2(o: Others): State { Heap4([C, A, B, NONE], [3], [0], [1, 2], o) }
  function S3(o: Others): State { Heap4([C, A, B, NONE], [3], [], [1, 2, 0], o) }
  function S4(o: Others): State { Heap4([C, A, B, NONE], [3], [1], [2, 0], o) }
  function S5(o: Others): State { Heap4([C, A, B, NONE], [3], [1, 0], [2], o) }
  function S6(o: Others): State { State([C, AB, B, NONE] + o.nodes, [3] + o.spare + [2], [1, 0], []) }
  function S7(o: Others): State {
    State([Node(0x1_0580, 0x3a80), AB, B, Node(0x1_0480, 256)] + o.nodes, o.spare + [2], [1, 0], [3])
  }
  function S8(o: Others): State {
    State([Node(0x1_0580, 0x3a80), Node(0x1_0400, 384), B, Node(0x1_0480, 256)] + o.nodes, o.spare + [2, 3], [1, 0], [])
  }

  lemma Starts() returns (o: Others)
    ensures Unused(o) && HousekeepingSize(SIZE) > 0 && InitState(BASE, SIZE) == S0(o)
  {
    assert HousekeepingSize(SIZE) == 0x400 && NodeCount(SIZE) == 32;
    var s := InitState(BASE, SIZE);
    o := Others(s.nodes[4..], s.freeNodes[3..]);
    assert s.nodes == [s.nodes[0], s.nodes[1], s.nodes[2], s.nodes[3]] + s.nodes[4..];
    assert s.freeNodes == [1, 2, 3] + s.freeNodes[3..];
  }

  lemma KnownAll(o: Others)
    requires Unused(o)
    ensures NodesKnown(S0(o)) && NodesKnown(S1(o)) && NodesKnown(S2(o)) && NodesKnown(S3(o)) && NodesKnown(S4(o))
    ensures NodesKnown(S5(o)) && NodesKnown(S6(o)) && NodesKnown(S7(o)) && NodesKnown(S8(o))
  {
  }

  lemma AlignedPad(n: Node)
    requires n.addr % ALIGN == 0
    ensures Pad(n, ALIGN) == 0
  {
  }

  lemma Rounds(want: nat)
    requires want == 64 || want == 256 || want == 0x3b80
    ensures MachineRound(want, ALIGN) == want
  {
  }

  /** With aligned blocks the first that is large enough gives its front. */
  lemma FirstLarge(s: State, want: nat, i: nat)
    requires NodesKnown(s) && i < |s.freeSpace| && (want == 64 || want == 256 || want == 0x3b80)
    requires forall j :: 0 <= j <= i ==> s.nodes[s.freeSpace[j]].addr % ALIGN == 0
    requires forall j :: 0 <= j < i ==> s.nodes[s.freeSpace[j]].size < want
    requires want <= s.nodes[s.freeSpace[i]].size
    ensures MachineAlloc(s, ALIGN, want) == TakeFront(s, i, want)
  {
    Rounds(want);
    forall j | 0 <= j <= i ensures Pad(s.nodes[s.freeSpace[j]], ALIGN) == 0 {
      AlignedPad(s.nodes[s.freeSpace[j]]);
    }
    var p := FirstFit(s.nodes, s.freeSpace, ALIGN, want);
    assert p <= i;
    assert p == i;
  }

  lemma NoneLarge(s: State, want: nat)
    requires NodesKnown(s) && (want == 64 || want == 256 || want == 0x3b80)
    requires forall j :: 0 <= j < |s.freeSpace| ==> s.nodes[s.freeSpace[j]].size < want
    ensures MachineAlloc(s, ALIGN, want).1 == None
  {
    Rounds(want);
  }

  lemma Alloc0(o: Others)
    requires Unused(o) && NodesKnown(S0(o))
    ensures MachineAlloc(S0(o), ALIGN, 64) == (S1(o), Some(0x1_0400))
  {
    FirstLarge(S0(o), 64, 0);
    assert S0(o).used + [1] == S1(o).used;
    assert S0(o).freeNodes[1..] == S1(o).freeNodes;
    assert S0(o).nodes[1 := A][0 := Node(0x1_0440, 0x3bc0)] == S1(o).nodes;
  }

  lemma Alloc1(o: Others)
    requires Unused(o) && NodesKnown(S1(o))
    ensures MachineAlloc(S1(o), ALIGN, 64) == (S2(o), Some(0x1_0440))
  {
    FirstLarge(S1(o), 64, 0);
    assert S1(o).used + [2] == S2(o).used;
    assert S1(o).freeNodes[1..] == S2(o).freeNodes;
    assert S1(o).nodes[2 := B][0 := C] == S2(o).nodes;
  }

  lemma Alloc2(o: Others)
    requires Unused(o) && NodesKnown(S2(o))
    ensures MachineAlloc(S2(o), ALIGN, 0x3b80) == (S3(o), Some(0x1_0480))
  {
    FirstLarge(S2(o), 0x3b80, 0);
    assert S2(o).used + [0] == S3(o).used;
    assert [0][..0] + [0][1..] == [];
  }

  lemma Alloc6(o: Others)
    requires Unused(o) && NodesKnown(S6(o))
    ensures MachineAlloc(S6(o), ALIGN, 256) == (S7(o), Some(0x1_0480))
  {
    FirstLarge(S6(o), 256, 1);
    assert S6(o).used + [3] == S7(o).used;
    assert S6(o).freeNodes[1..] == S7(o).freeNodes;
    assert S6(o).nodes[3 := Node(0x1_0480, 256)][0 := Node(0x1_0580, 0x3a80)] == S7(o).nodes;
  }

  lemma Answers(o: Others)
    requires Unused(o) && NodesKnown(S6(o)) && NodesKnown(S8(o))
    ensures MachineAlloc(S6(o), ALIGN, 0x3b80).1 == Some(0x1_0480)
    ensures MachineAlloc(S8(o), ALIGN, 0x3b80).1 == None
  {
    FirstLarge(S6(o), 0x3b80, 1);
    NoneLarge(S8(o), 0x3b80);
  }

  /** The block at position `u` holds the pointer and none before it does. */
  lemma FreesAt(s: State, ptr: nat, u: nat)
    requires NodesKnown(s) && ptr != 0 && u < |s.used|
    requires s.nodes[s.used[u]].addr <= ptr < s.nodes[s.used[u]].End()
    requires forall j :: 0 <= j < u ==> s.nodes[s.used[j]].End() <= ptr || ptr < s.nodes[s.used[j]].addr
    ensures Free(s, ptr) == Release(s.(used := s.used[..u] + s.used[u + 1..]), s.used[u])
  {
  }

  lemma Free3(o: Others)
    requires Unused(o) && NodesKnown(S3(o))
    ensures Free(S3(o), 0x1_0400) == S4(o)
  {
    FreesAt(S3(o), 0x1_0400, 0);
    assert [1, 2, 0][..0] + [1, 2, 0][1..] == [2, 0];
  }

  lemma Free4(o: Others)
    requires Unused(o) && NodesKnown(S4(o))
    ensures Free(S4(o), 0x1_0480) == S5(o)
  {
    FreesAt(S4(o), 0x1_0480, 1);
    assert [2, 0][..1] + [2, 0][2..] == [2];
    assert FindSlot(S4(o).nodes, [1], C) == 0;
    assert [1][..1] + [0] + [1][1..] == [1, 0];
  }

  lemma Free5(o: Others)
    requires Unused(o) && NodesKnown(S5(o))
    ensures Free(S5(o), 0x1_0440) == S6(o)
  {
    FreesAt(S5(o), 0x1_0440, 0);
    assert [2][..0] + [2][1..] == [];
    assert FindSlot(S5(o).nodes, [1, 0], B) == 0;
    assert S5(o).nodes[1 := AB] == S6(o).nodes;
  }

  lemma Free7(o: Others)
    requires Unused(o) && NodesKnown(S7(o))
    ensures Free(S7(o), 0x1_0480) == S8(o)
  {
    FreesAt(S7(o), 0x1_0480, 0);
    assert [3][..0] + [3][1..] == [];
    assert FindSlot(S7(o).nodes, [1, 0], Node(0x1_0480, 256)) == 0;
    assert S7(o).nodes[1 := Node(0x1_0400, 384)] == S8(o).nodes;
    assert S7(o).freeNodes + [3] == S8(o).freeNodes;
  }

  /** A fresh heap, three allocations, and their release in the order first, last, second. */
  method Prepared(ghost o: Others) returns (c: Control)
    requires Unused(o) && HousekeepingSize(SIZE) > 0 && InitState(BASE, SIZE) == S0(o)
    ensures fresh(c) && c.View() == S6(o)
  {
    KnownAll(o);
    c := new Control(InitState(BASE, SIZE));
    Alloc0(o);
    var a := c.AllocWithAlign(ALIGN, 64);
    Alloc1(o);
    var b := c.AllocWithAlign(ALIGN, 64);
    Alloc2(o);
    var r := c.AllocWithAlign(ALIGN, 0x3b80);
    Free3(o);
    c.FreeBlock(0x1_0400);
    Free4(o);
    c.FreeBlock(0x1_0480);
    Free5(o);
    c.FreeBlock(0x1_0440);
  }

  /** The same heap twice: a large request is granted, and after a smaller block has been allocated and
      freed it is refused. */
  method SpaceLost() returns (before: Option<nat>, after: Option<nat>)
    ensures before.Some? && after.None?
  {
    ghost var o := Starts();
    KnownAll(o);
    Answers(o);
    var c := Prepared(o);
    before := c.AllocWithAlign(ALIGN, 0x3b80);
    var d := Prepared(o);
    Alloc6(o);
    var small := d.AllocWithAlign(ALIGN, 256);
    Free7(o);
    d.FreeBlock(0x1_0480);
    after := d.AllocWithAlign(ALIGN, 0x3b80);
  }
}
