/** The firmware heap: first fit with alignment padding, splitting, and coalescing
    with one neighbour, over three lists of fixed housekeeping nodes. */
module Heap {
  import opened Wrappers
  import opened HeapTiling
  import opened PowersOfTwo

  const HEAP_ALLOC_ALIGN: nat := 64
  const HEAP_BASE_ALIGN: nat := 1024
  const HEAP_HOUSEKEEPING_FACTOR: nat := 16
  const NODE_BYTES: nat := 32
  const WORD: nat := 0x1_0000_0000_0000_0000

  /** Node contents by slot, and the slots on the three lists. */
  datatype State = State(nodes: seq<Node>, freeNodes: seq<nat>, freeSpace: seq<nat>, used: seq<nat>)

  // ---------- invariant ----------

  function Blocks(s: State): set<nat> {
    (set i | i in s.freeSpace) + (set i | i in s.used)
  }

  /** Every housekeeping node is on exactly one list, exactly once. */
  ghost predicate ListsOk(s: State) {
    forall i: nat ::
      (multiset(s.freeNodes) + multiset(s.freeSpace) + multiset(s.used))[i] == if i < |s.nodes| then 1 else 0
  }

  /** Free and used blocks tile the managed area `[lo, hi)` exactly. */
  ghost predicate Inv(s: State, lo: nat, hi: nat) {
    && ListsOk(s)
    && Tiles(s.nodes, Blocks(s), lo, hi)
    && Known(s.nodes, s.freeSpace) && Known(s.nodes, s.used)
    && lo <= hi
    && Total(s.nodes, s.freeSpace) + Total(s.nodes, s.used) == hi - lo
  }

  // ---------- operations ----------

  function RoundUp(x: nat, align: nat): (r: nat)
    requires align > 0
    ensures x <= r < x + align && r % align == 0
  {
    var q := (x + align - 1) / align;
    assert x + align - 1 == align * q + (x + align - 1) % align;
    MulMod(align, q);
    assert align * q == q * align;
    q * align
  }

  function Pad(n: Node, align: nat): nat
    requires align > 0
  {
    RoundUp(n.addr, align) - n.addr
  }

  /** Position of the first free block that holds `size` bytes after padding. */
  function FirstFit(nodes: seq<Node>, list: seq<nat>, align: nat, size: nat): (i: nat)
    requires align > 0 && Known(nodes, list)
    ensures i <= |list|
    ensures i < |list| ==> size + Pad(nodes[list[i]], align) <= nodes[list[i]].size
    ensures forall j :: 0 <= j < i ==> size + Pad(nodes[list[j]], align) > nodes[list[j]].size
  {
    if list == [] then 0
    else if size + Pad(nodes[list[0]], align) <= nodes[list[0]].size then 0
    else 1 + FirstFit(nodes, list[1..], align, size)
  }

  predicate NodesKnown(s: State) {
    Known(s.nodes, s.freeNodes) && Known(s.nodes, s.freeSpace) && Known(s.nodes, s.used)
  }

  /** The block at position `i` starts unaligned: give out its aligned middle. */
  function TakePadded(s: State, i: nat, align: nat, size: nat): (State, Option<nat>)
    requires NodesKnown(s) && i < |s.freeSpace| && align > 0
    requires size + Pad(s.nodes[s.freeSpace[i]], align) <= s.nodes[s.freeSpace[i]].size
  {
    var np := s.freeSpace[i];
    var b, pad := s.nodes[np], Pad(s.nodes[np], align);
    if s.freeNodes == [] then (s, None)
    else
      var n, rest := s.freeNodes[0], s.freeNodes[1..];
      if size + pad < b.size && rest != [] then
        var rem := rest[0];
        var nodes := s.nodes[rem := Node(b.addr + (size + pad), b.size - (size + pad))]
                     [n := Node(b.addr + pad, size)][np := Node(b.addr, pad)];
        (State(nodes, rest[1..], s.freeSpace + [rem], s.used + [n]), Some(b.addr + pad))
      else if size + pad != b.size then (s, None)
      else
        (State(s.nodes[n := Node(b.addr + pad, size)][np := Node(b.addr, pad)], rest, s.freeSpace, s.used + [n]),
         Some(b.addr + pad))
  }

  /** The block at position `i` starts aligned: give out its front, or all of it. */
  function TakeFront(s: State, i: nat, size: nat): (State, Option<nat>)
    requires NodesKnown(s) && i < |s.freeSpace| && size <= s.nodes[s.freeSpace[i]].size
  {
    var np := s.freeSpace[i];
    var b := s.nodes[np];
    if size < b.size && s.freeNodes != [] then
      var n := s.freeNodes[0];
      (State(s.nodes[n := Node(b.addr, size)][np := Node(b.addr + size, b.size - size)],
             s.freeNodes[1..], s.freeSpace, s.used + [n]),
       Some(b.addr))
    else if size == b.size then
      (s.(freeSpace := s.freeSpace[..i] + s.freeSpace[i + 1..], used := s.used + [np]), Some(b.addr))
    else
      (s, None)
  }

  /** First fit for a length that has been rounded already. */
  function AllocSize(s: State, align: nat, size: nat): (State, Option<nat>)
    requires NodesKnown(s) && align > 0
  {
    var i := FirstFit(s.nodes, s.freeSpace, align, size);
    if i == |s.freeSpace| then (s, None)
    else if Pad(s.nodes[s.freeSpace[i]], align) > 0 then TakePadded(s, i, align, size)
    else TakeFront(s, i, size)
  }

  /** Allocation with exact rounding. */
  function Alloc(s: State, align: nat, want: nat): (State, Option<nat>)
    requires NodesKnown(s) && align > 0
  {
    if want == 0 then (s, None) else AllocSize(s, align, RoundUp(want, align))
  }

  /** The rounding as the machine does it, in 64-bit words. */
  function MachineRound(want: nat, align: nat): nat
    requires align > 0
  {
    Rounded((want + align - 1) % WORD, align);
    (want + align - 1) % WORD / align * align
  }

  /** Allocation with the machine's rounding. */
  function MachineAlloc(s: State, align: nat, want: nat): (State, Option<nat>)
    requires NodesKnown(s) && align > 0
  {
    if want == 0 then (s, None) else AllocSize(s, align, MachineRound(want, align))
  }

  /** Position of the used block that holds `ptr`, or the length. */
  function FindUsed(nodes: seq<Node>, list: seq<nat>, ptr: nat): (i: nat)
    requires Known(nodes, list)
    ensures i <= |list|
    ensures i < |list| ==> nodes[list[i]].addr <= ptr < nodes[list[i]].End()
    ensures forall j :: 0 <= j < i ==> !(nodes[list[j]].addr <= ptr < nodes[list[j]].End())
  {
    if list == [] then 0
    else if nodes[list[0]].addr <= ptr < nodes[list[0]].End() then 0
    else 1 + FindUsed(nodes, list[1..], ptr)
  }

  /** Position of the first free block that touches or lies before `b`, or the length. */
  function FindSlot(nodes: seq<Node>, list: seq<nat>, b: Node): (i: nat)
    requires Known(nodes, list)
    ensures i <= |list|
    ensures i < |list| ==> b.End() == nodes[list[i]].addr || nodes[list[i]].End() <= b.addr
  {
    if list == [] then 0
    else if b.End() == nodes[list[0]].addr || nodes[list[0]].End() <= b.addr then 0
    else 1 + FindSlot(nodes, list[1..], b)
  }

  /** Put the free block `np` back: merge it into the neighbour found, or link it in. */
  function Release(s: State, np: nat): State
    requires Known(s.nodes, s.freeSpace) && np < |s.nodes|
  {
    var b := s.nodes[np];
    var i := FindSlot(s.nodes, s.freeSpace, b);
    if i == |s.freeSpace| then
      s.(freeSpace := s.freeSpace + [np])
    else
      var n := s.freeSpace[i];
      var f := s.nodes[n];
      if b.End() == f.addr then
        s.(nodes := s.nodes[n := Node(b.addr, f.size + b.size)], freeNodes := s.freeNodes + [np])
      else if b.addr == f.End() then
        s.(nodes := s.nodes[n := Node(f.addr, f.size + b.size)], freeNodes := s.freeNodes + [np])
      else
        s.(freeSpace := s.freeSpace[..i + 1] + [np] + s.freeSpace[i + 1..])
  }

  function Free(s: State, ptr: nat): State
    requires NodesKnown(s)
  {
    var i := FindUsed(s.nodes, s.used, ptr);
    if ptr == 0 || i == |s.used| then s
    else Release(s.(used := s.used[..i] + s.used[i + 1..]), s.used[i])
  }
}
