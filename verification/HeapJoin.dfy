/** What releasing a block does to the free blocks, and exactly which requests are granted. */
module HeapJoin {
  import opened Wrappers
  import opened HeapTiling
  import opened Heap
  import opened HeapProofs
  import opened PowersOfTwo

  /** The free blocks, in list order. */
  function FreeBlocks(s: State): (f: seq<Node>)
    requires Known(s.nodes, s.freeSpace)
    ensures |f| == |s.freeSpace|
  {
    seq(|s.freeSpace|, i requires 0 <= i < |s.freeSpace| => s.nodes[s.freeSpace[i]])
  }

  // ---------- releasing ----------

  predicate Touch(f: Node, b: Node) {
    b.End() == f.addr || f.End() == b.addr
  }

  /** `i` is the first free block that touches `b` or lies before it. */
  ghost predicate FirstNear(free: seq<Node>, b: Node, i: int) {
    && 0 <= i < |free| && (Touch(free[i], b) || free[i].End() < b.addr)
    && forall j :: 0 <= j < i ==> !Touch(free[j], b) && free[j].End() >= b.addr
  }

  /** One block over the extent of both. */
  predicate Spans(g: Node, f: Node, b: Node) {
    && g.addr == (if b.addr < f.addr then b.addr else f.addr)
    && g.End() == (if b.addr < f.addr then f.End() else b.End())
  }

  /** The free blocks after `b` has been put back: it is joined to the first near block if that one
      touches it, and is a block of its own otherwise. */
  ghost predicate PutBack(free: seq<Node>, b: Node, after: seq<Node>, spares: int) {
    && (forall i :: FirstNear(free, b, i) && Touch(free[i], b) ==>
          |after| == |free| && after == free[i := after[i]] && Spans(after[i], free[i], b) && spares == 1)
    && (forall i :: FirstNear(free, b, i) && !Touch(free[i], b) ==>
          after == free[..i + 1] + [b] + free[i + 1..] && spares == 0)
    && ((forall i :: !FirstNear(free, b, i)) ==> after == free + [b] && spares == 0)
  }

  /** The slot found is the first near block. */
  lemma {:induction false} SlotFirst(nodes: seq<Node>, list: seq<nat>, b: Node)
    requires Known(nodes, list)
    ensures forall j :: 0 <= j < FindSlot(nodes, list, b) ==>
      !Touch(nodes[list[j]], b) && nodes[list[j]].End() >= b.addr
  {
    if list != [] && FindSlot(nodes, list, b) > 0 {
      var rest := list[1..];
      SlotFirst(nodes, rest, b);
      forall j | 0 <= j < FindSlot(nodes, list, b)
        ensures !Touch(nodes[list[j]], b) && nodes[list[j]].End() >= b.addr
      {
        if j > 0 {
          assert list[j] == rest[j - 1];
        }
      }
    }
  }

  lemma NearIsSlot(s: State, b: Node)
    requires Known(s.nodes, s.freeSpace)
    ensures var i := FindSlot(s.nodes, s.freeSpace, b);
      && (i < |s.freeSpace| ==> FirstNear(FreeBlocks(s), b, i))
      && (forall k :: FirstNear(FreeBlocks(s), b, k) ==> k == i)
  {
    SlotFirst(s.nodes, s.freeSpace, b);
  }

  lemma JoinedBlocks(s: State, t: State, i: nat, g: Node)
    requires ListsOk(s) && Known(s.nodes, s.freeSpace) && i < |s.freeSpace|
    requires t.nodes == s.nodes[s.freeSpace[i] := g] && t.freeSpace == s.freeSpace
    ensures Known(t.nodes, t.freeSpace) && FreeBlocks(t) == FreeBlocks(s)[i := g]
  {
    forall k | 0 <= k < |s.freeSpace| && k != i ensures t.nodes[s.freeSpace[k]] == s.nodes[s.freeSpace[k]] {
      Distinct(s, k, i);
    }
  }

  lemma LinkedBlocks(s: State, t: State, i: nat, np: nat)
    requires Known(s.nodes, s.freeSpace) && np < |s.nodes| && i <= |s.freeSpace|
    requires t.nodes == s.nodes && t.freeSpace == s.freeSpace[..i] + [np] + s.freeSpace[i..]
    ensures Known(t.nodes, t.freeSpace) && FreeBlocks(t) == FreeBlocks(s)[..i] + [s.nodes[np]] + FreeBlocks(s)[i..]
  {
  }

  /** What the code does, in terms of the slot it finds. */
  lemma ReleaseCases(s: State, np: nat)
    requires ListsOk(s) && Known(s.nodes, s.freeSpace) && np < |s.nodes|
    ensures var t, free, b := Release(s, np), FreeBlocks(s), s.nodes[np];
      var i := FindSlot(s.nodes, s.freeSpace, b);
      && Known(t.nodes, t.freeSpace)
      && if i == |free| then FreeBlocks(t) == free + [b] && t.freeNodes == s.freeNodes
         else if Touch(free[i], b) then
           FreeBlocks(t) == free[i := Node(if b.End() == free[i].addr then b.addr else free[i].addr,
                                           free[i].size + b.size)] && t.freeNodes == s.freeNodes + [np]
         else FreeBlocks(t) == free[..i + 1] + [b] + free[i + 1..] && t.freeNodes == s.freeNodes
  {
    var t, free, b := Release(s, np), FreeBlocks(s), s.nodes[np];
    var i := FindSlot(s.nodes, s.freeSpace, b);
    if i == |free| {
      assert s.freeSpace + [np] == s.freeSpace[..i] + [np] + s.freeSpace[i..];
      LinkedBlocks(s, t, i, np);
      assert free[..i] + [b] + free[i..] == free + [b];
    } else if Touch(free[i], b) {
      JoinedBlocks(s, t, i, t.nodes[s.freeSpace[i]]);
    } else {
      LinkedBlocks(s, t, i + 1, np);
    }
  }

  lemma PutBackIs(free: seq<Node>, b: Node, after: seq<Node>, spares: int, i: nat)
    requires i <= |free| && b.size > 0 && forall k :: FirstNear(free, b, k) ==> k == i
    requires i < |free| ==> FirstNear(free, b, i)
    requires if i == |free| then after == free + [b] && spares == 0
             else if Touch(free[i], b) then |after| == |free| && after == free[i := after[i]]
               && Spans(after[i], free[i], b) && spares == 1
             else after == free[..i + 1] + [b] + free[i + 1..] && spares == 0
    ensures PutBack(free, b, after, spares)
  {
  }

  lemma ReleaseJoins(s: State, np: nat)
    requires ListsOk(s) && Known(s.nodes, s.freeSpace) && np < |s.nodes| && s.nodes[np].size > 0
    ensures var t := Release(s, np);
      && Known(t.nodes, t.freeSpace)
      && PutBack(FreeBlocks(s), s.nodes[np], FreeBlocks(t), |t.freeNodes| - |s.freeNodes|)
  {
    var b, t := s.nodes[np], Release(s, np);
    NearIsSlot(s, b);
    ReleaseCases(s, np);
    PutBackIs(FreeBlocks(s), b, FreeBlocks(t), |t.freeNodes| - |s.freeNodes|, FindSlot(s.nodes, s.freeSpace, b));
  }

  lemma UsedApart(s: State, i: nat, u: nat, lo: nat, hi: nat)
    requires Inv(s, lo, hi) && i < |s.used| && u < |s.used| && i != u
    ensures Apart(s.nodes, s.used[i], s.used[u])
  {
    UsedDistinct(s, i, u);
    assert s.used[i] in Blocks(s) && s.used[u] in Blocks(s);
  }

  /** The used block that holds the pointer is the one the search finds. */
  lemma HolderFound(s: State, ptr: nat, u: nat, lo: nat, hi: nat)
    requires Inv(s, lo, hi) && u < |s.used| && s.nodes[s.used[u]].addr <= ptr < s.nodes[s.used[u]].End()
    ensures FindUsed(s.nodes, s.used, ptr) == u
  {
    var i := FindUsed(s.nodes, s.used, ptr);
    if i != u {
      UsedApart(s, i, u, lo, hi);
    }
  }

  /** Freeing puts back the block that holds the pointer: joined to the first free block in list order
      that touches it or lies before it, if that one touches it, and on its own otherwise. */
  lemma FreeJoins(s: State, ptr: nat, u: nat, lo: nat, hi: nat)
    requires Inv(s, lo, hi) && ptr != 0 && u < |s.used|
    requires s.nodes[s.used[u]].addr <= ptr < s.nodes[s.used[u]].End()
    ensures NodesKnown(s) && Known(Free(s, ptr).nodes, Free(s, ptr).freeSpace)
    ensures PutBack(FreeBlocks(s), s.nodes[s.used[u]], FreeBlocks(Free(s, ptr)),
                    |Free(s, ptr).freeNodes| - |s.freeNodes|)
  {
    InvKnown(s, lo, hi);
    FreeIsRelease(s, ptr, u, lo, hi);
    assert s.used[u] in Blocks(s);
    ReleaseJoins(s, s.used[u]);
    SameBlocks(Release(s, s.used[u]), Free(s, ptr));
  }

  lemma FreeIsRelease(s: State, ptr: nat, u: nat, lo: nat, hi: nat)
    requires Inv(s, lo, hi) && NodesKnown(s) && ptr != 0 && u < |s.used|
    requires s.nodes[s.used[u]].addr <= ptr < s.nodes[s.used[u]].End()
    ensures Free(s, ptr) == Release(s, s.used[u]).(used := s.used[..u] + s.used[u + 1..])
  {
    HolderFound(s, ptr, u, lo, hi);
    ReleasedSame(s, s.(used := s.used[..u] + s.used[u + 1..]), s.used[u]);
  }

  lemma SameBlocks(s: State, t: State)
    requires Known(s.nodes, s.freeSpace) && t == s.(used := t.used)
    ensures Known(t.nodes, t.freeSpace) && FreeBlocks(t) == FreeBlocks(s)
  {
  }

  /** Releasing does not look at the used list. */
  lemma ReleasedSame(s: State, s1: State, np: nat)
    requires Known(s.nodes, s.freeSpace) && np < |s.nodes| && s1 == s.(used := s1.used)
    ensures Release(s1, np) == Release(s, np).(used := s1.used)
  {
  }

  // ---------- granting ----------

  /** `x` is the least multiple of `align` from `a` on. */
  ghost predicate LeastAligned(a: nat, align: nat, x: nat)
    requires align > 0
  {
    a <= x && x % align == 0 && forall y: nat :: a <= y < x ==> y % align != 0
  }

  /** The block holds `size` bytes from some aligned address on. */
  ghost predicate Room(b: Node, align: nat, size: nat)
    requires align > 0
  {
    exists x: nat :: b.addr <= x && x % align == 0 && x + size <= b.End()
  }

  ghost predicate FirstRoom(free: seq<Node>, align: nat, size: nat, i: int)
    requires align > 0
  {
    0 <= i < |free| && Room(free[i], align, size) && forall j :: 0 <= j < i ==> !Room(free[j], align, size)
  }

  /** Spare nodes needed to cut `[x, x + size)` out of the block: one for each remainder, but none for
      the whole block. */
  function Cuts(b: Node, x: nat, size: nat): nat {
    (if x > b.addr then 1 else 0) + (if x + size < b.End() then 1 else 0)
  }

  /** The grant is the least aligned address of the first block with room, if there are nodes enough. */
  ghost predicate Granted(free: seq<Node>, spares: nat, align: nat, size: nat, x: nat)
    requires align > 0
  {
    exists i :: FirstRoom(free, align, size, i) && LeastAligned(free[i].addr, align, x)
                && Cuts(free[i], x, size) <= spares
  }

  lemma PadIsLeast(b: Node, align: nat, x: nat)
    requires align > 0
    ensures LeastAligned(b.addr, align, x) <==> x == b.addr + Pad(b, align)
  {
    var r := RoundUp(b.addr, align);
    forall y: nat | b.addr <= y < r ensures y % align != 0 {
      if y % align == 0 {
        NextMultiple(align, y, r);
      }
    }
  }

  lemma NextMultiple(align: nat, x: nat, y: nat)
    requires align > 0 && x % align == 0 && y % align == 0 && x < y
    ensures x + align <= y
  {
    DividesMod(align, x);
    DividesMod(align, y);
    if y < x + align {
      MultiplesApart(align, y, x);
    }
  }

  lemma RoomIsPad(b: Node, align: nat, size: nat)
    requires align > 0
    ensures Room(b, align, size) <==> size + Pad(b, align) <= b.size
  {
    var r := b.addr + Pad(b, align);
    PadIsLeast(b, align, r);
    if x: nat :| b.addr <= x && x % align == 0 && x + size <= b.End() {
      assert x >= r;
    }
  }

  lemma FitIsRoom(s: State, align: nat, size: nat)
    requires align > 0 && Known(s.nodes, s.freeSpace)
    ensures var i, free := FirstFit(s.nodes, s.freeSpace, align, size), FreeBlocks(s);
      && (i < |free| ==> FirstRoom(free, align, size, i))
      && (forall k :: FirstRoom(free, align, size, k) ==> k == i)
  {
    forall k | 0 <= k < |s.freeSpace|
      ensures Room(FreeBlocks(s)[k], align, size)
        <==> size + Pad(s.nodes[s.freeSpace[k]], align) <= s.nodes[s.freeSpace[k]].size
    {
      RoomIsPad(s.nodes[s.freeSpace[k]], align, size);
    }
  }

  /** Exactly when and where a request of `size` bytes is granted. */
  lemma GrantedExactly(s: State, align: nat, size: nat, x: nat)
    requires align > 0 && NodesKnown(s)
    ensures AllocSize(s, align, size).1 == Some(x) <==> Granted(FreeBlocks(s), |s.freeNodes|, align, size, x)
  {
    FitIsRoom(s, align, size);
    var i, free := FirstFit(s.nodes, s.freeSpace, align, size), FreeBlocks(s);
    if i < |free| {
      PadIsLeast(free[i], align, x);
      TakesExactly(s, i, align, size);
    }
  }

  lemma TakesExactly(s: State, i: nat, align: nat, size: nat)
    requires align > 0 && NodesKnown(s) && i < |s.freeSpace| && i == FirstFit(s.nodes, s.freeSpace, align, size)
    ensures var b := s.nodes[s.freeSpace[i]];
      var x := b.addr + Pad(b, align);
      AllocSize(s, align, size).1 == if Cuts(b, x, size) <= |s.freeNodes| then Some(x) else None
  {
  }

  /** So a grant depends on the free blocks and the number of spare nodes alone. */
  lemma SameGrants(s: State, t: State, align: nat, size: nat)
    requires align > 0 && NodesKnown(s) && NodesKnown(t)
    requires FreeBlocks(s) == FreeBlocks(t) && |s.freeNodes| == |t.freeNodes|
    ensures AllocSize(s, align, size).1 == AllocSize(t, align, size).1
  {
    var p, q := AllocSize(s, align, size).1, AllocSize(t, align, size).1;
    if p.Some? {
      GrantedExactly(s, align, size, p.value);
      GrantedExactly(t, align, size, p.value);
    } else if q.Some? {
      GrantedExactly(s, align, size, q.value);
      GrantedExactly(t, align, size, q.value);
    }
  }

  // ---------- granting and releasing again ----------

  /** Distinct free blocks keep clear of block `i`. */
  ghost predicate ClearOf(free: seq<Node>, i: nat)
    requires i < |free|
  {
    && free[i].size > 0
    && forall j :: 0 <= j < |free| && j != i ==>
         free[j].size > 0 && (free[j].End() <= free[i].addr || free[i].End() <= free[j].addr)
  }

  /** No free block listed earlier lies before block `i`. */
  ghost predicate LeadsDown(free: seq<Node>, i: nat)
    requires i < |free|
  {
    forall j :: 0 <= j < i ==> free[j].End() > free[i].addr
  }

  lemma {:induction false} Earliest(free: seq<Node>, a: nat, j: nat) returns (k: nat)
    requires j < |free| && free[j].End() <= a
    ensures k <= j && free[k].End() <= a && forall m :: 0 <= m < k ==> free[m].End() > a
    decreases j
  {
    if m :| 0 <= m < j && free[m].End() <= a {
      k := Earliest(free, a, m);
    } else {
      k := j;
    }
  }

  /** Block `b` with its first `size` bytes cut off. */
  function CutOff(free: seq<Node>, i: nat, b: Node, size: nat): seq<Node>
    requires i < |free| && size <= b.size
  {
    free[i := Node(b.addr + size, b.size - size)]
  }

  lemma NotDownAt(free: seq<Node>, i: nat, b: Node, size: nat, after: seq<Node>, spares: int, k: nat)
    requires i < |free| && b == free[i] && 0 < size < b.size
    requires PutBack(CutOff(free, i, b, size), Node(b.addr, size), after, spares)
    requires k < i && free[k].End() <= b.addr && forall m :: 0 <= m < k ==> free[m].End() > b.addr
    requires forall m :: 0 <= m < i ==> free[m].addr != b.addr + size
    ensures after != free
  {
    var cut, front := CutOff(free, i, b, size), Node(b.addr, size);
    assert FirstNear(cut, front, k);
    if Touch(cut[k], front) {
      assert after[k] != free[k];
    } else {
      assert |after| == |free| + 1;
    }
  }

  /** No other free block starts inside block `i`. */
  lemma NoneInside(free: seq<Node>, i: nat, size: nat)
    requires i < |free| && ClearOf(free, i) && 0 < size < free[i].size
    ensures forall m :: 0 <= m < |free| && m != i ==> free[m].addr != free[i].addr + size
  {
  }

  lemma NotDown(free: seq<Node>, i: nat, b: Node, size: nat, after: seq<Node>, spares: int)
    requires i < |free| && b == free[i] && ClearOf(free, i) && 0 < size < b.size && !LeadsDown(free, i)
    requires PutBack(CutOff(free, i, b, size), Node(b.addr, size), after, spares)
    ensures after != free
  {
    var j :| 0 <= j < i && free[j].End() <= free[i].addr;
    var k := Earliest(free, free[i].addr, j);
    NoneInside(free, i, size);
    NotDownAt(free, i, b, size, after, spares, k);
  }

  lemma Down(free: seq<Node>, i: nat, b: Node, size: nat, after: seq<Node>, spares: int)
    requires i < |free| && b == free[i] && ClearOf(free, i) && 0 < size < b.size && LeadsDown(free, i)
    requires PutBack(CutOff(free, i, b, size), Node(b.addr, size), after, spares)
    ensures after == free && spares == 1
  {
    var cut, front := CutOff(free, i, b, size), Node(b.addr, size);
    NoneInside(free, i, size);
    assert FirstNear(cut, front, i) && Touch(cut[i], front);
    assert after[i] == b;
  }

  lemma FreeClear(s: State, i: nat, lo: nat, hi: nat)
    requires Inv(s, lo, hi) && i < |s.freeSpace|
    ensures ClearOf(FreeBlocks(s), i)
  {
    assert s.freeSpace[i] in Blocks(s);
    forall j | 0 <= j < |s.freeSpace| && j != i ensures Apart(s.nodes, s.freeSpace[j], s.freeSpace[i])
      && s.nodes[s.freeSpace[j]].size > 0 {
      Distinct(s, j, i);
      assert s.freeSpace[j] in Blocks(s);
    }
  }

  lemma FrontTaken(s: State, i: nat, size: nat, lo: nat, hi: nat)
    requires Inv(s, lo, hi) && i < |s.freeSpace| && NodesKnown(s) && s.freeNodes != []
    requires 0 < size < s.nodes[s.freeSpace[i]].size
    ensures var s1, b := TakeFront(s, i, size).0, s.nodes[s.freeSpace[i]];
      && Inv(s1, lo, hi) && Known(s1.nodes, s1.freeSpace) && |s1.freeNodes| == |s.freeNodes| - 1
      && FreeBlocks(s1) == CutOff(FreeBlocks(s), i, b, size)
      && |s1.used| == |s.used| + 1 && s1.used[|s.used|] < |s1.nodes|
      && s1.nodes[s1.used[|s.used|]] == Node(b.addr, size)
  {
    KeepTakeFront(s, i, size, lo, hi);
    var n, np := s.freeNodes[0], s.freeSpace[i];
    OnePlace(s, n);
    forall k | 0 <= k < |s.freeSpace| && k != i ensures s.freeSpace[k] != np && s.freeSpace[k] != n {
      Distinct(s, k, i);
    }
    assert np != n;
  }

  lemma RestoredState(s: State, i: nat, b: Node, size: nat, t: State, lo: nat, hi: nat)
    requires Inv(s, lo, hi) && i < |s.freeSpace| && b == s.nodes[s.freeSpace[i]] && 0 < size < b.size
    requires Known(t.nodes, t.freeSpace)
    requires PutBack(CutOff(FreeBlocks(s), i, b, size), Node(b.addr, size), FreeBlocks(t),
                     |t.freeNodes| - |s.freeNodes| + 1)
    ensures FreeBlocks(t) == FreeBlocks(s) && |t.freeNodes| == |s.freeNodes| <==> LeadsDown(FreeBlocks(s), i)
  {
    FreeClear(s, i, lo, hi);
    if LeadsDown(FreeBlocks(s), i) {
      Down(FreeBlocks(s), i, b, size, FreeBlocks(t), |t.freeNodes| - |s.freeNodes| + 1);
    } else {
      NotDown(FreeBlocks(s), i, b, size, FreeBlocks(t), |t.freeNodes| - |s.freeNodes| + 1);
    }
  }

  function FrontFreed(s: State, i: nat, size: nat): State
    requires i < |s.freeSpace| && NodesKnown(s) && size <= s.nodes[s.freeSpace[i]].size
    requires NodesKnown(TakeFront(s, i, size).0)
  {
    Free(TakeFront(s, i, size).0, s.nodes[s.freeSpace[i]].addr)
  }

  lemma FrontPutBack(s: State, i: nat, size: nat, lo: nat, hi: nat)
    requires Inv(s, lo, hi) && lo > 0 && i < |s.freeSpace| && NodesKnown(s) && s.freeNodes != []
    requires 0 < size < s.nodes[s.freeSpace[i]].size
    ensures NodesKnown(TakeFront(s, i, size).0) && NodesKnown(FrontFreed(s, i, size))
    ensures var t, b := FrontFreed(s, i, size), s.nodes[s.freeSpace[i]];
      PutBack(CutOff(FreeBlocks(s), i, b, size), Node(b.addr, size), FreeBlocks(t),
              |t.freeNodes| - |s.freeNodes| + 1)
  {
    var s1, ptr := TakeFront(s, i, size).0, s.nodes[s.freeSpace[i]].addr;
    FrontTaken(s, i, size, lo, hi);
    assert ptr != 0 by { assert s.freeSpace[i] in Blocks(s); }
    FreeJoins(s1, ptr, |s.used|, lo, hi);
    KeepFree(s1, ptr, lo, hi);
    InvKnown(Free(s1, ptr), lo, hi);
  }

  /** Allocating the front of a free block and freeing it again gives the same free blocks in the same
      order and as many spare nodes, exactly if no free block listed earlier lies before it. */
  lemma FrontRestored(s: State, i: nat, size: nat, lo: nat, hi: nat)
    requires Inv(s, lo, hi) && lo > 0 && i < |s.freeSpace| && NodesKnown(s) && s.freeNodes != []
    requires 0 < size < s.nodes[s.freeSpace[i]].size
    ensures NodesKnown(TakeFront(s, i, size).0) && NodesKnown(FrontFreed(s, i, size))
    ensures var t := FrontFreed(s, i, size);
      FreeBlocks(t) == FreeBlocks(s) && |t.freeNodes| == |s.freeNodes| <==> LeadsDown(FreeBlocks(s), i)
  {
    FrontPutBack(s, i, size, lo, hi);
    RestoredState(s, i, s.nodes[s.freeSpace[i]], size, FrontFreed(s, i, size), lo, hi);
  }

  /** And then every request gets the answer it would have got before. */
  lemma GrantedAgain(s: State, i: nat, size: nat, lo: nat, hi: nat, align: nat, other: nat)
    requires Inv(s, lo, hi) && lo > 0 && i < |s.freeSpace| && NodesKnown(s) && s.freeNodes != []
    requires 0 < size < s.nodes[s.freeSpace[i]].size && LeadsDown(FreeBlocks(s), i) && align > 0
    ensures NodesKnown(TakeFront(s, i, size).0) && NodesKnown(FrontFreed(s, i, size))
    ensures AllocSize(FrontFreed(s, i, size), align, other).1 == AllocSize(s, align, other).1
  {
    FrontRestored(s, i, size, lo, hi);
    SameGrants(FrontFreed(s, i, size), s, align, other);
  }
}
