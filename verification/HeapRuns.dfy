/** Heaps from their initialisation on, with the machine's arithmetic. */
module HeapRuns {
  import opened Wrappers
  import opened HeapTiling
  import opened Heap
  import opened HeapProofs
  import opened PowersOfTwo

  // ---------- machine arithmetic ----------

  /** The request and its rounding stay within a machine word. */
  predicate NoOverflow(want: nat, align: nat) {
    want + align <= WORD
  }

  /** The rounded length is exact when the sum does not overflow; an overflow rounds it to
      nothing at all. */
  lemma RoundExact(want: nat, align: nat)
    requires 0 < align < WORD && 0 < want < WORD
    ensures MachineRound(want, align) == if NoOverflow(want, align) then RoundUp(want, align) else 0
  {
    var n := want + align - 1;
    if n < WORD {
      DivUnique(WORD, 0, n);
    } else {
      DivUnique(WORD, 1, n - WORD);
      DivUnique(align, 0, n - WORD);
    }
  }

  /** A granted pointer is aligned, its block holds the request, lies in the managed area and
      overlaps no live block, and the heap stays tiled. */
  ghost predicate Honoured(s: State, s': State, ptr: nat, align: nat, want: nat, lo: nat, hi: nat)
    requires align > 0
  {
    && Inv(s', lo, hi)
    && |s'.used| == |s.used| + 1 && s'.used[..|s.used|] == s.used
    && var n := s'.used[|s.used|];
       && n < |s'.nodes| && s'.nodes[n].addr == ptr && want <= s'.nodes[n].size && ptr % align == 0
       && lo <= ptr && s'.nodes[n].End() <= hi
       && forall u <- s.used :: u < |s.nodes| && (s.nodes[u].End() <= ptr || s'.nodes[n].End() <= s.nodes[u].addr)
  }

  /** Allocation as the machine does it, exactly: a refusal changes nothing, and a grant is
      honoured if and only if rounding the request does not overflow. */
  lemma MachineAllocExact(s: State, align: nat, want: nat, lo: nat, hi: nat)
    requires Inv(s, lo, hi) && 0 < align < WORD && 0 < want < WORD
    ensures NodesKnown(s)
    ensures var (s', r) := MachineAlloc(s, align, want);
      && (r.None? ==> s' == s)
      && (r.Some? ==> (Honoured(s, s', r.value, align, want, lo, hi) <==> NoOverflow(want, align)))
  {
    InvKnown(s, lo, hi);
    RoundExact(want, align);
    if NoOverflow(want, align) {
      assert MachineAlloc(s, align, want) == Alloc(s, align, want);
      AllocContract(s, align, want, lo, hi);
    } else {
      EmptyGrant(s, align, lo, hi);
    }
  }

  /** A length rounded to nothing is granted a block of no bytes. */
  lemma EmptyGrant(s: State, align: nat, lo: nat, hi: nat)
    requires Inv(s, lo, hi) && NodesKnown(s) && align > 0
    ensures var (s', r) := AllocSize(s, align, 0);
      Grants(s, s', r, 0)
  {
    var i := FirstFit(s.nodes, s.freeSpace, align, 0);
    if i < |s.freeSpace| {
      TakePaddedOrFront(s, i, align, 0, lo, hi);
    }
  }

  // ---------- start and runs ----------

  function HousekeepingSize(size: nat): nat {
    size / HEAP_HOUSEKEEPING_FACTOR / HEAP_BASE_ALIGN * HEAP_BASE_ALIGN
  }

  function NodeCount(size: nat): nat {
    HousekeepingSize(size) / NODE_BYTES
  }

  /** A fresh heap: the first node is one free block, the others are spare. */
  function InitState(base: nat, size: nat): State
    requires HousekeepingSize(size) > 0
  {
    var hk := HousekeepingSize(size);
    State(seq(NodeCount(size), i => if i == 0 then Node(base + hk, size - hk) else Node(0, 0)),
          seq(NodeCount(size) - 1, i requires 0 <= i => i + 1), [0], [])
  }

  lemma {:induction false} UpFrom(n: nat, k: nat)
    ensures multiset(seq(n, i requires 0 <= i => i + 1))[k] == if 1 <= k <= n then 1 else 0
  {
    var s := seq(n, i requires 0 <= i => i + 1);
    if n > 0 {
      var t := seq(n - 1, i requires 0 <= i => i + 1);
      UpFrom(n - 1, k);
      assert s == t + [n];
    }
  }

  lemma InitInv(base: nat, size: nat)
    requires HousekeepingSize(size) > 0
    ensures HousekeepingSize(size) < size
    ensures Inv(InitState(base, size), base + HousekeepingSize(size), base + size)
  {
    var s := InitState(base, size);
    forall k: nat ensures (multiset(s.freeNodes) + multiset(s.freeSpace) + multiset(s.used))[k]
        == if k < |s.nodes| then 1 else 0 {
      UpFrom(NodeCount(size) - 1, k);
    }
    OneTile(s.nodes, 0);
    assert Blocks(s) == {0};
    assert Total(s.nodes, [0]) == s.nodes[0].size + Total(s.nodes, []);
  }

  datatype Op = Malloc(size: nat) | AlignedAlloc(alignment: nat, size: nat) | FreeOp(ptr: nat)

  function Alignment(op: Op): nat
    requires !op.FreeOp?
  {
    if op.Malloc? || op.alignment < HEAP_ALLOC_ALIGN then HEAP_ALLOC_ALIGN else op.alignment
  }

  /** Arguments are machine words, and rounding the length does not overflow. */
  predicate Sane(op: Op) {
    !op.FreeOp? ==> op.size < WORD && Alignment(op) < WORD && NoOverflow(op.size, Alignment(op))
  }

  /** A number with a single bit. */
  predicate OneBit(a: nat) {
    a == 1 || (a > 0 && a % 2 == 0 && OneBit(a / 2))
  }

  lemma {:induction false} PowerHasOneBit(k: nat)
    ensures OneBit(Pow2(k))
  {
    if k > 0 {
      PowerHasOneBit(k - 1);
      assert Pow2(k) / 2 == Pow2(k - 1);
    }
  }

  lemma {:induction false} Exponent(a: nat) returns (k: nat)
    requires OneBit(a)
    ensures a == Pow2(k)
  {
    if a == 1 {
      k := 0;
    } else {
      var h := Exponent(a / 2);
      k := h + 1;
    }
  }

  lemma OneBitIsPower(a: nat)
    ensures OneBit(a) <==> exists k: nat :: a == Pow2(k)
  {
    if OneBit(a) {
      var k := Exponent(a);
    }
    if k: nat :| a == Pow2(k) {
      PowerHasOneBit(k);
    }
  }

  /** The public entry points; the aligned one rejects alignments that are no power of two and lengths
      that are no multiple of them. */
  function Ask(s: State, op: Op): (State, Option<nat>)
    requires NodesKnown(s)
  {
    match op
    case Malloc(size) => MachineAlloc(s, HEAP_ALLOC_ALIGN, size)
    case AlignedAlloc(_, size) =>
      var a := Alignment(op);
      if !OneBit(a) || size % a != 0 then (s, None) else MachineAlloc(s, a, size)
    case FreeOp(ptr) => (Free(s, ptr), None)
  }

  function Apply(s: State, op: Op): State
    requires NodesKnown(s)
  {
    Ask(s, op).0
  }

  ghost predicate IsRun(run: seq<State>, ops: seq<Op>, base: nat, size: nat)
    requires HousekeepingSize(size) > 0
  {
    && |run| == |ops| + 1 && run[0] == InitState(base, size)
    && forall i :: 0 <= i < |ops| ==> NodesKnown(run[i]) && run[i + 1] == Apply(run[i], ops[i])
  }

  lemma KeepApply(s: State, op: Op, lo: nat, hi: nat)
    requires Inv(s, lo, hi) && Sane(op)
    ensures NodesKnown(s) && Inv(Apply(s, op), lo, hi)
  {
    InvKnown(s, lo, hi);
    if op.FreeOp? {
      KeepFree(s, op.ptr, lo, hi);
    } else if op.size > 0 {
      MachineAllocExact(s, Alignment(op), op.size, lo, hi);
    }
  }

  /** What a grant is worth to the caller of an entry point: plain allocations are aligned to 64 bytes,
      aligned ones to at least as much and to the alignment asked for. */
  lemma GrantHonoured(s: State, op: Op, lo: nat, hi: nat)
    requires Inv(s, lo, hi) && Sane(op) && NodesKnown(s) && Ask(s, op).1.Some?
    ensures !op.FreeOp? && Honoured(s, Ask(s, op).0, Ask(s, op).1.value, 64, op.size, lo, hi)
    ensures op.AlignedAlloc? && op.alignment > 64 ==>
      && Honoured(s, Ask(s, op).0, Ask(s, op).1.value, op.alignment, op.size, lo, hi)
      && op.size % op.alignment == 0 && exists k: nat :: op.alignment == Pow2(k)
  {
    MachineAllocExact(s, Alignment(op), op.size, lo, hi);
    if op.AlignedAlloc? && op.alignment > 64 {
      OneBitIsPower(op.alignment);
      var k: nat :| op.alignment == Pow2(k);
      SixtyFour(k, Ask(s, op).1.value);
    }
  }

  lemma SixtyFour(k: nat, x: nat)
    requires Pow2(k) > 64 && x % Pow2(k) == 0
    ensures x % 64 == 0
  {
    assert Pow2(6) == 64;
    if k < 6 {
      Pow2Monotone(k, 6);
    }
    PowersDivide(6, k);
    DividesMod(Pow2(k), x);
    DividesTrans(64, Pow2(k), x);
    DividesMod(64, x);
  }

  /** Heap partition, over every sequence of calls: free and used blocks tile the area behind
      the housekeeping exactly, and every node is on exactly one of the three lists. */
  lemma {:induction false} Partition(run: seq<State>, ops: seq<Op>, base: nat, size: nat, k: nat)
    requires HousekeepingSize(size) > 0 && IsRun(run, ops, base, size) && k < |run|
    requires forall i :: 0 <= i < k ==> Sane(ops[i])
    ensures Inv(run[k], base + HousekeepingSize(size), base + size)
  {
    if k == 0 {
      InitInv(base, size);
    } else {
      Partition(run, ops, base, size, k - 1);
      KeepApply(run[k - 1], ops[k - 1], base + HousekeepingSize(size), base + size);
    }
  }

  /** An overflowing request on a fresh heap: the largest one of all is granted. */
  lemma HugeRequestGranted(base: nat)
    ensures HousekeepingSize(0x4000) > 0
    ensures var s := InitState(base, 0x4000);
      NodesKnown(s) && MachineAlloc(s, HEAP_ALLOC_ALIGN, WORD - 1).1.Some? && !NoOverflow(WORD - 1, HEAP_ALLOC_ALIGN)
  {
    var s := InitState(base, 0x4000);
    InitInv(base, 0x4000);
    InvKnown(s, base + 0x400, base + 0x4000);
    RoundExact(WORD - 1, HEAP_ALLOC_ALIGN);
    assert |s.freeNodes| == NodeCount(0x4000) - 1 == 31;
    assert Pad(s.nodes[0], HEAP_ALLOC_ALIGN) < HEAP_ALLOC_ALIGN;
    assert FirstFit(s.nodes, s.freeSpace, HEAP_ALLOC_ALIGN, 0) == 0;
  }

  // ---------- the report of used space ----------

  /** Used space as reported for a heap of the given size while `global` is the global heap: the
      code subtracts the global heap's free space, in machine words. */
  function ReportedUsed(size: nat, global: State): int
    requires NodesKnown(global)
  {
    (size - HousekeepingSize(size) - Total(global.nodes, global.freeSpace)) % WORD
  }

  /** The report is the sum of the heap's live blocks if and only if the global heap happens to
      have as much free space as the heap itself. */
  lemma ReportExact(s: State, base: nat, size: nat, global: State, gbase: nat, gsize: nat)
    requires HousekeepingSize(size) <= size < WORD && HousekeepingSize(gsize) <= gsize < WORD
    requires Inv(s, base + HousekeepingSize(size), base + size)
    requires Inv(global, gbase + HousekeepingSize(gsize), gbase + gsize)
    ensures NodesKnown(s) && NodesKnown(global)
    ensures ReportedUsed(size, global) == Total(s.nodes, s.used)
            <==> Total(global.nodes, global.freeSpace) == Total(s.nodes, s.freeSpace)
  {
    InvKnown(s, base + HousekeepingSize(size), base + size);
    InvKnown(global, gbase + HousekeepingSize(gsize), gbase + gsize);
    var room := size - HousekeepingSize(size);
    Wrapped(room, Total(global.nodes, global.freeSpace), Total(s.nodes, s.freeSpace));
  }

  lemma Wrapped(room: nat, free: nat, own: nat)
    requires room < WORD && free < WORD && own <= room
    ensures (room - free) % WORD == room - own <==> free == own
  {
    if free <= room {
      DivUnique(WORD, 0, room - free);
    } else {
      DivUnique(WORD, -1, room - free + WORD);
    }
  }

  /** So the report is right for the global heap, in every state of every run. */
  lemma GlobalReport(run: seq<State>, ops: seq<Op>, base: nat, size: nat, k: nat)
    requires 0 < HousekeepingSize(size) && size < WORD && IsRun(run, ops, base, size) && k < |run|
    requires forall i :: 0 <= i < k ==> Sane(ops[i])
    ensures NodesKnown(run[k]) && ReportedUsed(size, run[k]) == Total(run[k].nodes, run[k].used)
  {
    InitInv(base, size);
    Partition(run, ops, base, size, k);
    ReportExact(run[k], base, size, run[k], base, size);
  }

  /** And wrong for a second heap as soon as the two are created: nothing is in use, yet a heap of
      16 KiB next to a global heap of 32 KiB reports almost the whole address space. */
  lemma SecondHeapMisreported(base: nat, gbase: nat)
    ensures HousekeepingSize(0x4000) > 0 && HousekeepingSize(0x8000) > 0
    ensures var s, global := InitState(base, 0x4000), InitState(gbase, 0x8000);
      && NodesKnown(s) && NodesKnown(global)
      && Total(s.nodes, s.used) == 0 && ReportedUsed(0x4000, global) == WORD - 0x3c00
  {
    var s, global := InitState(base, 0x4000), InitState(gbase, 0x8000);
    InitInv(base, 0x4000);
    InitInv(gbase, 0x8000);
    InvKnown(s, base + 0x400, base + 0x4000);
    InvKnown(global, gbase + 0x800, gbase + 0x8000);
    assert Total(global.nodes, global.used) == 0;
  }
}
