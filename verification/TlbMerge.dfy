/** Remote fence requests, the fences a hart runs for one, and the rule that
    folds a new request into one that is still queued. */
module TlbMerge {
  import opened Wrappers
  import opened Fifo

  const PAGE_SIZE: nat := 4096
  const ADDRESS_SPACE: nat := 0x1_0000_0000_0000_0000
  const PAGES: nat := ADDRESS_SPACE / PAGE_SIZE
  const FLUSH_ALL: nat := ADDRESS_SPACE - 1

  datatype Kind =
    | FenceI
    | SfenceVma
    | SfenceVmaAsid
    | HfenceGvmaVmid
    | HfenceGvma
    | HfenceVvmaAsid
    | HfenceVvma

  /** One request; `smask` names the harts that wait for it. */
  datatype TlbInfo = TlbInfo(start: nat, size: nat, asid: nat, vmid: nat, kind: Kind, smask: set<nat>)

  predicate UsesAsid(k: Kind) {
    k.SfenceVmaAsid? || k.HfenceVvmaAsid?
  }

  predicate UsesVmid(k: Kind) {
    k.HfenceGvmaVmid? || k.HfenceVvmaAsid? || k.HfenceVvma?
  }

  /** Only the two supervisor kinds are ever folded together. */
  predicate Mergeable(k: Kind) {
    k.SfenceVma? || k.SfenceVmaAsid?
  }

  /** The spelling "start 0, size 0" of a whole-address-space flush. */
  predicate ZeroAll(e: TlbInfo) {
    e.start == 0 && e.size == 0
  }

  predicate FlushesAll(e: TlbInfo) {
    ZeroAll(e) || e.size == FLUSH_ALL
  }

  // ---------- fences ----------

  /** One executed fence instruction; no address means the whole address space. */
  datatype Fence = Fence(kind: Kind, asid: nat, vmid: nat, addr: Option<nat>)

  function PageCount(size: nat): nat {
    (size + PAGE_SIZE - 1) / PAGE_SIZE
  }

  /** The fences one entry stands for, in the order they run. */
  function LocalFences(e: TlbInfo): seq<Fence> {
    if e.kind.FenceI? || FlushesAll(e) then
      [Fence(e.kind, e.asid, e.vmid, None)]
    else
      seq(PageCount(e.size), i requires 0 <= i => Fence(e.kind, e.asid, e.vmid, Some(e.start + i * PAGE_SIZE)))
  }

  /** The flush loops: step through the range one page at a time. */
  method LocalProcess(e: TlbInfo) returns (fences: seq<Fence>)
    ensures fences == LocalFences(e)
  {
    if e.kind.FenceI? || FlushesAll(e) {
      return [Fence(e.kind, e.asid, e.vmid, None)];
    }
    fences := [];
    var i := 0;
    while i < e.size
      invariant i == |fences| * PAGE_SIZE
      invariant |fences| <= PageCount(e.size)
      invariant forall k :: 0 <= k < |fences| ==> fences[k] == LocalFences(e)[k]
      decreases e.size + PAGE_SIZE - i
    {
      fences := fences + [Fence(e.kind, e.asid, e.vmid, Some(e.start + i))];
      i := i + PAGE_SIZE;
    }
  }

  // ---------- what a request asks for ----------

  /** Page `p` holds an address the request names. */
  predicate RequestedPage(req: TlbInfo, p: nat) {
    && p < PAGES
    && (|| req.kind.FenceI?
        || FlushesAll(req)
        || (req.size > 0 && req.start / PAGE_SIZE <= p <= (req.start + req.size - 1) / PAGE_SIZE))
  }

  /** `f` is of the kind, and in the address space, that the request names. */
  predicate Matches(f: Fence, req: TlbInfo) {
    && f.kind == req.kind
    && (UsesAsid(req.kind) ==> f.asid == req.asid)
    && (UsesVmid(req.kind) ==> f.vmid == req.vmid)
  }

  predicate Hits(f: Fence, p: nat) {
    f.addr.None? || f.addr.value / PAGE_SIZE == p
  }

  ghost predicate FencedPage(log: seq<Fence>, req: TlbInfo, p: nat) {
    exists i :: 0 <= i < |log| && Matches(log[i], req) && Hits(log[i], p)
  }

  /** Every requested page has been fenced as requested. */
  ghost predicate FencedFor(log: seq<Fence>, req: TlbInfo) {
    forall p: nat | RequestedPage(req, p) :: FencedPage(log, req, p)
  }

  /** Processing `e` does everything `req` asks for. */
  ghost predicate Covers(e: TlbInfo, req: TlbInfo) {
    FencedFor(LocalFences(e), req)
  }

  lemma FencedForExtends(log: seq<Fence>, before: seq<Fence>, after: seq<Fence>, req: TlbInfo)
    requires FencedFor(log, req)
    ensures FencedFor(before + log + after, req)
  {
    forall p: nat | RequestedPage(req, p) ensures FencedPage(before + log + after, req, p) {
      assert FencedPage(log, req, p);
      var i :| 0 <= i < |log| && Matches(log[i], req) && Hits(log[i], p);
      assert (before + log + after)[|before| + i] == log[i];
    }
  }

  // ---------- preparing a request ----------

  /** Stepping by pages from the start gets as far as the page of the last byte. */
  predicate LastPageReached(e: TlbInfo) {
    e.size > 0 ==> (e.start % PAGE_SIZE + e.size - 1) / PAGE_SIZE < PageCount(e.size)
  }

  predicate NoWrap(e: TlbInfo) {
    e.start + e.size < ADDRESS_SPACE
  }

  /** What a caller must hand over for the fences to be those it means: ranges whose last page is
      reached, no wrap-around, and the supervisor kinds not spelled "0, 0". */
  predicate ValidInfo(e: TlbInfo) {
    || e.kind.FenceI?
    || (ZeroAll(e) && !Mergeable(e.kind))
    || (LastPageReached(e) && NoWrap(e) && !ZeroAll(e))
  }

  /** Ranges above the platform limit become a flush of everything. */
  function Prepare(limit: nat, orig: TlbInfo): TlbInfo {
    if orig.size > limit then orig.(start := 0, size := FLUSH_ALL) else orig
  }

  lemma OwnFences(e: TlbInfo, p: nat)
    requires ValidInfo(e) && RequestedPage(e, p)
    ensures FencedPage(LocalFences(e), e, p)
  {
    var fs := LocalFences(e);
    if e.kind.FenceI? || FlushesAll(e) {
      assert Matches(fs[0], e) && Hits(fs[0], p);
    } else {
      var i := p - e.start / PAGE_SIZE;
      assert i * PAGE_SIZE < e.size;
      assert Matches(fs[i], e) && Hits(fs[i], p);
    }
  }

  /** Fencing a range by pages from its start reaches all its pages if and only if it reaches the
      last one. */
  lemma OwnFencesExact(e: TlbInfo)
    requires !e.kind.FenceI? && !FlushesAll(e) && NoWrap(e)
    ensures Covers(e, e) <==> LastPageReached(e)
  {
    if LastPageReached(e) {
      forall p: nat | RequestedPage(e, p) ensures FencedPage(LocalFences(e), e, p) {
        OwnFences(e, p);
      }
    } else {
      var p := (e.start + e.size - 1) / PAGE_SIZE;
      assert RequestedPage(e, p);
      var fs := LocalFences(e);
      forall i | 0 <= i < |fs| ensures !Hits(fs[i], p) {
        assert fs[i].addr.value / PAGE_SIZE == e.start / PAGE_SIZE + i;
      }
      assert !FencedPage(fs, e, p);
    }
  }

  /** Two bytes across a page boundary: the second page is asked for and never fenced. */
  lemma OffPageMissed(kind: Kind)
    requires !kind.FenceI?
    ensures var e := TlbInfo(PAGE_SIZE - 1, 2, 0, 0, kind, {});
      RequestedPage(e, 1) && !FencedPage(LocalFences(e), e, 1)
  {
    var e := TlbInfo(PAGE_SIZE - 1, 2, 0, 0, kind, {});
    assert PageCount(2) == 1;
    assert LocalFences(e)[0].addr == Some(PAGE_SIZE - 1);
  }

  lemma PrepareCovers(limit: nat, orig: TlbInfo)
    requires ValidInfo(Prepare(limit, orig))
    ensures Covers(Prepare(limit, orig), orig)
  {
    var e := Prepare(limit, orig);
    forall p: nat | RequestedPage(orig, p) ensures FencedPage(LocalFences(e), orig, p) {
      if e == orig {
        OwnFences(e, p);
      } else {
        var f := LocalFences(e)[0];
        assert Matches(f, orig) && Hits(f, p);
      }
    }
  }

  // ---------- merging ----------

  function WrapAdd(a: nat, b: nat): nat {
    (a + b) % ADDRESS_SPACE
  }

  function RangeCheck(curr: TlbInfo, next: TlbInfo): (TlbInfo, Update) {
    var nextEnd := WrapAdd(next.start, next.size);
    var currEnd := WrapAdd(curr.start, curr.size);
    if next.start <= curr.start && nextEnd > currEnd then
      (curr.(start := next.start, size := next.size, smask := curr.smask + next.smask), Updated)
    else if next.start >= curr.start && nextEnd <= currEnd then
      (curr.(smask := curr.smask + next.smask), Skip)
    else
      (curr, Unchanged)
  }

  /** The callback handed to the queue's in-place update. */
  function UpdateCb(next: TlbInfo, curr: TlbInfo): (TlbInfo, Update) {
    if next.kind.SfenceVmaAsid? && curr.kind.SfenceVmaAsid? then
      if next.asid == curr.asid then RangeCheck(curr, next) else (curr, Unchanged)
    else if next.kind.SfenceVma? && curr.kind.SfenceVma? then
      RangeCheck(curr, next)
    else
      (curr, Unchanged)
  }

  /** `outer` fences whatever `inner` fences. */
  predicate Includes(outer: TlbInfo, inner: TlbInfo) {
    && outer.kind == inner.kind
    && (UsesAsid(outer.kind) ==> outer.asid == inner.asid)
    && (FlushesAll(outer)
        || (!FlushesAll(inner) && outer.start <= inner.start && inner.start + inner.size <= outer.start + outer.size))
  }

  /** Inclusion carries every request the inner entry satisfies over to the outer one. */
  lemma IncludesCovers(outer: TlbInfo, inner: TlbInfo, req: TlbInfo)
    requires Mergeable(outer.kind) && LastPageReached(outer) && Includes(outer, inner) && Covers(inner, req)
    ensures Covers(outer, req)
  {
    var fs, gs := LocalFences(inner), LocalFences(outer);
    forall p: nat | RequestedPage(req, p) ensures FencedPage(gs, req, p) {
      assert FencedPage(fs, req, p);
      var i :| 0 <= i < |fs| && Matches(fs[i], req) && Hits(fs[i], p);
      if FlushesAll(outer) {
        assert Matches(gs[0], req) && Hits(gs[0], p);
      } else {
        assert i * PAGE_SIZE < inner.size;
        var j := p - outer.start / PAGE_SIZE;
        assert outer.start <= inner.start + i * PAGE_SIZE <= outer.start + outer.size - 1;
        assert j <= (outer.start % PAGE_SIZE + outer.size - 1) / PAGE_SIZE;
        assert Matches(gs[j], req) && Hits(gs[j], p);
      }
    }
  }

  lemma MergedIncludes(curr: TlbInfo, next: TlbInfo)
    requires ValidInfo(curr) && ValidInfo(next) && UpdateCb(next, curr).1 != Unchanged
    ensures var e := UpdateCb(next, curr).0;
      && ValidInfo(e) && e.smask == curr.smask + next.smask && Mergeable(e.kind) && LastPageReached(e)
      && Includes(e, curr) && Includes(e, next)
  {
  }

  /** Folding two valid requests loses neither: the surviving entry keeps its kind, names
      every waiting hart and still fences all that either one asked for. */
  lemma MergeCovers(curr: TlbInfo, next: TlbInfo, req: TlbInfo)
    requires ValidInfo(curr) && ValidInfo(next)
    requires UpdateCb(next, curr).1 != Unchanged
    ensures var e := UpdateCb(next, curr).0;
      && ValidInfo(e) && e.smask == curr.smask + next.smask
      && (Covers(curr, req) || Covers(next, req) ==> Covers(e, req))
  {
    var e := UpdateCb(next, curr).0;
    MergedIncludes(curr, next);
    if Covers(curr, req) { IncludesCovers(e, curr, req); }
    if Covers(next, req) { IncludesCovers(e, next, req); }
  }

  /** `e` satisfies every request that `prior` does. */
  ghost predicate Subsumes(e: TlbInfo, prior: TlbInfo) {
    forall req :: Covers(prior, req) ==> Covers(e, req)
  }

  lemma MergeSubsumes(curr: TlbInfo, next: TlbInfo)
    requires ValidInfo(curr) && ValidInfo(next)
    requires UpdateCb(next, curr).1 != Unchanged
    ensures var e := UpdateCb(next, curr).0;
      ValidInfo(e) && e.smask == curr.smask + next.smask && Subsumes(e, curr) && Subsumes(e, next)
  {
    var e := UpdateCb(next, curr).0;
    MergeCovers(curr, next, next);
    forall req ensures Covers(curr, req) || Covers(next, req) ==> Covers(e, req) {
      MergeCovers(curr, next, req);
    }
  }

  /** Two requests the merge rule may be asked to fold, "0, 0" spellings included. */
  predicate Foldable(curr: TlbInfo, next: TlbInfo) {
    && LastPageReached(curr) && NoWrap(curr) && LastPageReached(next) && NoWrap(next)
    && UpdateCb(next, curr).1 != Unchanged
  }

  /** A page outside a range that starts at 0 and leaves the last page out. */
  lemma LastPageMissed(e: TlbInfo, req: TlbInfo)
    requires e.start == 0 && 0 < e.size <= ADDRESS_SPACE - PAGE_SIZE
    requires Mergeable(e.kind) && FlushesAll(req)
    ensures !Covers(e, req)
  {
    var p := PAGES - 1;
    assert RequestedPage(req, p);
    var fs := LocalFences(e);
    forall i | 0 <= i < |fs| ensures !Hits(fs[i], p) {
      assert i * PAGE_SIZE < e.size;
    }
    assert !FencedPage(fs, req, p);
  }

  lemma ZeroAllCovers(e: TlbInfo, req: TlbInfo)
    requires Mergeable(e.kind) && e.kind == req.kind && (UsesAsid(e.kind) ==> e.asid == req.asid)
    requires e.start == 0 && (e.size == 0 || e.size > ADDRESS_SPACE - PAGE_SIZE)
    ensures Covers(e, req)
  {
    var fs := LocalFences(e);
    forall p: nat | RequestedPage(req, p) ensures FencedPage(fs, req, p) {
      if FlushesAll(e) {
        assert Matches(fs[0], req) && Hits(fs[0], p);
      } else {
        assert p * PAGE_SIZE < e.size;
        assert Matches(fs[p], req) && Hits(fs[p], p);
      }
    }
  }

  /** Exactly when a fold loses nothing: either both or neither request is spelled "0, 0",
      or the other one reaches into the last page anyway. */
  lemma MergeExact(curr: TlbInfo, next: TlbInfo)
    requires Foldable(curr, next)
    ensures var e := UpdateCb(next, curr).0;
      (Covers(e, curr) && Covers(e, next)) <==>
      || (ZeroAll(curr) <==> ZeroAll(next))
      || curr.size > ADDRESS_SPACE - PAGE_SIZE
      || next.size > ADDRESS_SPACE - PAGE_SIZE
  {
    var e := UpdateCb(next, curr).0;
    if !ZeroAll(curr) && !ZeroAll(next) {
      forall p: nat | RequestedPage(curr, p) { OwnFences(curr, p); }
      forall p: nat | RequestedPage(next, p) { OwnFences(next, p); }
      MergeCovers(curr, next, curr);
      MergeCovers(curr, next, next);
    } else {
      assert curr.start == next.start == e.start == 0;
      if e.size == 0 || e.size > ADDRESS_SPACE - PAGE_SIZE {
        ZeroAllCovers(e, curr);
        ZeroAllCovers(e, next);
      } else if ZeroAll(curr) {
        LastPageMissed(e, curr);
      } else {
        LastPageMissed(e, next);
      }
    }
  }

  /** The failing case in the concrete: a queued one-page flush at address 0 swallows a
      request to flush everything, and page 1 is never fenced for it. */
  lemma ZeroAllSwallowed()
    ensures var curr := TlbInfo(0, PAGE_SIZE, 0, 0, SfenceVma, {1});
      var next := TlbInfo(0, 0, 0, 0, SfenceVma, {2});
      && UpdateCb(next, curr) == (curr.(smask := {1, 2}), Skip)
      && RequestedPage(next, 1)
      && !FencedPage(LocalFences(UpdateCb(next, curr).0), next, 1)
  {
    var curr := TlbInfo(0, PAGE_SIZE, 0, 0, SfenceVma, {1});
    var next := TlbInfo(0, 0, 0, 0, SfenceVma, {2});
    var e := UpdateCb(next, curr).0;
    assert curr.smask + next.smask == {1, 2};
    assert PageCount(e.size) == 1;
    assert |LocalFences(e)| == 1 && LocalFences(e)[0] == Fence(SfenceVma, 0, 0, Some(0));
  }

  // ---------- what is folded, and what is upgraded ----------

  /** Requests of one kind, and of one address space where the kind names one, can share an entry. */
  predicate Alike(a: TlbInfo, b: TlbInfo) {
    a.kind == b.kind && (a.kind.SfenceVma? || (a.kind.SfenceVmaAsid? && a.asid == b.asid))
  }

  predicate Within(inner: TlbInfo, outer: TlbInfo) {
    outer.start <= inner.start && inner.start + inner.size <= outer.start + outer.size
  }

  /** Exactly what folding does: a request inside the queued one is skipped, one around it takes its
      place, unless both end together and the new one starts lower; all others are left alone. */
  lemma FoldsExactly(curr: TlbInfo, next: TlbInfo)
    requires NoWrap(curr) && NoWrap(next)
    ensures var (e, u) := UpdateCb(next, curr);
      && (u == Skip <==> Alike(curr, next) && Within(next, curr))
      && (u == Updated <==>
            Alike(curr, next) && Within(curr, next) && next.start + next.size != curr.start + curr.size)
      && (u == Unchanged ==> e == curr)
      && (u == Skip ==> e == curr.(smask := e.smask))
      && (u == Updated ==> e == curr.(start := next.start, size := next.size, smask := e.smask))
  {
  }

  /** The case left out in the concrete: the last page is queued, the last two are asked for. */
  lemma WiderNotFolded()
    ensures var curr := TlbInfo(PAGE_SIZE, PAGE_SIZE, 0, 0, SfenceVma, {1});
      var next := TlbInfo(0, 2 * PAGE_SIZE, 0, 0, SfenceVma, {2});
      Within(curr, next) && UpdateCb(next, curr) == (curr, Unchanged)
  {
    var curr := TlbInfo(PAGE_SIZE, PAGE_SIZE, 0, 0, SfenceVma, {1});
    var next := TlbInfo(0, 2 * PAGE_SIZE, 0, 0, SfenceVma, {2});
    FoldsExactly(curr, next);
  }

  /** What the limit is for: a request within it is sent as it is, and none costs more fences than a
      range of the limit's length. */
  lemma LimitBounds(limit: nat, orig: TlbInfo)
    ensures orig.size <= limit ==> Prepare(limit, orig) == orig
    ensures |LocalFences(Prepare(limit, orig))| <= limit / PAGE_SIZE + 1
  {
    var e := Prepare(limit, orig);
    if !(e.kind.FenceI? || FlushesAll(e)) {
      assert e == orig;
      PagesMonotone(e.size, limit);
    }
  }

  lemma PagesMonotone(size: nat, limit: nat)
    requires size <= limit
    ensures PageCount(size) <= limit / PAGE_SIZE + 1
  {
  }
}
