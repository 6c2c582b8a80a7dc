/** The range check: it walks from one region boundary to the next and asks
    about a single address per stretch. */
module DomainRange {
  import opened PowersOfTwo
  import opened Wrappers
  import opened Domain
  import opened RangeWalk

  /** An address that lies in some region and passes the single-address check. */
  predicate Good(regs: seq<Region>, a: nat, mode: nat, access: bv64) {
    Find(regs, a) < |regs| && Allowed(regs, a, mode, access)
  }

  function GoodTest(regs: seq<Region>, mode: nat, access: bv64): nat -> bool {
    (a: nat) => Good(regs, a, mode, access)
  }

  /** Every address of `[lo, hi)` is good. */
  ghost predicate RangeOk(regs: seq<Region>, lo: nat, hi: nat, mode: nat, access: bv64) {
    All(GoodTest(regs, mode, access), lo, hi)
  }

  /** Where the walk goes from an address that region `i` decides, before the sum wraps. */
  function Reach(regs: seq<Region>, i: nat, addr: nat): nat
    requires i < |regs|
  {
    var s := NextSubset(regs, i, addr, |regs|);
    if s.Some? then regs[s.value].base else regs[i].base + Pow2(regs[i].order)
  }

  /** One turn of the loop, including the wrap-around of the address sum. */
  function Turn(regs: seq<Region>, addr: nat, max: nat, mode: nat, access: bv64): Verdict {
    if addr >= max then Accept
    else
      var i := Find(regs, addr);
      if i == |regs| || !Allowed(regs, addr, mode, access) then Reject
      else
        var s := NextSubset(regs, i, addr, |regs|);
        if s.Some? then At(regs[s.value].base)
        else if regs[i].order < XLEN then At((regs[i].base + Pow2(regs[i].order)) % ADDRESSES)
        else Accept
  }

  function Turns(regs: seq<Region>, max: nat, mode: nat, access: bv64): nat -> Verdict {
    (a: nat) => Turn(regs, a, max, mode, access)
  }

  /** The range ends in a region that reaches the top of the address space without being
      the whole of it, and no smaller region inside it starts at or after the range's end. */
  predicate TopWrap(regs: seq<Region>, max: nat) {
    && max > 0
    && var i := Find(regs, max - 1);
    && i < |regs|
    && regs[i].order < XLEN
    && regs[i].base + Pow2(regs[i].order) == ADDRESSES
    && NoneAfter(regs, i, max - 1)
  }

  predicate NoneAfter(regs: seq<Region>, i: nat, a: nat)
    requires i < |regs|
  {
    forall j :: 0 <= j < |regs| ==> !Candidate(regs, i, a, j)
  }

  ghost predicate WellFormed(regs: seq<Region>) {
    AllValid(regs) && Sorted(regs)
  }

  // ---------- one stretch ----------

  lemma ReachAhead(regs: seq<Region>, i: nat, addr: nat)
    requires AllValid(regs) && i < |regs| && addr < ADDRESSES && Contains(regs[i], addr)
    ensures addr < Reach(regs, i, addr) <= regs[i].base + Pow2(regs[i].order) <= ADDRESSES
    ensures NextSubset(regs, i, addr, |regs|).Some? ==> Reach(regs, i, addr) < ADDRESSES
  {
    ValidEnds(regs[i]);
    var s := NextSubset(regs, i, addr, |regs|);
    if s.Some? { ValidEnds(regs[s.value]); }
  }

  /** From `addr` up to the next boundary the same region decides. */
  lemma SameRegion(regs: seq<Region>, addr: nat, a: nat)
    requires WellFormed(regs) && Find(regs, addr) < |regs|
    requires addr <= a < ADDRESSES && a < Reach(regs, Find(regs, addr), addr)
    ensures Find(regs, a) == Find(regs, addr)
  {
    var i := Find(regs, addr);
    ReachAhead(regs, i, addr);
    ValidEnds(regs[i]);
    assert Contains(regs[i], a);
    forall j | 0 <= j < i ensures !Contains(regs[j], a) {
      if Contains(regs[j], a) {
        ValidEnds(regs[j]);
        Nested(regs[j], regs[i], a);
        assert Candidate(regs, i, addr, j);
      }
    }
  }

  lemma StretchOk(regs: seq<Region>, addr: nat, hi: nat, mode: nat, access: bv64)
    requires WellFormed(regs) && Good(regs, addr, mode, access)
    requires addr <= hi <= Reach(regs, Find(regs, addr), addr) && hi <= ADDRESSES
    ensures RangeOk(regs, addr, hi, mode, access)
  {
    forall a: nat | addr <= a < hi ensures Good(regs, a, mode, access) {
      SameRegion(regs, addr, a);
    }
  }

  /** Reaching the top of the address space in a region that is not the whole of it. */
  predicate ReachesTop(regs: seq<Region>, i: nat, addr: nat)
    requires i < |regs|
  {
    NextSubset(regs, i, addr, |regs|).None? && regs[i].order < XLEN && regs[i].base + Pow2(regs[i].order) == ADDRESSES
  }

  /** A stretch that covers the end of the range reaches the top exactly when the range ends in the
      sense of `TopWrap`. */
  lemma TopWrapAt(regs: seq<Region>, i: nat, addr: nat, last: nat)
    requires i < |regs| && Find(regs, last) == i && addr <= last < Reach(regs, i, addr)
    ensures TopWrap(regs, last + 1) <==> ReachesTop(regs, i, addr)
  {
    SameCandidates(regs, i, addr, last);
  }

  /** Between an address and its boundary no inner region starts. */
  lemma SameCandidates(regs: seq<Region>, i: nat, addr: nat, last: nat)
    requires i < |regs| && addr <= last < Reach(regs, i, addr)
    ensures NoneAfter(regs, i, last) <==> NextSubset(regs, i, addr, |regs|).None?
  {
    var s := NextSubset(regs, i, addr, |regs|);
    if s.Some? {
      assert Candidate(regs, i, last, s.value);
    } else {
      forall j | 0 <= j < |regs| ensures !Candidate(regs, i, last, j) {
        assert !Candidate(regs, i, addr, j);
      }
    }
  }

  lemma WholeSpace(r: Region)
    requires Valid(r) && r.order >= XLEN
    ensures r.base + Pow2(r.order) == ADDRESSES
  {
    Whole();
    ValidEnds(r);
  }

  /** What is known of a stretch once its regions have been looked at. */
  predicate Bounded(regs: seq<Region>, i: nat, addr: nat)
    requires i < |regs|
  {
    && addr < Reach(regs, i, addr) <= ADDRESSES
    && (NextSubset(regs, i, addr, |regs|).Some? ==> Reach(regs, i, addr) < ADDRESSES)
    && (regs[i].order >= XLEN ==> regs[i].base + Pow2(regs[i].order) == ADDRESSES)
  }

  lemma StretchBounded(regs: seq<Region>, i: nat, addr: nat)
    requires AllValid(regs) && i < |regs| && addr < ADDRESSES && Contains(regs[i], addr)
    ensures Bounded(regs, i, addr)
  {
    ReachAhead(regs, i, addr);
    if regs[i].order >= XLEN {
      WholeSpace(regs[i]);
    }
  }

  /** Where a turn from a good address goes. */
  lemma TurnLands(regs: seq<Region>, addr: nat, max: nat, mode: nat, access: bv64)
    requires addr < max < ADDRESSES && Good(regs, addr, mode, access) && Bounded(regs, Find(regs, addr), addr)
    ensures var i, v := Find(regs, addr), Turn(regs, addr, max, mode, access);
      if v.At? then v.addr == (if ReachesTop(regs, i, addr) then 0 else Reach(regs, i, addr))
      else v.Accept? && Reach(regs, i, addr) == ADDRESSES && !ReachesTop(regs, i, addr)
  {
  }

  lemma StretchAdvances(regs: seq<Region>, addr: nat, max: nat, mode: nat, access: bv64)
    requires addr < max < ADDRESSES && Good(regs, addr, mode, access)
    requires var i := Find(regs, addr);
      Bounded(regs, i, addr) && (max <= Reach(regs, i, addr) ==> TopWrap(regs, max) == ReachesTop(regs, i, addr))
    requires var reach := Reach(regs, Find(regs, addr), addr);
      RangeOk(regs, addr, if reach < max then reach else max, mode, access)
    ensures Advances(Turns(regs, max, mode, access), GoodTest(regs, mode, access), max, TopWrap(regs, max), addr)
  {
    TurnLands(regs, addr, max, mode, access);
    var i := Find(regs, addr);
    var turn, good := Turns(regs, max, mode, access), GoodTest(regs, mode, access);
    Lands(turn, good, max, TopWrap(regs, max), addr, Reach(regs, i, addr), ReachesTop(regs, i, addr));
  }

  /** What one turn achieves. */
  lemma TurnAdvances(regs: seq<Region>, addr: nat, max: nat, mode: nat, access: bv64)
    requires WellFormed(regs) && addr < max < ADDRESSES
    ensures Advances(Turns(regs, max, mode, access), GoodTest(regs, mode, access), max, TopWrap(regs, max), addr)
  {
    if Good(regs, addr, mode, access) {
      var i := Find(regs, addr);
      var reach := Reach(regs, i, addr);
      StretchBounded(regs, i, addr);
      StretchOk(regs, addr, if reach < max then reach else max, mode, access);
      if max <= reach {
        SameRegion(regs, addr, max - 1);
        TopWrapAt(regs, i, addr, max - 1);
      }
      StretchAdvances(regs, addr, max, mode, access);
    }
  }

  lemma TurnsSound(regs: seq<Region>, max: nat, mode: nat, access: bv64)
    requires WellFormed(regs) && max < ADDRESSES
    ensures Sound(Turns(regs, max, mode, access), GoodTest(regs, mode, access), max, TopWrap(regs, max))
  {
    var turn, good := Turns(regs, max, mode, access), GoodTest(regs, mode, access);
    forall a: nat | a < max ensures Advances(turn, good, max, TopWrap(regs, max), a) {
      TurnAdvances(regs, a, max, mode, access);
    }
  }

  // ---------- the whole walk ----------

  method OneTurn(regs: seq<Region>, addr: nat, max: nat, mode: nat, access: bv64) returns (v: Verdict)
    requires addr < max
    ensures v == Turn(regs, addr, max, mode, access)
  {
    var i := FindRegion(regs, addr);
    if i == |regs| {
      return Reject;
    }
    var allowed := CheckAddr(regs, addr, mode, access);
    if !allowed {
      return Reject;
    }
    var s := FindNextSubset(regs, i, addr);
    if s.Some? {
      return At(regs[s.value].base);
    } else if regs[i].order < XLEN {
      return At((regs[i].base + Pow2(regs[i].order)) % ADDRESSES);
    } else {
      return Accept;
    }
  }

  /** The end of the range as the machine computes it. */
  function End(start: nat, size: nat): nat {
    (start + size) % ADDRESSES
  }

  /** The one case in which the loop never ends: the range ends below a top region and all
      addresses from zero to its end are good. */
  ghost predicate Endless(regs: seq<Region>, start: nat, max: nat, mode: nat, access: bv64) {
    start < max && TopWrap(regs, max) && RangeOk(regs, 0, max, mode, access)
  }

  /** The method terminates in every other case. It says yes if and only if the machine range is
      empty, or every address passes and the range does not end below a top region. */
  method CheckAddrRange(regs: seq<Region>, start: nat, size: nat, mode: nat, access: bv64) returns (ok: bool)
    requires WellFormed(regs) && start < ADDRESSES
    requires !Endless(regs, start, End(start, size), mode, access)
    ensures ok <==> var max := End(start, size);
      max <= start || (RangeOk(regs, start, max, mode, access) && !TopWrap(regs, max))
  {
    var max := (start + size) % ADDRESSES;
    TurnsSound(regs, max, mode, access);
    ok := Loop(regs, start, max, mode, access,
               Turns(regs, max, mode, access), GoodTest(regs, mode, access), TopWrap(regs, max));
  }

  method Loop(regs: seq<Region>, start: nat, max: nat, mode: nat, access: bv64,
              ghost turn: nat -> Verdict, ghost good: nat -> bool, ghost wraps: bool) returns (ok: bool)
    requires Sound(turn, good, max, wraps) && !(start < max && wraps && All(good, 0, max))
    requires forall a: nat {:trigger Turn(regs, a, max, mode, access)} :: turn(a) == Turn(regs, a, max, mode, access)
    ensures ok <==> max <= start || (All(good, start, max) && !wraps)
  {
    var addr: nat := start;
    ghost var wrapped := false;
    while addr < max
      invariant Tracked(good, start, max, wraps, wrapped, addr)
      decreases !wrapped, max - addr
    {
      assert Advances(turn, good, max, wraps, addr);
      Tracks(turn, good, start, max, wraps, wrapped, addr);
      var v := OneTurn(regs, addr, max, mode, access);
      match v
      case Reject => return false;
      case Accept => break;
      case At(next) =>
        wrapped := wrapped || next == 0;
        addr := next;
    }
    ok := true;
  }

  /** Where the walk of a range that has wrapped starts over. */
  function From(regs: seq<Region>, start: nat, end: nat): nat {
    if TopWrap(regs, end) then 0 else start
  }

  /** The walk for every start and size, exactly. It answers "yes" if and only if the range is empty
      or its end wraps, or every address passes and the range does not end below a top region. It
      answers "no" if and only if some address fails, where a range that ends below a top region is
      walked from zero again. Otherwise it never answers. */
  lemma WalkExact(regs: seq<Region>, start: nat, size: nat, mode: nat, access: bv64)
    requires WellFormed(regs) && start < ADDRESSES && size < ADDRESSES
    ensures var end, turn := start + size, Turns(regs, End(start, size), mode, access);
      && ((exists turns :: Walk(turn, start, turns) == Accept)
          <==> size == 0 || end >= ADDRESSES || (RangeOk(regs, start, end, mode, access) && !TopWrap(regs, end)))
      && ((exists turns :: Walk(turn, start, turns) == Reject)
          <==> 0 < size && end < ADDRESSES && !RangeOk(regs, From(regs, start, end), end, mode, access))
  {
    var max := End(start, size);
    TurnsSound(regs, max, mode, access);
    var turn, good := Turns(regs, max, mode, access), GoodTest(regs, mode, access);
    ExactSum(turn, good, start, size, ADDRESSES, max, TopWrap(regs, max));
  }

  /** The top-region case in the concrete: one readable region covers the upper half of the
      address space, all 16 bytes from its base are readable, and the check says no. */
  lemma TopRegionRefused()
    ensures var r := Region(ADDRESSES / 2, XLEN - 1, 0x3f);
      && WellFormed([r])
      && RangeOk([r], r.base, r.base + 16, PRV_S, ACCESS_READ)
      && Walk(Turns([r], r.base + 16, PRV_S, ACCESS_READ), r.base, 2) == Reject
  {
    var r := Region(ADDRESSES / 2, XLEN - 1, 0x3f);
    Whole();
    assert Pow2(XLEN) == 2 * Pow2(XLEN - 1);
    assert Permits(r.flags, PRV_S, ACCESS_READ);
    assert Find([r], r.base) == 0 && Find([r], 0) == 1;
    assert NextSubset([r], 0, r.base, 1) == None;
    assert Turn([r], r.base, r.base + 16, PRV_S, ACCESS_READ) == At(0);
    assert Turn([r], 0, r.base + 16, PRV_S, ACCESS_READ) == Reject;
    StretchOk([r], r.base, r.base + 16, PRV_S, ACCESS_READ);
  }

  const LOWER := Region(0, XLEN - 1, 0x3f)
  const UPPER := Region(ADDRESSES / 2, XLEN - 1, 0x3f)

  lemma HalvesAnswer(a: nat)
    requires a < ADDRESSES
    ensures Find([LOWER, UPPER], a) == if a < ADDRESSES / 2 then 0 else 1
    ensures Good([LOWER, UPPER], a, PRV_S, ACCESS_READ)
  {
    Whole();
    assert Pow2(XLEN) == 2 * Pow2(XLEN - 1);
    assert Permits(LOWER.flags, PRV_S, ACCESS_READ);
    assert [LOWER, UPPER][1..] == [UPPER];
  }

  lemma HalvesEndless()
    ensures WellFormed([LOWER, UPPER])
    ensures Endless([LOWER, UPPER], UPPER.base, UPPER.base + 16, PRV_S, ACCESS_READ)
  {
    var regs, max := [LOWER, UPPER], UPPER.base + 16;
    Whole();
    assert Pow2(XLEN) == 2 * Pow2(XLEN - 1);
    HalvesAnswer(max - 1);
    assert TopWrap(regs, max);
    forall a: nat | 0 <= a < max ensures GoodTest(regs, PRV_S, ACCESS_READ)(a) {
      HalvesAnswer(a);
    }
  }

  /** The endless case in the concrete: two readable halves of the address space, 16 bytes from the
      middle on, and no number of turns brings an answer. */
  lemma HalvesNeverAnswered(turns: nat)
    ensures Walk(Turns([LOWER, UPPER], UPPER.base + 16, PRV_S, ACCESS_READ), UPPER.base, turns).At?
  {
    HalvesEndless();
    WalkExact([LOWER, UPPER], UPPER.base, 16, PRV_S, ACCESS_READ);
  }

  /** A range whose machine sum wraps is accepted unread, whatever the regions say. */
  lemma WrappedRangeAccepted(regs: seq<Region>, start: nat, size: nat, mode: nat, access: bv64)
    requires start < ADDRESSES && size < ADDRESSES <= start + size
    ensures Walk(Turns(regs, (start + size) % ADDRESSES, mode, access), start, 1) == Accept
  {
  }
}
