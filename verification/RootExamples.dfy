/** Sequences of added regions after which an address is answered otherwise than promised. */
module RootExamples {
  import opened PowersOfTwo
  import opened Wrappers
  import opened Domain
  import opened DomainMerge
  import opened RegionSort
  import opened RegionMerge
  import opened RegionSettle
  import opened RootTable
  import opened RootDomain

  const RWX: bv64 := 0x3f
  const SU_ONLY: bv64 := 0x38
  const BOOT := Boot(Some({}), {}, true, PRV_S, 16)

  /** A table that sorts into one that boots and has nothing to merge. */
  lemma SettlesAs(t: seq<Region>, u: seq<Region>)
    requires AllValid(t) && ExchangeSort(t) == u && Boots(u, BOOT)
    requires forall k :: 0 <= k < |u| ==> !MergeableAt(u, k)
    ensures Settle(t, BOOT) == Outcome(Ok, u)
  {
    NothingToMerge(u, 0);
  }

  /** A table that sorts into one whose first pass merges something. */
  lemma MergesInto(t: seq<Region>, u: seq<Region>, m: seq<Region>)
    requires AllValid(t) && ExchangeSort(t) == u && Boots(u, BOOT) && Pass(u, 0) == m && |m| < |u|
    ensures Settle(t, BOOT) == Settle(m, BOOT)
  {
  }

  /** What the flags grant. */
  lemma Grants()
    ensures Permits(RWX, PRV_S, ACCESS_EXECUTE) && Permits(SU_ONLY, PRV_S, ACCESS_EXECUTE)
    ensures Permits(RWX, PRV_M, ACCESS_READ) && !Permits(SU_ONLY, PRV_M, ACCESS_READ)
  {
  }

  lemma FirstOf(regs: seq<Region>, i: nat, a: nat)
    requires i < |regs| && Contains(regs[i], a) && forall k :: 0 <= k < i ==> !Contains(regs[k], a)
    ensures Find(regs, a) == i
  {
  }

  lemma BootsAt(regs: seq<Region>, i: nat)
    requires i < |regs| && Contains(regs[i], 16) && forall k :: 0 <= k < i ==> !Contains(regs[k], 16)
    requires regs[i].flags == RWX || regs[i].flags == SU_ONLY
    ensures Boots(regs, BOOT)
    ensures Allowed(regs, 16, PRV_M, ACCESS_READ) <==> regs[i].flags == RWX
  {
    FirstOf(regs, i, 16);
    Grants();
  }

  method AddKnown(root: Root, reg: Region, ghost t: seq<Region>, ghost u: seq<Region>)
    requires root.Ready() && root.Snapshot() == Table(t, 0) && |t| < ROOT_REGION_MAX && !Covered(t, reg)
    requires reg.order > 0 && root.boot == BOOT && Settle(t + [reg], BOOT) == Outcome(Ok, u)
    modifies root`count, root`shown, root.regions
    ensures root.Ready() && root.Snapshot() == Table(u, 0)
  {
    var code := root.Add(reg);
  }

  // ---------- a sort that changes an answer elsewhere ----------

  const P := Region(16, 4, RWX)
  const Q := Region(16, 4, SU_ONLY)
  const NEW := Region(0, 3, RWX)

  lemma SortPlaces()
    ensures Valid(P) && Valid(Q) && Valid(NEW) && Contains(P, 16) && Contains(Q, 16) && !Contains(NEW, 16)
    ensures IsBefore(NEW, P) && !IsBefore(P, Q) && !IsBefore(Q, P) && !IsSubset(NEW, P)
    ensures !Siblings(P, Q) && !Siblings(NEW, Q) && !Siblings(Q, P)
  {
    assert Pow2(3) == 8 && Pow2(4) == 16 && Pow2(5) == 32;
  }

  lemma SortSteps()
    ensures ExchangeSort([P]) == [P] && ExchangeSort([P, Q]) == [P, Q] && ExchangeSort([P, Q, NEW]) == [NEW, Q, P]
  {
    SortPlaces();
    SortCarries([], P);
    SortCarries([P], Q);
    SortCarries([P, Q], NEW);
    assert [] + [P] == [P] && [P] + [Q] == [P, Q] && [P, Q] + [NEW] == [P, Q, NEW];
    assert [P][1..] == [] && [Q][1..] == [] && [P, Q][1..] == [Q];
    assert Carry([], P) == [P] && Carry([], Q) == [Q];
    assert Carry([P], Q) == [P] + Carry([], Q);
    assert Carry([Q], P) == [Q] + Carry([], P);
    assert Carry([P, Q], NEW) == [NEW] + Carry([Q], P);
  }

  lemma SortSettles()
    ensures Settle([P], BOOT) == Outcome(Ok, [P])
    ensures Settle([P, Q], BOOT) == Outcome(Ok, [P, Q])
    ensures Settle([P, Q, NEW], BOOT) == Outcome(Ok, [NEW, Q, P])
    ensures Allowed([P, Q], 16, PRV_M, ACCESS_READ) && !Allowed([NEW, Q, P], 16, PRV_M, ACCESS_READ)
  {
    SortPlaces();
    SortSteps();
    BootsAt([P], 0);
    BootsAt([P, Q], 0);
    BootsAt([NEW, Q, P], 1);
    SettlesAs([P], [P]);
    SettlesAs([P, Q], [P, Q]);
    SettlesAs([P, Q, NEW], [NEW, Q, P]);
  }

  /** Two regions of one place with different flags, then a smaller region elsewhere: the last call
      to add changes the answer for the place of the first two. */
  method AddElsewhereChangesAnswer() returns (before: bool, after: bool)
    ensures before && !after
  {
    SortPlaces();
    SortSettles();
    assert [] + [P] == [P] && [P] + [Q] == [P, Q] && [P, Q] + [NEW] == [P, Q, NEW];
    var root := new Root(BOOT);
    AddKnown(root, P, [], [P]);
    AddKnown(root, Q, [P], [P, Q]);
    before := root.Check(16, PRV_M, ACCESS_READ);
    AddKnown(root, NEW, [P, Q], [NEW, Q, P]);
    after := root.Check(16, PRV_M, ACCESS_READ);
  }

  // ---------- merges that change an answer elsewhere ----------

  const LOW := Region(16, 3, RWX)
  const HIGH := Region(24, 3, RWX)
  const LEFT := Region(0, 4, RWX)
  const BOTH := Region(0, 5, RWX)

  lemma MergePlaces()
    ensures Valid(LOW) && Valid(HIGH) && Valid(LEFT) && Valid(P) && Valid(Q)
    ensures Contains(LOW, 16) && Contains(P, 16) && Contains(Q, 16) && !Contains(LEFT, 16) && !Contains(HIGH, 16)
    ensures Parent(LOW) == P && Parent(LEFT) == BOTH && Valid(BOTH)
    ensures Siblings(LOW, HIGH) && Siblings(LEFT, P)
    ensures !Siblings(LOW, LEFT) && !Siblings(HIGH, LEFT) && !Siblings(LEFT, Q)
    ensures !Siblings(Q, BOTH) && !Siblings(P, LEFT)
    ensures !IsSubset(LEFT, LOW) && !IsSubset(HIGH, LOW) && !IsSubset(HIGH, LEFT) && LOW.flags != Q.flags
  {
    assert Pow2(3) == 8 && Pow2(4) == 16 && Pow2(5) == 32;
  }

  lemma MergeSorts()
    ensures ExchangeSort([LOW]) == [LOW] && ExchangeSort([LOW, LEFT]) == [LOW, LEFT]
    ensures ExchangeSort([LOW, LEFT, Q]) == [LOW, LEFT, Q]
    ensures ExchangeSort([LOW, LEFT, Q, HIGH]) == [LOW, HIGH, LEFT, Q]
  {
    OuterOnSorted([LOW], 0);
    OuterOnSorted([LOW, LEFT], 0);
    OuterOnSorted([LOW, LEFT, Q], 0);
    SortCarries([LOW, LEFT, Q], HIGH);
    assert [LOW, LEFT, Q] + [HIGH] == [LOW, LEFT, Q, HIGH];
    assert [LOW, LEFT, Q][1..] == [LEFT, Q] && [LEFT, Q][1..] == [Q] && [Q][1..] == [];
    assert Carry([Q], LEFT) == [LEFT] + Carry([], Q);
    assert Carry([LEFT, Q], HIGH) == [HIGH] + Carry([Q], LEFT);
    assert Carry([LOW, LEFT, Q], HIGH) == [LOW] + Carry([LEFT, Q], HIGH);
  }

  lemma SecondSorts()
    ensures ExchangeSort([P, LEFT, Q]) == [LEFT, P, Q] && ExchangeSort([BOTH, Q]) == [Q, BOTH]
  {
    OuterInserts([], P, [LEFT, Q]);
    assert [] + [P] + [LEFT, Q] == [P, LEFT, Q] && [LEFT, Q][1..] == [Q];
    assert Insert(P, [Q]) == [P, Q];
    OuterInserts([], BOTH, [Q]);
    assert [] + [BOTH] + [Q] == [BOTH, Q] && [Q][1..] == [];
    assert Insert(BOTH, []) == [BOTH];
  }

  lemma MergePasses()
    ensures Pass([LOW, HIGH, LEFT, Q], 0) == [P, LEFT, Q] && Pass([LEFT, P, Q], 0) == [BOTH, Q]
  {
    MergePlaces();
    assert MergeAt([LOW, HIGH, LEFT, Q], 0) == [P, LEFT, Q];
    NothingToMerge([P, LEFT, Q], 1);
    assert MergeAt([LEFT, P, Q], 0) == [BOTH, Q];
    NothingToMerge([BOTH, Q], 1);
  }

  lemma LastSettles()
    ensures Settle([LOW, LEFT, Q, HIGH], BOOT) == Outcome(Ok, [Q, BOTH])
    ensures !Allowed([Q, BOTH], 16, PRV_M, ACCESS_READ)
  {
    MergePlaces();
    MergeSorts();
    SecondSorts();
    MergePasses();
    BootsAt([LOW, HIGH, LEFT, Q], 0);
    MergesInto([LOW, LEFT, Q, HIGH], [LOW, HIGH, LEFT, Q], [P, LEFT, Q]);
    BootsAt([LEFT, P, Q], 1);
    MergesInto([P, LEFT, Q], [LEFT, P, Q], [BOTH, Q]);
    BootsAt([Q, BOTH], 0);
    SettlesAs([BOTH, Q], [Q, BOTH]);
  }

  lemma FirstSettle()
    ensures Settle([LOW], BOOT) == Outcome(Ok, [LOW])
    ensures Settle([LOW, LEFT], BOOT) == Outcome(Ok, [LOW, LEFT])
    ensures Settle([LOW, LEFT, Q], BOOT) == Outcome(Ok, [LOW, LEFT, Q])
    ensures Allowed([LOW, LEFT, Q], 16, PRV_M, ACCESS_READ)
  {
    MergePlaces();
    MergeSorts();
    BootsAt([LOW], 0);
    BootsAt([LOW, LEFT], 0);
    BootsAt([LOW, LEFT, Q], 0);
    SettlesAs([LOW], [LOW]);
    SettlesAs([LOW, LEFT], [LOW, LEFT]);
    SettlesAs([LOW, LEFT, Q], [LOW, LEFT, Q]);
  }

  lemma MergeUncovered()
    ensures !Covered([], LOW) && !Covered([LOW], LEFT) && !Covered([LOW, LEFT], Q) && !Covered([LOW, LEFT, Q], HIGH)
    ensures !Contains(HIGH, 16)
  {
    MergePlaces();
  }

  method AddFirst() returns (root: Root)
    ensures fresh(root) && fresh(root.regions) && root.Ready()
    ensures root.Snapshot() == Table([LOW, LEFT, Q], 0) && root.boot == BOOT
  {
    MergeUncovered();
    FirstSettle();
    assert [] + [LOW] == [LOW] && [LOW] + [LEFT] == [LOW, LEFT] && [LOW, LEFT] + [Q] == [LOW, LEFT, Q];
    root := new Root(BOOT);
    AddKnown(root, LOW, [], [LOW]);
    AddKnown(root, LEFT, [LOW], [LOW, LEFT]);
    AddKnown(root, Q, [LOW, LEFT], [LOW, LEFT, Q]);
  }

  /** No sort of these overtakes, but the last call merges twice: the region that decided becomes part
      of ever larger ones until it stands behind the one with other flags. */
  method MergingChangesAnswer() returns (before: bool, after: bool)
    ensures before && !after && !Contains(HIGH, 16)
  {
    MergeUncovered();
    FirstSettle();
    LastSettles();
    assert [LOW, LEFT, Q] + [HIGH] == [LOW, LEFT, Q, HIGH];
    var root := AddFirst();
    before := root.Check(16, PRV_M, ACCESS_READ);
    AddKnown(root, HIGH, [LOW, LEFT, Q], [Q, BOTH]);
    after := root.Check(16, PRV_M, ACCESS_READ);
  }

  lemma ExposingSorts()
    ensures ExchangeSort([P, P, Q] + [LEFT]) == [LEFT, P, Q, P] && ExchangeSort([BOTH, Q, P]) == [Q, P, BOTH]
  {
    SortCarries([P, P, Q], LEFT);
    assert [P, P, Q][1..] == [P, Q] && [P, Q][1..] == [Q] && [Q][1..] == [];
    assert Carry([Q], P) == [Q] + Carry([], P);
    assert Carry([P, Q], P) == [P] + Carry([Q], P);
    assert Carry([P, P, Q], LEFT) == [LEFT] + Carry([P, Q], P);
    OuterInserts([], BOTH, [Q, P]);
    assert [] + [BOTH] + [Q, P] == [BOTH, Q, P] && [Q, P][1..] == [P] && [P][1..] == [];
    assert Insert(BOTH, [P]) == [P] + Insert(BOTH, []);
  }

  /** One merge is enough: the sort keeps the flags of address 24, the merge exposes the region behind. */
  lemma MergeExposes()
    ensures var t := [P, P, Q];
      && Sorted(t) && !Contains(LEFT, 24) && !Overtaken(t, LEFT, 24)
      && Settle(t + [LEFT], BOOT) == Outcome(Ok, [Q, P, BOTH])
      && FlagsAt(t, 24) == Some(RWX) && FlagsAt([Q, P, BOTH], 24) == Some(SU_ONLY)
  {
    MergePlaces();
    ExposingSorts();
    assert Pow2(4) == 16 && Pow2(5) == 32;
    assert MergeAt([LEFT, P, Q, P], 0) == [BOTH, Q, P];
    NothingToMerge([BOTH, Q, P], 1);
    BootsAt([LEFT, P, Q, P], 1);
    MergesInto([P, P, Q] + [LEFT], [LEFT, P, Q, P], [BOTH, Q, P]);
    BootsAt([Q, P, BOTH], 0);
    SettlesAs([BOTH, Q, P], [Q, P, BOTH]);
    FirstOf([P, P, Q], 0, 24);
    FirstOf([Q, P, BOTH], 0, 24);
  }

  // ---------- a region that is left out ----------

  const BIG := Region(0, 6, RWX)
  const MID := Region(0, 5, SU_ONLY)

  lemma SkipPlaces()
    ensures Valid(BIG) && Valid(MID) && Valid(P)
    ensures Contains(BIG, 16) && Contains(MID, 16) && Contains(P, 16)
    ensures IsSubset(P, BIG) && P.flags == BIG.flags && BIG.flags != MID.flags && !Siblings(MID, BIG)
  {
    assert Pow2(4) == 16 && Pow2(5) == 32 && Pow2(6) == 64;
  }

  lemma SkipSorts()
    ensures ExchangeSort([BIG]) == [BIG] && ExchangeSort([BIG, MID]) == [MID, BIG]
    ensures ExchangeSort([MID, BIG, P]) == [P, MID, BIG]
  {
    OuterOnSorted([BIG], 0);
    SortCarries([BIG], MID);
    SortCarries([MID, BIG], P);
    assert [BIG] + [MID] == [BIG, MID] && [MID, BIG] + [P] == [MID, BIG, P];
    assert [BIG][1..] == [] && [MID, BIG][1..] == [BIG];
    assert Carry([BIG], MID) == [MID] + Carry([], BIG);
    assert Carry([MID, BIG], P) == [P] + Carry([BIG], MID);
  }

  lemma SkipSettles()
    ensures Settle([BIG], BOOT) == Outcome(Ok, [BIG]) && Settle([BIG, MID], BOOT) == Outcome(Ok, [MID, BIG])
    ensures !Allowed([MID, BIG], 16, PRV_M, ACCESS_READ)
    ensures Allowed(ExchangeSort([MID, BIG, P]), 16, PRV_M, ACCESS_READ)
    ensures !Covered([], BIG) && !Covered([BIG], MID) && Covered([MID, BIG], P)
  {
    SkipPlaces();
    SkipSorts();
    BootsAt([BIG], 0);
    BootsAt([MID, BIG], 0);
    BootsAt([P, MID, BIG], 0);
    SettlesAs([BIG], [BIG]);
    SettlesAs([BIG, MID], [MID, BIG]);
    assert IsSubset(P, [MID, BIG][1]) && P.flags == [MID, BIG][1].flags;
  }

  /** The early return loses a region: one with other permissions, between the new region and the one
      that covers it, keeps deciding, where the sorted table with the new region would not let it. */
  method CoveredRegionLost() returns (code: Code, after: bool)
    ensures code == Ok && !after && Allowed(ExchangeSort([MID, BIG, P]), 16, PRV_M, ACCESS_READ)
  {
    SkipSettles();
    assert [] + [BIG] == [BIG] && [BIG] + [MID] == [BIG, MID];
    var root := new Root(BOOT);
    AddKnown(root, BIG, [], [BIG]);
    AddKnown(root, MID, [BIG], [MID, BIG]);
    code := root.Add(P);
    after := root.Check(16, PRV_M, ACCESS_READ);
  }

  // ---------- a region of order 0 ----------

  const BYTE := Region(64, 0, RWX)

  lemma ByteSettles()
    ensures Settled([P], BOOT) && !Covered([], P) && !Covered([P], BYTE) && !Covered([P], NEW)
    ensures !Allowed([P], 0, PRV_S, ACCESS_READ) && Allowed([NEW, P], 0, PRV_S, ACCESS_READ)
  {
    SortPlaces();
    SortSettles();
    assert Pow2(0) == 1 && Pow2(3) == 8 && Pow2(4) == 16;
    assert Find([P], 0) == 1;
    FirstOf([NEW, P], 0, 0);
  }

  /** Adding one byte succeeds without a check of its region; the region added next is reported as
      added too, but no walk ever reaches it. */
  method ByteHidesNext() returns (first: Code, second: Code, after: bool)
    ensures first == Ok && second == Ok && !after && Allowed([NEW, P], 0, PRV_S, ACCESS_READ) && !Valid(BYTE)
  {
    ByteSettles();
    assert [] + [P] == [P];
    var root := new Root(BOOT);
    AddKnown(root, P, [], [P]);
    first := root.Add(BYTE);
    second := root.Add(NEW);
    after := root.Check(0, PRV_S, ACCESS_READ);
  }
}
