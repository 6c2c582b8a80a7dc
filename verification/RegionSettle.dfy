/** The region table that adding a region arrives at, and which answers that changes. */
module RegionSettle {
  import opened Wrappers
  import opened Domain
  import opened DomainMerge
  import opened RegionSort
  import opened RegionMerge

  datatype Code = Ok | Einval

  /** What the checks of a domain look at besides its regions. */
  datatype Boot = Boot(possible: Option<set<nat>>, known: set<nat>, fwInited: bool, mode: nat, addr: nat)

  datatype Outcome = Outcome(code: Code, table: seq<Region>)

  /** The checks made before the table is sorted. */
  predicate Passes(s: seq<Region>, b: Boot) {
    b.possible.Some? && b.possible.value <= b.known && AllValid(s) && b.fwInited
  }

  /** The next stage starts in S- or U-mode at an address it may execute. */
  predicate Boots(regs: seq<Region>, b: Boot) {
    (b.mode == PRV_S || b.mode == PRV_U) && Allowed(regs, b.addr, b.mode, ACCESS_EXECUTE)
  }

  /** The checks of a domain, which sort its table on the way. */
  function Sanitized(s: seq<Region>, b: Boot): Outcome {
    if !Passes(s, b) then Outcome(Einval, s)
    else Outcome(if Boots(ExchangeSort(s), b) then Ok else Einval, ExchangeSort(s))
  }

  /** The checks succeed exactly for a mask of known harts, valid regions, a firmware region, and a next
      stage in U- or S-mode whose address is first held by an executable region that is not a device. */
  lemma SanitizedExactly(s: seq<Region>, b: Boot)
    ensures Sanitized(s, b).code == Ok <==>
      && b.possible.Some? && (forall h <- b.possible.value :: h in b.known)
      && (forall i :: 0 <= i < |s| ==> Valid(s[i])) && b.fwInited && b.mode <= 1
      && (exists i :: FirstHolder(ExchangeSort(s), b.addr, i) && Executable(ExchangeSort(s)[i].flags))
  {
    var t := ExchangeSort(s);
    var d := Find(t, b.addr);
    AllowedExactly(t, b.addr, b.mode, ACCESS_EXECUTE);
    if d < |t| {
      assert FirstHolder(t, b.addr, d);
      ExecuteOnly(t[d].flags, b.mode);
    }
  }

  /** Region `i` is the first that holds the address. */
  ghost predicate FirstHolder(t: seq<Region>, a: nat, i: int) {
    0 <= i < |t| && Contains(t[i], a) && forall j :: 0 <= j < i ==> !Contains(t[j], a)
  }

  predicate Executable(flags: bv64) {
    flags & 0x20 != 0 && flags & 0x8000_0000 == 0
  }

  lemma ExecuteOnly(flags: bv64, mode: nat)
    ensures mode <= 1 ==> (Executable(flags) <==> GrantsEach(flags, mode, ACCESS_EXECUTE)
                                                  && (ACCESS_EXECUTE & 0x8 != 0 <==> flags & 0x8000_0000 != 0))
  {
  }

  /** What sorting and merging in turn arrive at. */
  function Settle(s: seq<Region>, b: Boot): Outcome
    decreases |s|
  {
    var o := Sanitized(s, b);
    if o.code != Ok || |Pass(o.table, 0)| == |o.table| then o
    else Settle(Pass(o.table, 0), b)
  }

  /** Is there a region with the same flags that covers `reg`? */
  predicate Covered(regs: seq<Region>, reg: Region) {
    exists i :: 0 <= i < |regs| && IsSubset(reg, regs[i]) && reg.flags == regs[i].flags
  }

  lemma SanitizedElems(s: seq<Region>, b: Boot)
    ensures Elems(Sanitized(s, b).table) == Elems(s)
    ensures Passes(s, b) ==> Sorted(Sanitized(s, b).table)
  {
    OuterSorts(s, 0);
    SameElems(s, ExchangeSort(s));
  }

  /** Every outcome is merged from the regions it began with. */
  lemma {:induction false} SettleDerived(orig: set<Region>, s: seq<Region>, b: Boot)
    requires AllValidSet(orig) && Derived(orig, Elems(s))
    ensures Derived(orig, Elems(Settle(s, b).table))
    decreases |s|
  {
    var o := Sanitized(s, b);
    SanitizedElems(s, b);
    if o.code == Ok && |Pass(o.table, 0)| != |o.table| {
      PassDerived(orig, o.table, 0);
      SettleDerived(orig, Pass(o.table, 0), b);
    }
  }

  lemma SameValid(s: seq<Region>, t: seq<Region>)
    requires Elems(s) == Elems(t) && AllValid(t)
    ensures AllValid(s)
  {
    forall i | 0 <= i < |s| ensures Valid(s[i]) {
      assert s[i] in Elems(t);
    }
  }

  /** A table that passes is sorted, valid and fully merged, and means what it meant before unless
      the regions clash. */
  lemma {:induction false} SettleOk(s: seq<Region>, b: Boot)
    requires Settle(s, b).code == Ok
    ensures var t := Settle(s, b).table;
      && Sorted(t) && AllValid(t) && Boots(t, b)
      && (forall i :: 0 <= i < |t| ==> !MergeableAt(t, i))
      && Derived(Elems(s), Elems(t))
    decreases |s|
  {
    var o := Sanitized(s, b);
    SanitizedElems(s, b);
    SameValid(o.table, s);
    if |Pass(o.table, 0)| == |o.table| {
      PassComplete(o.table, 0);
    } else {
      SettleOk(Pass(o.table, 0), b);
    }
    AllValidElems(s);
    DerivedStart(Elems(s));
    SettleDerived(Elems(s), s, b);
  }

  lemma AllValidElems(s: seq<Region>)
    ensures AllValid(s) <==> AllValidSet(Elems(s))
  {
    if AllValidSet(Elems(s)) {
      forall i | 0 <= i < |s| ensures Valid(s[i]) {
        assert s[i] in Elems(s);
      }
    }
  }

  /** Once the first checks pass, every outcome is sorted: a pass keeps the regions valid. */
  lemma {:induction false} SettleSorted(s: seq<Region>, b: Boot)
    requires Passes(s, b)
    ensures Sorted(Settle(s, b).table)
    decreases |s|
  {
    var o := Sanitized(s, b);
    SanitizedElems(s, b);
    if o.code == Ok && |Pass(o.table, 0)| != |o.table| {
      AllValidElems(s);
      DerivedStart(Elems(s));
      PassDerived(Elems(s), o.table, 0);
      AllValidElems(Pass(o.table, 0));
      SettleSorted(Pass(o.table, 0), b);
    }
  }

  // ---------- which answers an added region changes ----------

  lemma AppendFlags(table: seq<Region>, reg: Region, a: nat)
    requires !Contains(reg, a)
    ensures FlagsAt(table + [reg], a) == FlagsAt(table, a)
  {
    DeciderAppend(table, [reg], a);
    DeciderHead(reg, [], a);
    assert [reg] + [] == [reg];
  }

  /** In sorted lists with the same meaning the same flags decide. */
  lemma SameFlags(regs: seq<Region>, other: seq<Region>, a: nat)
    requires Sorted(regs) && Sorted(other) && AllValid(regs) && AllValid(other) && a < ADDRESSES
    requires SameMeaning(Elems(regs), Elems(other)) && Consistent(Elems(other))
    ensures FlagsAt(regs, a) == FlagsAt(other, a)
  {
    var i, j := Find(regs, a), Find(other, a);
    if i < |regs| {
      FirstDecides(regs, a);
      assert Gives(Elems(regs), a, regs[i].flags);
      assert Gives(Elems(other), a, regs[i].flags);
      var r :| Decides(Elems(other), a, r) && r.flags == regs[i].flags;
      var k :| 0 <= k < |other| && other[k] == r;
      assert j <= k;
      FirstDecides(other, a);
      Nested(other[j], r, a);
    } else if j < |other| {
      FirstDecides(other, a);
      assert Gives(Elems(other), a, other[j].flags);
      assert false;
    }
  }

  /** So lists with the same meaning answer every single-address check alike. */
  lemma SameAnswers(regs: seq<Region>, other: seq<Region>, a: nat, mode: nat, access: bv64)
    requires Sorted(regs) && Sorted(other) && AllValid(regs) && AllValid(other)
    requires SameMeaning(Elems(regs), Elems(other)) && Consistent(Elems(other)) && a < ADDRESSES
    ensures Allowed(regs, a, mode, access) == Allowed(other, a, mode, access)
  {
    SameFlags(regs, other, a);
  }

  /** Without a clash nothing after the first sort changes what decides. */
  lemma SettleKeepsFlags(s: seq<Region>, b: Boot, a: nat)
    requires Passes(s, b) && !Clash(Elems(s)) && a < ADDRESSES
    ensures FlagsAt(Settle(s, b).table, a) == FlagsAt(ExchangeSort(s), a)
  {
    var t, u := ExchangeSort(s), Settle(s, b).table;
    SanitizedElems(s, b);
    AllValidElems(s);
    AllValidElems(t);
    AllValidElems(u);
    DerivedStart(Elems(s));
    SettleDerived(Elems(s), s, b);
    SettleSorted(s, b);
    SameFlags(t, u, a);
  }

  /** If the regions do not clash, an added region changes no answer outside itself, whatever the
      outcome of the call. */
  lemma AddKeepsFlags(table: seq<Region>, reg: Region, b: Boot, a: nat)
    requires Sorted(table) && !Contains(reg, a) && a < ADDRESSES && !Clash(Elems(table + [reg]))
    ensures FlagsAt(Settle(table + [reg], b).table, a) == FlagsAt(table, a)
  {
    var s := table + [reg];
    if !Passes(s, b) {
      AppendFlags(table, reg, a);
    } else {
      SettleKeepsFlags(s, b, a);
      NotOvertaken(table, reg, a);
      SortKeepsFlagsExactly(table, reg, a);
    }
  }

  lemma NotOvertaken(table: seq<Region>, reg: Region, a: nat)
    requires AllValid(table + [reg]) && !Clash(Elems(table + [reg]))
    ensures !Overtaken(table, reg, a)
  {
    var s := table + [reg];
    AllValidElems(s);
    DerivedStart(Elems(s));
    var d := Find(table, a);
    if d + 1 < |table| {
      assert s[d] in Elems(s) && s[d + 1] in Elems(s);
    }
  }

  /** A call that merges nothing changes an answer outside the new region exactly if it gets as far
      as the sort and the sort overtakes. */
  lemma AddExactly(table: seq<Region>, reg: Region, b: Boot, a: nat)
    requires Sorted(table) && !Contains(reg, a)
    requires |Settle(table + [reg], b).table| == |table| + 1
    ensures FlagsAt(Settle(table + [reg], b).table, a) == FlagsAt(table, a)
      <==> !(Passes(table + [reg], b) && Overtaken(table, reg, a))
  {
    var s := table + [reg];
    if Passes(s, b) {
      SanitizedElems(s, b);
      OuterSorts(s, 0);
      SameElems(s, ExchangeSort(s));
      Unmerged(s, b);
      SortKeepsFlagsExactly(table, reg, a);
    } else {
      AppendFlags(table, reg, a);
    }
  }

  lemma {:induction false} SettleShrinks(s: seq<Region>, b: Boot)
    ensures |Settle(s, b).table| <= |s|
    decreases |s|
  {
    var o := Sanitized(s, b);
    OuterSorts(s, 0);
    SameElems(s, ExchangeSort(s));
    if o.code == Ok && |Pass(o.table, 0)| != |o.table| {
      SettleShrinks(Pass(o.table, 0), b);
    }
  }

  lemma Unmerged(s: seq<Region>, b: Boot)
    requires Passes(s, b) && |Settle(s, b).table| == |s|
    ensures Settle(s, b).table == ExchangeSort(s)
  {
    OuterSorts(s, 0);
    SameElems(s, ExchangeSort(s));
    var o := Sanitized(s, b);
    if o.code == Ok && |Pass(o.table, 0)| != |o.table| {
      SettleShrinks(Pass(o.table, 0), b);
      assert false;
    }
  }

  /** A call whose sorted table loses one pair of siblings and then has no more to merge. */
  predicate MergesOnce(s: seq<Region>, b: Boot, i: nat) {
    var t := ExchangeSort(s);
    Passes(s, b) && Boots(t, b) && MergeableAt(t, i) && Pass(t, 0) == MergeAt(t, i)
    && |Settle(MergeAt(t, i), b).table| == |s| - 1
  }

  /** Such a call changes an answer outside the new region exactly as follows: where the merge
      exposes a region, that one's flags must be the old ones; elsewhere the sort must not overtake. */
  lemma AddMergeExactly(table: seq<Region>, reg: Region, b: Boot, i: nat, a: nat)
    requires Sorted(table) && !Contains(reg, a) && a < ADDRESSES && MergesOnce(table + [reg], b, i)
    ensures var t := ExchangeSort(table + [reg]);
      FlagsAt(Settle(table + [reg], b).table, a) == FlagsAt(table, a)
      <==> if Exposed(t, i, a) then FlagsAt(table, a) == Some(t[i + 2].flags) else !Overtaken(table, reg, a)
  {
    var s := table + [reg];
    var t := ExchangeSort(s);
    SanitizedElems(s, b);
    SameValid(t, s);
    assert |t| == |s| by { OuterSorts(s, 0); SameElems(s, t); }
    var m := MergeAt(t, i);
    MergedPasses(s, b, t, i);
    Unmerged(m, b);
    MergeKeepsFlagsExactly(t, i, a);
    SortKeepsFlagsExactly(table, reg, a);
  }

  lemma MergedPasses(s: seq<Region>, b: Boot, t: seq<Region>, i: nat)
    requires Passes(s, b) && AllValid(t) && MergeableAt(t, i)
    ensures Passes(MergeAt(t, i), b)
  {
    ParentExtent(t[i], t[i + 1]);
    var m := MergeAt(t, i);
    forall k | 0 <= k < |m| ensures Valid(m[k]) {
      assert m[k] == if k < i then t[k] else if k == i then Parent(t[i]) else t[k + 1];
    }
  }
}
