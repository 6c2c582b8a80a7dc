/** The root domain's table over whole sequences of added regions. Every walk over it stops at the
    first region of order 0, while the count of added regions goes on. */
module RootTable {
  import opened PowersOfTwo
  import opened Domain
  import opened DomainMerge
  import opened RegionSort
  import opened RegionMerge
  import opened RegionSettle

  const ROOT_REGION_MAX: nat := 32

  /** The regions before the first one of order 0, and how far the count has run ahead of them. */
  datatype Table = Table(regs: seq<Region>, hidden: nat)

  datatype Call = Call(code: Code, table: Table)

  predicate Full(t: Table) {
    ROOT_REGION_MAX <= |t.regs| + t.hidden
  }

  /** Does an appended region stand before the first one of order 0? */
  predicate Seen(t: Table, reg: Region) {
    t.hidden == 0 && reg.order > 0
  }

  function Added(t: Table, reg: Region, b: Boot): Call {
    if Full(t) then Call(Einval, t)
    else if Covered(t.regs, reg) then Call(Ok, t)
    else if Seen(t, reg) then
      var o := Settle(t.regs + [reg], b);
      Call(o.code, Table(o.table, 0))
    else
      var o := Settle(t.regs, b);
      Call(o.code, Table(o.table, t.hidden + 1))
  }

  function Adds(t: Table, regs: seq<Region>, b: Boot): Table
    decreases |regs|
  {
    if regs == [] then t else Adds(Added(t, regs[0], b).table, regs[1..], b)
  }

  /** A table with the new region in it that passes is sorted, valid, bootable and fully merged, and
      it gives every address the flags that the old table with `reg` appended gives it, provided the
      latter has no clash. */
  lemma AddedOk(t: Table, reg: Region, b: Boot)
    requires !Full(t) && !Covered(t.regs, reg) && Seen(t, reg) && Added(t, reg, b).code == Ok
    ensures var u := Added(t, reg, b).table.regs;
      && Sorted(u) && AllValid(u) && Boots(u, b)
      && (forall i :: 0 <= i < |u| ==> !MergeableAt(u, i))
      && Derived(Elems(t.regs + [reg]), Elems(u))
  {
    SettleOk(t.regs + [reg], b);
  }

  // ---------- regions that are never seen ----------

  /** Sorted, valid, fully merged and bootable. */
  predicate Settled(s: seq<Region>, b: Boot) {
    Settle(s, b) == Outcome(Ok, s)
  }

  /** A call that succeeds leaves such a table, and sorting and merging it again do nothing. */
  lemma SettlesOnce(s: seq<Region>, b: Boot)
    requires Settle(s, b).code == Ok
    ensures Settled(Settle(s, b).table, b)
  {
    SettleOk(s, b);
    SettlePasses(s, b);
    var t := Settle(s, b).table;
    OuterOnSorted(t, 0);
    NothingToMerge(t, 0);
  }

  lemma {:induction false} SettlePasses(s: seq<Region>, b: Boot)
    requires Settle(s, b).code == Ok
    ensures b.possible.Some? && b.possible.value <= b.known && b.fwInited
  {
    assert Passes(s, b);
  }

  /** Behind a region of order 0 nothing is seen any more, though calls succeed while there is room. */
  lemma {:induction false} HiddenForever(t: Table, regs: seq<Region>, b: Boot)
    requires Settled(t.regs, b) && t.hidden > 0
    ensures Adds(t, regs, b).regs == t.regs
    ensures forall reg :: Added(t, reg, b).code == Ok <==> !Full(t)
    decreases |regs|
  {
    if regs != [] {
      HiddenForever(Added(t, regs[0], b).table, regs[1..], b);
    }
  }

  /** Some region with the flags of `reg` covers it still. */
  lemma CoverMerges(s: seq<Region>, i: nat, reg: Region)
    requires MergeableAt(s, i) && Covered(s, reg)
    ensures Covered(MergeAt(s, i), reg)
  {
    var m := MergeAt(s, i);
    var k :| 0 <= k < |s| && IsSubset(reg, s[k]) && reg.flags == s[k].flags;
    assert Pow2(s[i].order + 1) == 2 * Pow2(s[i].order);
    var j := if k <= i then k else k - 1;
    assert m[j] == if k < i then s[k] else if k <= i + 1 then Parent(s[i]) else s[k];
    assert IsSubset(reg, m[j]) && reg.flags == m[j].flags;
  }

  lemma {:induction false} CoverPasses(s: seq<Region>, i: nat, reg: Region)
    requires Covered(s, reg)
    ensures Covered(Pass(s, i), reg)
    decreases |s| - i
  {
    if i < |s| {
      if MergeableAt(s, i) {
        CoverMerges(s, i, reg);
        CoverPasses(MergeAt(s, i), i + 1, reg);
      } else {
        CoverPasses(s, i + 1, reg);
      }
    }
  }

  lemma CoverSorts(s: seq<Region>, t: seq<Region>, reg: Region)
    requires Elems(s) == Elems(t) && Covered(s, reg)
    ensures Covered(t, reg)
  {
    var k :| 0 <= k < |s| && IsSubset(reg, s[k]) && reg.flags == s[k].flags;
    assert s[k] in Elems(t);
    var j :| 0 <= j < |t| && t[j] == s[k];
  }

  lemma {:induction false} CoverSettles(s: seq<Region>, b: Boot, reg: Region)
    requires Covered(s, reg)
    ensures Covered(Settle(s, b).table, reg)
    decreases |s|
  {
    var o := Sanitized(s, b);
    SanitizedElems(s, b);
    CoverSorts(s, o.table, reg);
    if o.code == Ok && |Pass(o.table, 0)| != |o.table| {
      CoverPasses(o.table, 0, reg);
      CoverSettles(Pass(o.table, 0), b, reg);
    }
  }

  /** After a call that succeeds the table covers the new region with its flags, exactly unless the
      table did not cover it before and the region was not seen. */
  lemma EnforcedExactly(t: Table, reg: Region, b: Boot)
    requires Settled(t.regs, b) && Added(t, reg, b).code == Ok
    ensures Covered(Added(t, reg, b).table.regs, reg) <==> Covered(t.regs, reg) || Seen(t, reg)
  {
    if !Covered(t.regs, reg) && Seen(t, reg) {
      var s := t.regs + [reg];
      SettleOk(s, b);
      assert Passes(s, b);
      assert Valid(s[|t.regs|]);
      assert Pow2(reg.order) > 1 by { Pow2Monotone(3, reg.order); assert Pow2(3) == 8; }
      assert IsSubset(reg, s[|t.regs|]) && reg.flags == s[|t.regs|].flags;
      CoverSettles(s, b, reg);
    }
  }

  // ---------- answers over a whole run ----------

  /** What the calls keep: a table that passes the first checks is sorted, and it is merged from
      originals. */
  ghost predicate Kept(orig: set<Region>, t: Table, b: Boot) {
    Passes(t.regs, b) ==> Sorted(t.regs) && FromOriginals(orig, Elems(t.regs))
  }

  lemma FromTrans(orig: set<Region>, mid: set<Region>, cur: set<Region>)
    requires FromOriginals(orig, mid) && FromOriginals(mid, cur)
    ensures FromOriginals(orig, cur)
  {
    forall c <- cur ensures Tiled(orig, c, c.flags) {
      TiledTwice(orig, mid, c, c.flags);
    }
  }

  lemma SettleKept(orig: set<Region>, s: seq<Region>, hidden: nat, b: Boot)
    requires Passes(s, b) && FromOriginals(orig, Elems(s))
    ensures Kept(orig, Table(Settle(s, b).table, hidden), b)
  {
    AllValidElems(s);
    DerivedStart(Elems(s));
    SettleDerived(Elems(s), s, b);
    SettleSorted(s, b);
    FromTrans(orig, Elems(s), Elems(Settle(s, b).table));
  }

  lemma FromMore(orig: set<Region>, table: seq<Region>, reg: Region)
    requires FromOriginals(orig, Elems(table)) && reg in orig
    ensures FromOriginals(orig, Elems(table + [reg]))
  {
    SelfTiled(orig);
    assert Elems(table + [reg]) <= Elems(table) + {reg};
  }

  /** One call, outside the new region. */
  lemma AddedKeepsFlags(orig: set<Region>, t: Table, reg: Region, b: Boot, a: nat)
    requires AllValidSet(orig) && !Clash(orig) && Kept(orig, t, b) && (Valid(reg) ==> reg in orig)
    requires a < ADDRESSES && !Contains(reg, a)
    ensures Kept(orig, Added(t, reg, b).table, b)
    ensures FlagsAt(Added(t, reg, b).table.regs, a) == FlagsAt(t.regs, a)
  {
    var s := t.regs + [reg];
    if Full(t) || Covered(t.regs, reg) {
    } else if Seen(t, reg) {
      if Passes(s, b) {
        assert Valid(s[|t.regs|]) && forall i :: 0 <= i < |t.regs| ==> t.regs[i] == s[i];
        FromMore(orig, t.regs, reg);
        AllValidElems(s);
        StaysUnclashed(orig, Elems(s));
        AddKeepsFlags(t.regs, reg, b, a);
        SettleKept(orig, s, 0, b);
      } else {
        AppendFlags(t.regs, reg, a);
      }
    } else if Passes(t.regs, b) {
      AllValidElems(t.regs);
      StaysUnclashed(orig, Elems(t.regs));
      SettleKeepsFlags(t.regs, b, a);
      OuterOnSorted(t.regs, 0);
      SettleKept(orig, t.regs, t.hidden + 1, b);
    }
  }

  /** The regions that can ever be part of the table that is walked. */
  ghost function Originals(t: Table, regs: seq<Region>): set<Region> {
    set r <- Elems(t.regs + regs) | Valid(r)
  }

  lemma {:induction false} RunKeeps(orig: set<Region>, t: Table, regs: seq<Region>, b: Boot, a: nat)
    requires AllValidSet(orig) && !Clash(orig) && Kept(orig, t, b)
    requires forall r <- regs :: (Valid(r) ==> r in orig) && !Contains(r, a)
    requires a < ADDRESSES
    ensures FlagsAt(Adds(t, regs, b).regs, a) == FlagsAt(t.regs, a)
    decreases |regs|
  {
    if regs != [] {
      assert regs[0] in regs && forall r <- regs[1..] :: r in regs;
      AddedKeepsFlags(orig, t, regs[0], b, a);
      RunKeeps(orig, Added(t, regs[0], b).table, regs[1..], b, a);
    }
  }

  /** Over every sequence of calls, whatever their outcomes: an address outside all the regions added
      keeps its flags, unless regions of the table and added ones clash. */
  lemma RunKeepsFlags(t: Table, regs: seq<Region>, b: Boot, a: nat)
    requires Sorted(t.regs) && !Clash(Originals(t, regs))
    requires a < ADDRESSES && forall r <- regs :: !Contains(r, a)
    ensures FlagsAt(Adds(t, regs, b).regs, a) == FlagsAt(t.regs, a)
  {
    var orig := Originals(t, regs);
    SelfTiled(orig);
    forall r <- regs | Valid(r) ensures r in orig {
      assert r in t.regs + regs;
    }
    if AllValid(t.regs) {
      forall r <- Elems(t.regs) ensures Tiled(orig, r, r.flags) {
        assert r in t.regs + regs && r in orig;
      }
    }
    RunKeeps(orig, t, regs, b, a);
  }
}
