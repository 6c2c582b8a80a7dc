/** The exchange sort of the region table, as a function, and what adding one region to a sorted
    table does to the regions that decide. */
module RegionSort {
  import opened Wrappers
  import opened Domain

  function Swapped(s: seq<Region>, i: nat, j: nat): seq<Region>
    requires i < |s| && j < |s|
  {
    s[i := s[j]][j := s[i]]
  }

  /** The inner loop from `j` on: position `i` is exchanged with every later region before it. */
  function Inner(s: seq<Region>, i: nat, j: nat): (t: seq<Region>)
    requires i < j
    ensures |t| == |s|
    decreases |s| - j
  {
    if j >= |s| then s
    else Inner(if IsBefore(s[j], s[i]) then Swapped(s, i, j) else s, i, j + 1)
  }

  /** The outer loop from `i` on. */
  function Outer(s: seq<Region>, i: nat): (t: seq<Region>)
    ensures |t| == |s|
    decreases |s| - i
  {
    if i + 1 >= |s| then s else Outer(Inner(s, i, i + 1), i + 1)
  }

  function ExchangeSort(s: seq<Region>): seq<Region> {
    Outer(s, 0)
  }

  /** The first `i` regions are in place: none that follows goes before them. */
  predicate Front(s: seq<Region>, i: nat) {
    i <= |s| && forall p, q :: 0 <= p < i && p < q < |s| ==> !IsBefore(s[q], s[p])
  }

  /** Of positions `i` to `j - 1`, position `i` holds a first one. */
  predicate Least(s: seq<Region>, i: nat, j: nat) {
    i < j <= |s| && forall q :: i < q < j ==> !IsBefore(s[q], s[i])
  }

  lemma SwapAdvances(s: seq<Region>, i: nat, j: nat)
    requires j < |s| && Front(s, i) && Least(s, i, j) && IsBefore(s[j], s[i])
    ensures Front(Swapped(s, i, j), i) && Least(Swapped(s, i, j), i, j + 1)
    ensures multiset(Swapped(s, i, j)) == multiset(s)
  {
    var t := Swapped(s, i, j);
    forall p, q | 0 <= p < i && p < q < |t| ensures !IsBefore(t[q], t[p]) {
      var k := if q == i then j else if q == j then i else q;
      assert t[q] == s[k] && t[p] == s[p];
    }
  }

  lemma {:induction false} InnerSelects(s: seq<Region>, i: nat, j: nat)
    requires i < j <= |s| && Front(s, i) && Least(s, i, j)
    ensures Front(Inner(s, i, j), i) && Least(Inner(s, i, j), i, |s|) && multiset(Inner(s, i, j)) == multiset(s)
    decreases |s| - j
  {
    if j < |s| {
      if IsBefore(s[j], s[i]) {
        SwapAdvances(s, i, j);
        InnerSelects(Swapped(s, i, j), i, j + 1);
      } else {
        InnerSelects(s, i, j + 1);
      }
    }
  }

  /** The sort yields a sorted permutation. */
  lemma {:induction false} OuterSorts(s: seq<Region>, i: nat)
    requires Front(s, i)
    ensures Sorted(Outer(s, i)) && multiset(Outer(s, i)) == multiset(s)
    decreases |s| - i
  {
    if i + 1 < |s| {
      InnerSelects(s, i, i + 1);
      OuterSorts(Inner(s, i, i + 1), i + 1);
    }
  }

  // ---------- one region appended to a sorted table ----------

  /** The sort hands one region along the table: where it goes before the one it meets, the two
      change places and the other is handed on. */
  function Carry(table: seq<Region>, z: Region): seq<Region> {
    if table == [] then [z]
    else if IsBefore(z, table[0]) then [z] + Carry(table[1..], table[0])
    else [table[0]] + Carry(table[1..], z)
  }

  /** In a sorted stretch with one region behind it the inner loop can only exchange the two ends. */
  lemma {:induction false} InnerOnSorted(s: seq<Region>, i: nat, j: nat)
    requires i < j < |s| && Sorted(s[i..|s| - 1])
    ensures Inner(s, i, j) == if IsBefore(s[|s| - 1], s[i]) then Swapped(s, i, |s| - 1) else s
    decreases |s| - j
  {
    if j < |s| - 1 {
      var q := s[i..|s| - 1];
      assert !IsBefore(q[j - i], q[0]) && q[j - i] == s[j] && q[0] == s[i];
      InnerOnSorted(s, i, j + 1);
    }
  }

  lemma {:induction false} OuterCarries(front: seq<Region>, table: seq<Region>, z: Region)
    requires Sorted(table)
    ensures Outer(front + table + [z], |front|) == front + Carry(table, z)
    decreases |table|
  {
    var s, i := front + table + [z], |front|;
    if table == [] {
      assert s == front + [z];
    } else {
      var t, rest := table[0], table[1..];
      assert s[i..|s| - 1] == table;
      InnerOnSorted(s, i, i + 1);
      if IsBefore(z, t) {
        assert Inner(s, i, i + 1) == (front + [z]) + rest + [t];
        OuterCarries(front + [z], rest, t);
        assert (front + [z]) + Carry(rest, t) == front + ([z] + Carry(rest, t));
      } else {
        assert Inner(s, i, i + 1) == (front + [t]) + rest + [z];
        OuterCarries(front + [t], rest, z);
        assert (front + [t]) + Carry(rest, z) == front + ([t] + Carry(rest, z));
      }
    }
  }

  lemma SortCarries(table: seq<Region>, reg: Region)
    requires Sorted(table)
    ensures ExchangeSort(table + [reg]) == Carry(table, reg)
  {
    OuterCarries([], table, reg);
    assert [] + table + [reg] == table + [reg] && [] + Carry(table, reg) == Carry(table, reg);
  }

  // ---------- which region decides ----------

  function Decider(regs: seq<Region>, a: nat): Option<Region> {
    var i := Find(regs, a);
    if i < |regs| then Some(regs[i]) else None
  }

  predicate SameExtent(p: Region, q: Region) {
    p.base == q.base && p.order == q.order
  }

  /** The region behind the first match, if it has the same extent, else the first match. */
  function Second(regs: seq<Region>, a: nat): Option<Region> {
    var i := Find(regs, a);
    if i == |regs| then None
    else if i + 1 < |regs| && SameExtent(regs[i], regs[i + 1]) then Some(regs[i + 1])
    else Some(regs[i])
  }

  lemma DeciderHead(r: Region, rest: seq<Region>, a: nat)
    ensures Decider([r] + rest, a) == if Contains(r, a) then Some(r) else Decider(rest, a)
    ensures !Contains(r, a) ==> Second([r] + rest, a) == Second(rest, a)
  {
    var s := [r] + rest;
    assert s[1..] == rest;
    assert Find(s, a) == if Contains(r, a) then 0 else 1 + Find(rest, a);
  }

  /** Once regions are handed on, the first of every group of equal extents moves behind the group. */
  lemma {:induction false} CarriedDecider(table: seq<Region>, z: Region, a: nat)
    requires Sorted([z] + table)
    ensures Decider(Carry(table, z), a) == Second([z] + table, a)
    decreases |table|
  {
    if table == [] {
      assert Carry(table, z) == [z];
      DeciderHead(z, [], a);
    } else {
      var t, rest := table[0], table[1..];
      assert ([z] + table)[1..] == table && table == [t] + rest;
      SortedTail(z, t, rest);
      DeciderHead(z, table, a);
      if IsBefore(z, t) {
        DeciderHead(z, Carry(rest, t), a);
        CarriedDecider(rest, t, a);
      } else {
        DeciderHead(t, Carry(rest, z), a);
        DeciderHead(t, rest, a);
        DeciderHead(z, rest, a);
        CarriedDecider(rest, z, a);
      }
    }
  }

  lemma SortedTail(z: Region, t: Region, rest: seq<Region>)
    requires Sorted([z] + ([t] + rest))
    ensures Sorted([t] + rest) && Sorted([z] + rest) && !IsBefore(t, z)
  {
    var s := [z] + ([t] + rest);
    assert !IsBefore(s[1], s[0]);
    forall i, j | 0 <= i < j < |[t] + rest| ensures !IsBefore(([t] + rest)[j], ([t] + rest)[i]) {
      assert !IsBefore(s[j + 1], s[i + 1]);
    }
    forall i, j | 0 <= i < j < |[z] + rest| ensures !IsBefore(([z] + rest)[j], ([z] + rest)[i]) {
      assert !IsBefore(s[j + 1], s[if i == 0 then 0 else i + 1]);
    }
  }

  lemma SmallerStill(reg: Region, table: seq<Region>)
    requires Sorted(table) && table != [] && IsBefore(reg, table[0])
    ensures Sorted([reg] + table) && forall i :: 0 <= i < |table| ==> IsBefore(reg, table[i])
  {
    forall i | 0 < i < |table| ensures IsBefore(reg, table[i]) {
      assert !IsBefore(table[i], table[0]);
    }
    var s := [reg] + table;
    forall i, j | 0 <= i < j < |s| ensures !IsBefore(s[j], s[i]) {
      assert i > 0 ==> !IsBefore(table[j - 1], table[i - 1]);
    }
  }

  /** Outside the new region: from the new region's place on, a group of equal extents is decided
      by its second member from now on; everything else is decided as before. */
  lemma {:induction false} AppendedDecider(table: seq<Region>, reg: Region, a: nat)
    requires Sorted(table) && !Contains(reg, a)
    ensures var d := Find(table, a);
      Decider(Carry(table, reg), a)
      == if d < |table| && IsBefore(reg, table[d]) then Second(table, a) else Decider(table, a)
    decreases |table|
  {
    if table == [] {
      assert Carry(table, reg) == [reg];
      DeciderHead(reg, [], a);
    } else {
      var t, rest := table[0], table[1..];
      assert table == [t] + rest;
      if IsBefore(reg, t) {
        SmallerStill(reg, table);
        CarriedDecider(table, reg, a);
        DeciderHead(reg, table, a);
      } else {
        DeciderHead(t, Carry(rest, reg), a);
        DeciderHead(t, rest, a);
        assert Sorted(rest) by {
          forall i, j | 0 <= i < j < |rest| ensures !IsBefore(rest[j], rest[i]) {
            assert !IsBefore(table[j + 1], table[i + 1]);
          }
        }
        AppendedDecider(rest, reg, a);
      }
    }
  }

  function FlagsAt(regs: seq<Region>, a: nat): Option<bv64> {
    var i := Find(regs, a);
    if i < |regs| then Some(regs[i].flags) else None
  }

  /** The new region goes before the one that decides the address, and that one is followed by a
      region of the same extent with other flags. */
  predicate Overtaken(table: seq<Region>, reg: Region, a: nat) {
    var d := Find(table, a);
    d + 1 < |table| && IsBefore(reg, table[d])
    && SameExtent(table[d], table[d + 1]) && table[d].flags != table[d + 1].flags
  }

  /** Sorting a region into a sorted table leaves the flags that decide an address outside it alone,
      exactly unless the deciding region is overtaken. */
  lemma SortKeepsFlagsExactly(table: seq<Region>, reg: Region, a: nat)
    requires Sorted(table) && !Contains(reg, a)
    ensures FlagsAt(ExchangeSort(table + [reg]), a) == FlagsAt(table, a) <==> !Overtaken(table, reg, a)
  {
    SortCarries(table, reg);
    AppendedDecider(table, reg, a);
  }

  /** Inside the new region: it decides, unless a region that does not go behind it does. */
  lemma {:induction false} InsideDecider(table: seq<Region>, reg: Region, a: nat)
    requires Sorted(table) && Contains(reg, a)
    ensures var d := Find(table, a);
      Decider(Carry(table, reg), a)
      == if d < |table| && !IsBefore(reg, table[d]) then Decider(table, a) else Some(reg)
    decreases |table|
  {
    if table == [] {
      assert Carry(table, reg) == [reg];
      DeciderHead(reg, [], a);
    } else {
      var t, rest := table[0], table[1..];
      assert table == [t] + rest;
      if IsBefore(reg, t) {
        SmallerStill(reg, table);
        DeciderHead(reg, Carry(rest, t), a);
      } else {
        DeciderHead(t, Carry(rest, reg), a);
        DeciderHead(t, rest, a);
        assert Sorted(rest) by {
          forall i, j | 0 <= i < j < |rest| ensures !IsBefore(rest[j], rest[i]) {
            assert !IsBefore(table[j + 1], table[i + 1]);
          }
        }
        InsideDecider(rest, reg, a);
      }
    }
  }

  /** Leaving a region out instead of sorting it in is harmless for one of its addresses exactly when
      the region that decides there goes before it or carries the same flags. */
  lemma LeftOutExactly(table: seq<Region>, reg: Region, a: nat)
    requires Sorted(table) && Contains(reg, a)
    ensures var d := Find(table, a);
      FlagsAt(table, a) == FlagsAt(ExchangeSort(table + [reg]), a)
      <==> d < |table| && (IsBefore(reg, table[d]) ==> table[d].flags == reg.flags)
  {
    SortCarries(table, reg);
    InsideDecider(table, reg, a);
  }
}
