/** Merging neighbours in the region table, sorting again, and what the table that results decides. */
module RegionMerge {
  import opened Wrappers
  import opened Domain
  import opened DomainMerge
  import opened RegionSort

  lemma SameElems(s: seq<Region>, t: seq<Region>)
    requires multiset(s) == multiset(t)
    ensures Elems(s) == Elems(t) && |s| == |t|
  {
    assert |multiset(s)| == |s| && |multiset(t)| == |t|;
    forall r ensures r in s <==> r in t {
      assert r in s <==> r in multiset(s);
      assert r in t <==> r in multiset(t);
    }
  }

  /** Sibling pair at positions `i` and `i + 1`. */
  predicate MergeableAt(s: seq<Region>, i: nat) {
    i + 1 < |s| && Siblings(s[i], s[i + 1])
  }

  function MergeAt(s: seq<Region>, i: nat): seq<Region>
    requires MergeableAt(s, i)
  {
    s[..i] + [Parent(s[i])] + s[i + 2..]
  }

  lemma MergeAtMerges(s: seq<Region>, i: nat)
    requires MergeableAt(s, i)
    ensures Merged(Elems(s), Elems(MergeAt(s, i)), s[i], s[i + 1])
  {
    var t := MergeAt(s, i);
    assert s == s[..i] + [s[i], s[i + 1]] + s[i + 2..];
    assert t[i] == Parent(s[i]);
    assert Elems(s) <= Elems(t) + {s[i], s[i + 1]};
    assert Elems(t) <= Elems(s) + {Parent(s[i])};
  }

  /** One pass over the table from position `i`, merging siblings that are next to each other. */
  function Pass(s: seq<Region>, i: nat): (t: seq<Region>)
    ensures |t| <= |s| && (|t| == |s| ==> t == s)
    decreases |s| - i
  {
    if i >= |s| then s
    else if MergeableAt(s, i) then Pass(MergeAt(s, i), i + 1)
    else Pass(s, i + 1)
  }

  /** A pass merges siblings only, so it keeps what merges keep. */
  lemma {:induction false} PassDerived(orig: set<Region>, s: seq<Region>, i: nat)
    requires AllValidSet(orig) && Derived(orig, Elems(s))
    ensures Derived(orig, Elems(Pass(s, i)))
    decreases |s| - i
  {
    if i < |s| {
      if MergeableAt(s, i) {
        MergeAtMerges(s, i);
        DerivedMerge(orig, Elems(s), Elems(MergeAt(s, i)), s[i], s[i + 1]);
        PassDerived(orig, MergeAt(s, i), i + 1);
      } else {
        PassDerived(orig, s, i + 1);
      }
    }
  }

  /** A pass that merges nothing found nothing to merge. */
  lemma {:induction false} PassComplete(s: seq<Region>, i: nat)
    requires |Pass(s, i)| == |s|
    ensures forall k :: i <= k < |s| ==> !MergeableAt(s, k)
    decreases |s| - i
  {
    if i < |s| {
      PassComplete(s, i + 1);
    }
  }

  lemma {:induction false} NothingToMerge(s: seq<Region>, i: nat)
    requires forall k :: i <= k < |s| ==> !MergeableAt(s, k)
    ensures Pass(s, i) == s
    decreases |s| - i
  {
    if i < |s| {
      NothingToMerge(s, i + 1);
    }
  }

  // ---------- sorting again after one merge ----------

  lemma {:induction false} InnerStays(s: seq<Region>, i: nat, j: nat)
    requires i < j <= |s| && forall q :: j <= q < |s| ==> !IsBefore(s[q], s[i])
    ensures Inner(s, i, j) == s
    decreases |s| - j
  {
    if j < |s| {
      InnerStays(s, i, j + 1);
    }
  }

  /** Regions that are in place are passed over. */
  lemma {:induction false} OuterSkips(s: seq<Region>, i: nat, k: nat)
    requires i <= k && Front(s, k)
    ensures Outer(s, i) == Outer(s, k)
    decreases k - i
  {
    if i < k {
      if i + 1 < |s| {
        InnerStays(s, i, i + 1);
      }
      OuterSkips(s, i + 1, k);
    }
  }

  /** Where the sort puts a region that comes too early in an otherwise sorted table. */
  function Insert(p: Region, table: seq<Region>): seq<Region> {
    if table == [] || !IsBefore(table[0], p) then [p] + table
    else [table[0]] + Insert(p, table[1..])
  }

  lemma {:induction false} OuterInserts(front: seq<Region>, p: Region, table: seq<Region>)
    requires Sorted(table)
    ensures Outer(front + [p] + table, |front|) == front + Insert(p, table)
    decreases |table|
  {
    var s, i := front + [p] + table, |front|;
    if table == [] {
      assert Insert(p, table) == [p];
    } else if IsBefore(table[0], p) {
      var t, rest := table[0], table[1..];
      var s1 := (front + [t]) + [p] + rest;
      assert Swapped(s, i, i + 1) == s1;
      forall q | i + 2 <= q < |s1| ensures !IsBefore(s1[q], s1[i]) {
        assert s1[q] == table[q - i - 1] && !IsBefore(table[q - i - 1], table[0]);
      }
      InnerStays(s1, i, i + 2);
      assert Inner(s, i, i + 1) == s1;
      OuterInserts(front + [t], p, rest);
      assert (front + [t]) + Insert(p, rest) == front + ([t] + Insert(p, rest));
    } else {
      forall a, b | i <= a < b < |s| ensures !IsBefore(s[b], s[a]) {
        assert s[b] == table[b - i - 1] && !IsBefore(table[b - i - 1], table[0]);
        if a > i {
          assert s[a] == table[a - i - 1];
        }
      }
      OuterOnSorted(s, i);
      assert s == front + ([p] + table);
    }
  }

  lemma {:induction false} OuterOnSorted(s: seq<Region>, i: nat)
    requires forall a, b :: i <= a < b < |s| ==> !IsBefore(s[b], s[a])
    ensures Outer(s, i) == s
    decreases |s| - i
  {
    if i + 1 < |s| {
      InnerStays(s, i, i + 1);
      OuterOnSorted(s, i + 1);
    }
  }

  lemma SortAfterMerge(s: seq<Region>, i: nat)
    requires Sorted(s) && MergeableAt(s, i)
    ensures ExchangeSort(MergeAt(s, i)) == s[..i] + Insert(Parent(s[i]), s[i + 2..])
  {
    var t := MergeAt(s, i);
    forall p, q | 0 <= p < i && p < q < |t| ensures !IsBefore(t[q], t[p]) {
      assert t[p] == s[p];
      if q == i {
        assert !IsBefore(s[i], s[p]);
      } else {
        assert t[q] == if q < i then s[q] else s[q + 1];
      }
    }
    OuterSkips(t, 0, i);
    assert Sorted(s[i + 2..]);
    OuterInserts(s[..i], Parent(s[i]), s[i + 2..]);
  }

  // ---------- which region decides after one merge ----------

  lemma {:induction false} DeciderAppend(front: seq<Region>, rest: seq<Region>, a: nat)
    ensures Decider(front + rest, a) == if Find(front, a) < |front| then Decider(front, a) else Decider(rest, a)
    decreases |front|
  {
    if front == [] {
      assert front + rest == rest;
    } else {
      assert front == [front[0]] + front[1..];
      assert front + rest == [front[0]] + (front[1..] + rest);
      DeciderHead(front[0], front[1..], a);
      DeciderHead(front[0], front[1..] + rest, a);
      DeciderAppend(front[1..], rest, a);
    }
  }

  lemma {:induction false} InsertedDecider(p: Region, table: seq<Region>, a: nat)
    requires Sorted(table)
    ensures var e := Find(table, a);
      Decider(Insert(p, table), a)
      == if Contains(p, a) && (e == |table| || !IsBefore(table[e], p)) then Some(p) else Decider(table, a)
    decreases |table|
  {
    DeciderHead(p, table, a);
    if table != [] {
      var t, rest := table[0], table[1..];
      assert table == [t] + rest;
      DeciderHead(t, rest, a);
      if IsBefore(t, p) {
        DeciderHead(t, Insert(p, rest), a);
        InsertedDecider(p, rest, a);
      } else {
        forall e | 0 <= e < |table| ensures !IsBefore(table[e], p) {
          assert e > 0 ==> !IsBefore(table[e], table[0]);
        }
      }
    }
  }

  /** Behind two siblings only a copy of the right one's extent goes before their parent and shares
      an address with it. */
  lemma OnlyRivals(s: seq<Region>, i: nat, k: nat, a: nat)
    requires Sorted(s) && AllValid(s) && MergeableAt(s, i) && i + 2 <= k < |s| && a < ADDRESSES
    requires Contains(Parent(s[i]), a) && Contains(s[k], a) && IsBefore(s[k], Parent(s[i]))
    ensures Rivalled(s, i, a)
  {
    var u, v, r, p := s[i], s[i + 1], s[k], Parent(s[i]);
    ParentExtent(u, v);
    assert !IsBefore(r, v) && !IsBefore(r, s[i + 2]) && !IsBefore(s[i + 2], v);
    if r.order == u.order {
      var w := if Contains(u, a) then u else v;
      Nested(r, w, a);
    } else {
      Nested(r, p, a);
    }
  }

  /** The right sibling covers the address and is followed by a region of its own extent. */
  predicate Rivalled(s: seq<Region>, i: nat, a: nat)
    requires MergeableAt(s, i)
  {
    Contains(s[i + 1], a) && i + 2 < |s| && SameExtent(s[i + 1], s[i + 2])
  }

  lemma DeciderBefore(s: seq<Region>, i: nat, a: nat)
    requires MergeableAt(s, i)
    ensures Decider(s, a)
      == if Find(s[..i], a) < i then Decider(s[..i], a)
         else if Contains(s[i], a) then Some(s[i])
         else if Contains(s[i + 1], a) then Some(s[i + 1])
         else Decider(s[i + 2..], a)
  {
    var front, rest := s[..i], s[i + 2..];
    assert s == front + ([s[i]] + ([s[i + 1]] + rest));
    DeciderAppend(front, [s[i]] + ([s[i + 1]] + rest), a);
    DeciderHead(s[i], [s[i + 1]] + rest, a);
    DeciderHead(s[i + 1], rest, a);
  }

  lemma FirstBehind(s: seq<Region>, i: nat, a: nat)
    requires Sorted(s) && AllValid(s) && MergeableAt(s, i) && a < ADDRESSES && Contains(Parent(s[i]), a)
    ensures var rest := s[i + 2..];
      var e := Find(rest, a);
      && (e < |rest| && IsBefore(rest[e], Parent(s[i])) <==> Rivalled(s, i, a))
      && (Rivalled(s, i, a) ==> Decider(rest, a) == Some(s[i + 2]))
  {
    var rest := s[i + 2..];
    var e := Find(rest, a);
    if Rivalled(s, i, a) {
      assert rest[0] == s[i + 2] && Contains(rest[0], a);
    }
    if e < |rest| && IsBefore(rest[e], Parent(s[i])) {
      OnlyRivals(s, i, i + 2 + e, a);
    }
  }

  lemma DeciderAfter(s: seq<Region>, i: nat, a: nat)
    requires Sorted(s) && AllValid(s) && MergeableAt(s, i) && a < ADDRESSES
    ensures Decider(ExchangeSort(MergeAt(s, i)), a)
      == if Find(s[..i], a) < i then Decider(s[..i], a)
         else if !Contains(Parent(s[i]), a) then Decider(s[i + 2..], a)
         else Some(if Rivalled(s, i, a) then s[i + 2] else Parent(s[i]))
  {
    var rest := s[i + 2..];
    SortAfterMerge(s, i);
    DeciderAppend(s[..i], Insert(Parent(s[i]), rest), a);
    assert Sorted(rest);
    InsertedDecider(Parent(s[i]), rest, a);
    if Contains(Parent(s[i]), a) {
      FirstBehind(s, i, a);
    }
  }

  /** Where the first match lies, by which part of the table holds it. */
  lemma FirstMatch(s: seq<Region>, i: nat, a: nat)
    requires i + 1 < |s|
    ensures Find(s, a) == i + 1 <==> Find(s[..i], a) == i && !Contains(s[i], a) && Contains(s[i + 1], a)
  {
    var f := Find(s[..i], a);
    assert forall k :: 0 <= k < i ==> s[..i][k] == s[k];
    if f < i {
      assert Contains(s[f], a);
    }
  }

  /** The right sibling decides the address and is followed by a region of its own extent with other
      flags. */
  predicate Exposed(s: seq<Region>, i: nat, a: nat)
    requires MergeableAt(s, i)
  {
    Find(s, a) == i + 1 && Rivalled(s, i, a) && s[i + 1].flags != s[i + 2].flags
  }

  /** One merge followed by the sort keeps the flags that decide an address, exactly: unless the
      merge takes the right sibling away from in front of a region of the same extent. */
  lemma MergeKeepsFlagsExactly(s: seq<Region>, i: nat, a: nat)
    requires Sorted(s) && AllValid(s) && MergeableAt(s, i) && a < ADDRESSES
    ensures FlagsAt(ExchangeSort(MergeAt(s, i)), a)
      == if Exposed(s, i, a) then Some(s[i + 2].flags) else FlagsAt(s, a)
    ensures FlagsAt(ExchangeSort(MergeAt(s, i)), a) == FlagsAt(s, a) <==> !Exposed(s, i, a)
  {
    DeciderBefore(s, i, a);
    DeciderAfter(s, i, a);
    FirstMatch(s, i, a);
    ParentExtent(s[i], s[i + 1]);
    if Rivalled(s, i, a) {
      OneSide(s[i], s[i + 1], a);
    }
  }

  lemma OneSide(u: Region, v: Region, a: nat)
    requires Valid(u) && Valid(v) && Siblings(u, v) && Contains(v, a)
    ensures !Contains(u, a)
  {
    ValidEnds(v);
  }
}
