/** The root domain's region table: sorted and merged in place as regions are added. */
module RootDomain {
  import opened PowersOfTwo
  import opened Domain
  import opened DomainMerge
  import opened RegionSort
  import opened RegionMerge
  import opened RegionSettle
  import opened RootTable

  class Root {
    const regions: array<Region>
    var count: nat
    var boot: Boot
    // where the first region of order 0 is, at which every walk stops
    ghost var shown: nat

    ghost predicate Ready()
      reads this, regions
    {
      && regions.Length == ROOT_REGION_MAX + 1
      && shown <= count <= ROOT_REGION_MAX
      && regions[shown].order == 0
      && forall k :: 0 <= k < shown ==> regions[k].order > 0
    }

    ghost function Contents(): seq<Region>
      reads this, regions
      requires Ready()
    {
      regions[..shown]
    }

    ghost function Snapshot(): Table
      reads this, regions
      requires Ready()
    {
      Table(Contents(), count - shown)
    }

    constructor (b: Boot)
      ensures Ready() && Snapshot() == Table([], 0) && boot == b && fresh(regions)
    {
      regions := new Region[ROOT_REGION_MAX + 1](_ => Region(0, 0, 0));
      count := 0;
      boot := b;
      shown := 0;
    }

    /** The number of regions before the first one of order 0. */
    method Visible() returns (n: nat)
      requires Ready()
      ensures n == shown
    {
      n := 0;
      while regions[n].order != 0
        invariant 0 <= n <= shown
        decreases shown - n
      {
        n := n + 1;
      }
    }

    method Check(a: nat, mode: nat, access: bv64) returns (ok: bool)
      requires Ready()
      ensures ok == Allowed(Contents(), a, mode, access)
    {
      var n := Visible();
      ok := CheckAddr(regions[..n], a, mode, access);
    }

    method Swap(i: nat, j: nat)
      requires Ready() && i < j < shown
      modifies regions
      ensures Ready() && Contents() == Swapped(old(Contents()), i, j)
    {
      var t := regions[i];
      regions[i] := regions[j];
      regions[j] := t;
    }

    /** Compare position `i` with every later one and exchange where that goes before. */
    method Select(i: nat, n: nat)
      requires Ready() && i < n == shown
      modifies regions
      ensures Ready() && Contents() == Inner(old(Contents()), i, i + 1)
    {
      var j := i + 1;
      while j < n
        invariant Ready() && i < j <= n
        invariant Inner(Contents(), i, j) == Inner(old(Contents()), i, i + 1)
      {
        if IsBefore(regions[j], regions[i]) {
          Swap(i, j);
        }
        j := j + 1;
      }
    }

    /** Exchange sort of the first `n` regions, smallest first. */
    method Sort(n: nat)
      requires Ready() && n == shown
      modifies regions
      ensures Ready()
      ensures Contents() == ExchangeSort(old(Contents()))
      ensures Sorted(Contents())
      ensures multiset(Contents()) == multiset(old(Contents()))
    {
      var i := 0;
      while i + 1 < n
        invariant Ready() && 0 <= i <= n
        invariant Outer(Contents(), i) == ExchangeSort(old(Contents()))
      {
        Select(i, n);
        i := i + 1;
      }
      OuterSorts(old(Contents()), 0);
    }

    /** The hart mask, validity of every region, the sort, then the boot-address checks. The loop that
        is meant to drop covered regions starts where the sort stopped and so never runs. */
    method Sanitize() returns (code: Code)
      requires Ready()
      modifies regions
      ensures Ready() && Outcome(code, Contents()) == Sanitized(old(Contents()), boot)
    {
      if boot.possible.None? || !(boot.possible.value <= boot.known) {
        return Einval;
      }
      var i := 0;
      while regions[i].order != 0
        invariant 0 <= i <= shown
        invariant forall j :: 0 <= j < i ==> Valid(regions[j])
        decreases shown - i
      {
        if !Valid(regions[i]) {
          return Einval;
        }
        i := i + 1;
      }
      var n := Visible();
      if !boot.fwInited {
        return Einval;
      }
      assert Passes(Contents(), boot);
      Sort(n);
      if boot.mode != PRV_S && boot.mode != PRV_U {
        return Einval;
      }
      var ok := Check(boot.addr, boot.mode, ACCESS_EXECUTE);
      code := if ok then Ok else Einval;
    }

    /** Move everything behind position `at` down by one, up to the first region of order 0. */
    method Shift(at: nat)
      requires Ready() && at < shown
      modifies regions
      ensures forall m :: 0 <= m < at ==> regions[m] == old(regions[m])
      ensures forall m :: at <= m < shown ==> regions[m] == old(regions[m + 1])
    {
      var k := at;
      while regions[k].order != 0
        invariant at <= k <= shown
        invariant forall m :: 0 <= m < at ==> regions[m] == old(regions[m])
        invariant forall m :: at <= m < k ==> regions[m] == old(regions[m + 1])
        invariant forall m :: k <= m <= shown ==> regions[m] == old(regions[m])
        decreases shown - k
      {
        regions[k] := regions[k + 1];
        k := k + 1;
      }
    }

    method CloseGap(at: nat)
      requires Ready() && at < shown
      modifies this`count, this`shown, regions
      ensures Ready() && Contents() == old(Contents())[..at] + old(Contents())[at + 1..]
      ensures count - shown == old(count - shown)
    {
      Shift(at);
      count := count - 1;
      shown := shown - 1;
    }

    /** Fold position `i + 1` into position `i` and close the gap. */
    method Fold(i: nat)
      requires Ready() && MergeableAt(Contents(), i)
      modifies this`count, this`shown, regions
      ensures Ready() && Contents() == MergeAt(old(Contents()), i)
      ensures count - shown == old(count - shown)
    {
      ghost var was := Contents();
      regions[i] := Parent(regions[i]);
      assert Contents() == was[i := Parent(was[i])];
      CloseGap(i + 1);
    }

    /** One pass over the table, merging siblings that are next to each other. */
    method MergePass() returns (merged: bool)
      requires Ready()
      modifies this`count, this`shown, regions
      ensures Ready() && Contents() == Pass(old(Contents()), 0)
      ensures merged <==> shown < old(shown)
      ensures count - shown == old(count - shown)
    {
      merged := false;
      var i := 0;
      while regions[i].order != 0
        invariant Ready() && 0 <= i <= shown <= old(shown)
        invariant Pass(Contents(), i) == Pass(old(Contents()), 0)
        invariant merged <==> shown < old(shown)
        invariant count - shown == old(count - shown)
        decreases shown - i
      {
        if regions[i + 1].order != 0 && regions[i].base % Pow2(regions[i].order + 1) == 0
           && regions[i].base + Pow2(regions[i].order) == regions[i + 1].base
           && regions[i].order == regions[i + 1].order && regions[i].flags == regions[i + 1].flags {
          Fold(i);
          merged := true;
        }
        i := i + 1;
      }
    }

    /** Sort and merge until nothing merges. */
    method SortAndMerge() returns (code: Code)
      requires Ready()
      modifies this`count, this`shown, regions
      ensures Ready() && Outcome(code, Contents()) == Settle(old(Contents()), boot)
      ensures count - shown == old(count - shown)
    {
      var merged := true;
      while merged
        invariant Ready() && count - shown == old(count - shown)
        invariant Settle(old(Contents()), boot)
          == if merged then Settle(Contents(), boot) else Outcome(Ok, Contents())
        decreases merged, shown
      {
        code := Sanitize();
        if code != Ok {
          return;
        }
        merged := MergePass();
      }
      code := Ok;
    }

    method HasCover(reg: Region) returns (found: bool)
      requires Ready()
      ensures found <==> Covered(Contents(), reg)
    {
      var i := 0;
      while regions[i].order != 0
        invariant 0 <= i <= shown
        invariant forall j :: 0 <= j < i ==> !(IsSubset(reg, regions[j]) && reg.flags == regions[j].flags)
        decreases shown - i
      {
        if IsSubset(reg, regions[i]) && reg.flags == regions[i].flags {
          assert IsSubset(reg, Contents()[i]) && reg.flags == Contents()[i].flags;
          return true;
        }
        i := i + 1;
      }
      found := false;
    }

    /** Add a region, then sort and merge until nothing merges. */
    method Add(reg: Region) returns (code: Code)
      requires Ready()
      modifies this`count, this`shown, regions
      ensures Ready() && Call(code, Snapshot()) == Added(old(Snapshot()), reg, boot)
    {
      if ROOT_REGION_MAX <= count {
        return Einval;
      }
      var covered := HasCover(reg);
      if covered {
        return Ok;
      }
      Append(reg);
      code := SortAndMerge();
    }

    /** Behind the last region added, which is not the last one seen if there was one of order 0. */
    method Append(reg: Region)
      requires Ready() && count < ROOT_REGION_MAX
      modifies this`count, this`shown, regions
      ensures Ready()
      ensures Snapshot() == if Seen(old(Snapshot()), reg) then Table(old(Contents()) + [reg], 0)
                            else Table(old(Contents()), old(count - shown) + 1)
    {
      regions[count] := reg;
      if shown == count && reg.order != 0 {
        shown := shown + 1;
      }
      count := count + 1;
      regions[count] := regions[count].(order := 0);
    }
  }
}
