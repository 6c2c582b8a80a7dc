/** Domain memory regions and the address checks made against them. */
module Domain {
  import opened PowersOfTwo
  import opened Wrappers

  const XLEN: nat := 64
  const ADDRESSES: nat := 0x1_0000_0000_0000_0000

  const PRV_U: nat := 0
  const PRV_S: nat := 1
  const PRV_M: nat := 3

  const ACCESS_READ: bv64 := 1
  const ACCESS_WRITE: bv64 := 2
  const ACCESS_EXECUTE: bv64 := 4
  const ACCESS_MMIO: bv64 := 8

  const M_ACCESS_MASK: bv64 := 0x7
  const SU_ACCESS_MASK: bv64 := 0x38
  const REGION_MMIO: bv64 := 0x8000_0000

  /** 2^order bytes from `base` on. */
  datatype Region = Region(base: nat, order: nat, flags: bv64)

  // ---------- regions ----------

  predicate Valid(r: Region) {
    && 3 <= r.order <= XLEN
    && r.base < ADDRESSES
    && (r.order == XLEN ==> r.base == 0)
    && r.base % Pow2(r.order) == 0
  }

  /** The containment test of every region walk. */
  predicate Contains(r: Region, a: nat) {
    r.base <= a && (r.order < XLEN ==> a <= r.base + (Pow2(r.order) - 1))
  }

  predicate IsSubset(a: Region, b: Region) {
    var aEnd := a.base + (Pow2(a.order) - 1);
    var bEnd := b.base + (Pow2(b.order) - 1);
    b.base <= a.base && a.base < bEnd && b.base < aEnd && aEnd <= bEnd
  }

  predicate IsBefore(a: Region, b: Region) {
    a.order < b.order || (a.order == b.order && a.base < b.base)
  }

  predicate AllValid(regs: seq<Region>) {
    forall i :: 0 <= i < |regs| ==> Valid(regs[i])
  }

  /** Smallest first. */
  predicate Sorted(regs: seq<Region>) {
    forall i, j :: 0 <= i < j < |regs| ==> !IsBefore(regs[j], regs[i])
  }

  lemma Whole()
    ensures Pow2(XLEN) == ADDRESSES
  {
    assert Pow2(8) == 0x100;
    assert Pow2(16) == 0x1_0000 by { Pow2Add(8, 8); }
    assert Pow2(32) == 0x1_0000_0000 by { Pow2Add(16, 16); }
    Pow2Add(32, 32);
  }

  /** A valid region never wraps around the top of the address space. */
  lemma ValidEnds(r: Region)
    requires Valid(r)
    ensures r.base + Pow2(r.order) <= ADDRESSES
    ensures Divides(Pow2(r.order), r.base) && Divides(Pow2(r.order), ADDRESSES)
    ensures forall a: nat :: a < ADDRESSES ==> (Contains(r, a) <==> r.base <= a < r.base + Pow2(r.order))
    ensures Pow2(r.order) >= 8
  {
    Whole();
    DividesMod(Pow2(r.order), r.base);
    PowersDivide(r.order, XLEN);
    Pow2Monotone(3, r.order);
    assert Pow2(3) == 8;
    DividesSum(Pow2(r.order), r.base, Pow2(r.order)) by { assert Pow2(r.order) == Pow2(r.order) * 1; }
    if r.base + Pow2(r.order) > ADDRESSES {
      MultiplesApart(Pow2(r.order), ADDRESSES, r.base);
    }
  }

  /** Power-of-two regions that share an address are nested, the smaller in the larger. */
  lemma Nested(a: Region, b: Region, x: nat)
    requires Valid(a) && Valid(b) && a.order <= b.order && x < ADDRESSES && Contains(a, x) && Contains(b, x)
    ensures b.base <= a.base && a.base + Pow2(a.order) <= b.base + Pow2(b.order)
    ensures IsSubset(a, b)
    ensures a.order == b.order ==> a.base == b.base
  {
    ValidEnds(a);
    ValidEnds(b);
    var m, n := Pow2(a.order), Pow2(b.order);
    PowersDivide(a.order, b.order);
    DividesTrans(m, n, b.base);
    MultiplesApart(m, b.base, a.base);
    DividesSum(m, b.base, n);
    assert Divides(m, m) by { assert m == m * 1; }
    DividesSum(m, a.base, m);
    MultiplesApart(m, a.base + m, b.base + n);
  }

  /** First region that holds `a`, or the number of regions. */
  function Find(regs: seq<Region>, a: nat): (i: nat)
    ensures i <= |regs|
    ensures i < |regs| ==> Contains(regs[i], a)
    ensures forall j :: 0 <= j < i ==> !Contains(regs[j], a)
  {
    if regs == [] then 0
    else if Contains(regs[0], a) then 0
    else 1 + Find(regs[1..], a)
  }

  method FindRegion(regs: seq<Region>, a: nat) returns (i: nat)
    ensures i == Find(regs, a)
  {
    i := 0;
    while i < |regs|
      invariant 0 <= i <= |regs|
      invariant forall j :: 0 <= j < i ==> !Contains(regs[j], a)
    {
      if Contains(regs[i], a) {
        return;
      }
      i := i + 1;
    }
  }

  // ---------- checking one address ----------

  function Wanted(access: bv64): bv64 {
    (if access & ACCESS_READ != 0 then 1 else 0)
    | (if access & ACCESS_WRITE != 0 then 2 else 0)
    | (if access & ACCESS_EXECUTE != 0 then 4 else 0)
  }

  function Granted(flags: bv64, mode: nat): bv64 {
    if mode == PRV_M then flags & M_ACCESS_MASK else (flags & SU_ACCESS_MASK) >> 3
  }

  predicate Permits(flags: bv64, mode: nat, access: bv64) {
    && ((access & ACCESS_MMIO != 0) == (flags & REGION_MMIO != 0))
    && Granted(flags, mode) & Wanted(access) == Wanted(access)
  }

  /** The first matching region decides; with none, only M-mode may pass. */
  predicate Allowed(regs: seq<Region>, a: nat, mode: nat, access: bv64) {
    var i := Find(regs, a);
    if i < |regs| then Permits(regs[i].flags, mode, access) else mode == PRV_M
  }

  /** The permission bits one by one: reads, writes and executions need the region's first, second and
      third bit in M-mode, and its fourth, fifth and sixth otherwise; the bus must agree. */
  predicate GrantsEach(flags: bv64, mode: nat, access: bv64) {
    && (access & 0x1 != 0 ==> flags & (if mode == PRV_M then 0x01 else 0x08) != 0)
    && (access & 0x2 != 0 ==> flags & (if mode == PRV_M then 0x02 else 0x10) != 0)
    && (access & 0x4 != 0 ==> flags & (if mode == PRV_M then 0x04 else 0x20) != 0)
  }

  lemma PermitsExactly(flags: bv64, mode: nat, access: bv64)
    ensures Permits(flags, mode, access)
      <==> GrantsEach(flags, mode, access) && (access & 0x8 != 0 <==> flags & 0x8000_0000 != 0)
  {
    if mode == PRV_M {
      GrantedM(flags, access);
    } else {
      GrantedSU(flags, access);
    }
  }

  lemma GrantedM(flags: bv64, access: bv64)
    ensures Granted(flags, PRV_M) & Wanted(access) == Wanted(access) <==> GrantsEach(flags, PRV_M, access)
  {
  }

  lemma GrantedSU(flags: bv64, access: bv64)
    ensures Granted(flags, PRV_S) & Wanted(access) == Wanted(access) <==> GrantsEach(flags, PRV_S, access)
  {
  }

  /** An address check is decided by the first region that holds the address, bit by bit; without one
      only M-mode passes. */
  lemma AllowedExactly(regs: seq<Region>, a: nat, mode: nat, access: bv64)
    ensures (forall j :: 0 <= j < |regs| ==> !Contains(regs[j], a)) ==>
      (Allowed(regs, a, mode, access) <==> mode == PRV_M)
    ensures forall i ::
      0 <= i < |regs| && Contains(regs[i], a) && (forall j :: 0 <= j < i ==> !Contains(regs[j], a)) ==>
        (Allowed(regs, a, mode, access)
         <==> GrantsEach(regs[i].flags, mode, access) && (access & 0x8 != 0 <==> regs[i].flags & 0x8000_0000 != 0))
  {
    var d := Find(regs, a);
    if d < |regs| {
      PermitsExactly(regs[d].flags, mode, access);
    }
  }

  method CheckAddr(regs: seq<Region>, a: nat, mode: nat, access: bv64) returns (ok: bool)
    ensures ok == Allowed(regs, a, mode, access)
  {
    var rwx: bv64 := 0;
    if access & ACCESS_READ != 0 { rwx := rwx | 1; }
    if access & ACCESS_WRITE != 0 { rwx := rwx | 2; }
    if access & ACCESS_EXECUTE != 0 { rwx := rwx | 4; }
    var mmio := access & ACCESS_MMIO != 0;
    var i := 0;
    while i < |regs|
      invariant 0 <= i <= |regs|
      invariant forall j :: 0 <= j < i ==> !Contains(regs[j], a)
    {
      var rflags := regs[i].flags;
      var rrwx := if mode == PRV_M then rflags & M_ACCESS_MASK else (rflags & SU_ACCESS_MASK) >> 3;
      if Contains(regs[i], a) {
        assert Find(regs, a) == i;
        var rmmio := rflags & REGION_MMIO != 0;
        if mmio != rmmio {
          return false;
        }
        return rrwx & rwx == rwx;
      }
      i := i + 1;
    }
    assert Find(regs, a) == |regs|;
    ok := mode == PRV_M;
  }

  // ---------- the next smaller region ----------

  predicate Candidate(regs: seq<Region>, i: nat, a: nat, j: int)
    requires i < |regs|
  {
    0 <= j < |regs| && j != i && regs[j].base > a && IsSubset(regs[j], regs[i])
  }

  /** Among the first `n` regions, the one inside region `i` that starts soonest after `a`. */
  function NextSubset(regs: seq<Region>, i: nat, a: nat, n: nat): (r: Option<nat>)
    requires i < |regs| && n <= |regs|
    ensures r.None? ==> forall j :: 0 <= j < n ==> !Candidate(regs, i, a, j)
    ensures r.Some? ==> r.value < n && Candidate(regs, i, a, r.value)
    ensures r.Some? ==> forall j :: 0 <= j < n && Candidate(regs, i, a, j) ==> regs[r.value].base <= regs[j].base
  {
    if n == 0 then None
    else
      var r := NextSubset(regs, i, a, n - 1);
      var k := n - 1;
      if !Candidate(regs, i, a, k) then r
      else if r.None? || regs[k].base < regs[r.value].base
           || (regs[k].base == regs[r.value].base && regs[k].order < regs[r.value].order) then Some(k)
      else r
  }

  method FindNextSubset(regs: seq<Region>, i: nat, a: nat) returns (r: Option<nat>)
    requires i < |regs|
    ensures r == NextSubset(regs, i, a, |regs|)
  {
    r := None;
    var k := 0;
    while k < |regs|
      invariant 0 <= k <= |regs|
      invariant r == NextSubset(regs, i, a, k)
    {
      if !(k == i || regs[k].base <= a || !IsSubset(regs[k], regs[i])) {
        if r.None? || regs[k].base < regs[r.value].base
           || (regs[k].base == regs[r.value].base && regs[k].order < regs[r.value].order) {
          r := Some(k);
        }
      }
      k := k + 1;
    }
  }
}
