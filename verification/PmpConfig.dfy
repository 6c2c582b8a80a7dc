/** Programming the PMP table from a domain's regions, and why the hardware then
    decides every access as the software check does. */
module PmpConfig {
  import opened PowersOfTwo
  import opened Domain
  import opened Pmp

  const REGION_ENF_PERMISSIONS: bv64 := 0x40
  const REGION_SU_READABLE: bv64 := 0x08
  const REGION_SU_WRITABLE: bv64 := 0x10
  const REGION_SU_EXECUTABLE: bv64 := 0x20

  datatype Code = Ok | Einval

  // ---------- one entry ----------

  function SetEntry(t: Table, n: nat, prot: bv64, base: nat, l: nat): (t': Table)
    requires WellShaped(t) && n < PMP_COUNT && PMP_SHIFT <= l <= XLEN
  {
    Table(t.cfg[n / 8 := WithByte(t.cfg[n / 8], Shift(n), Mode(prot, l))], t.addr[n := Encode(base, l)])
  }

  function GetEntry(t: Table, n: nat): (bv64, nat, nat)
    requires WellShaped(t) && n < PMP_COUNT
  {
    var (addr, l) := Decode(t.addr[n], Cfg(t, n));
    (Cfg(t, n), addr, l)
  }

  lemma ShiftIsShift(n: nat)
    ensures IsShift(Shift(n))
  {
  }

  /** Writing one packed byte is visible in that entry only. */
  lemma SetCfg(t: Table, n: nat, prot: bv64, base: nat, l: nat, m: nat)
    requires WellShaped(t) && n < PMP_COUNT && m < PMP_COUNT && Encodable(base, l)
    ensures WellShaped(SetEntry(t, n, prot, base, l))
    ensures Cfg(SetEntry(t, n, prot, base, l), m) == if m == n then Mode(prot, l) & 0xff else Cfg(t, m)
  {
    AddressRoundTrip(base, l, if l == PMP_SHIFT then PMP_A_NA4 else PMP_A_NAPOT);
    ShiftIsShift(n);
    ShiftIsShift(m);
    if m == n {
      SameByte(t.cfg[n / 8], Shift(n), Mode(prot, l));
    } else if m / 8 == n / 8 {
      ShiftsDiffer(m, n);
      OtherByte(t.cfg[n / 8], Shift(n), Mode(prot, l), Shift(m));
    }
  }

  /** Round trip with frame: reading an entry back gives base, length and permission bits as
      written, with the address-mode field for that length; every other entry reads as before. */
  lemma EntryRoundTrip(t: Table, n: nat, prot: bv64, base: nat, l: nat)
    requires WellShaped(t) && n < PMP_COUNT && Encodable(base, l)
    ensures WellShaped(SetEntry(t, n, prot, base, l))
    ensures var (p, a, k) := GetEntry(SetEntry(t, n, prot, base, l), n);
      && k == l && a == ClearLow(base, l) && (base % Pow2(l) == 0 ==> a == base)
      && p & !PMP_A == prot & 0xff & !PMP_A
      && p & PMP_A == (if l == PMP_SHIFT then PMP_A_NA4 else PMP_A_NAPOT)
    ensures forall m :: 0 <= m < PMP_COUNT && m != n ==> GetEntry(SetEntry(t, n, prot, base, l), m) == GetEntry(t, m)
  {
    var t' := SetEntry(t, n, prot, base, l);
    SetCfg(t, n, prot, base, l, n);
    ModeField(prot, l);
    AddressRoundTrip(base, l, Cfg(t', n));
    ClearLowAligned(base, l);
    forall m | 0 <= m < PMP_COUNT && m != n ensures GetEntry(t', m) == GetEntry(t, m) {
      SetCfg(t, n, prot, base, l, m);
    }
  }

  // ---------- matching ----------

  predicate NapotMatch(reg: nat, a: nat) {
    reg == ALL_ONES || var t := TrailingOnes(reg); a / Pow2(t + 3) == reg / Pow2(t + 1)
  }

  /** Does entry `n` match the byte at `a`? */
  predicate Match(t: Table, n: nat, a: nat)
    requires WellShaped(t) && n < PMP_COUNT
  {
    var mode := Cfg(t, n) & PMP_A;
    if mode == PMP_A_NAPOT then NapotMatch(t.addr[n], a)
    else if mode == PMP_A_NA4 then t.addr[n] == a / 4
    else if mode == PMP_A_TOR then (if n == 0 then 0 else t.addr[n - 1]) <= a / 4 < t.addr[n]
    else false
  }

  /** The lowest-numbered matching entry from `n` on, or the number of entries. */
  function FirstMatch(t: Table, a: nat, n: nat): (i: nat)
    requires WellShaped(t) && n <= PMP_COUNT
    ensures n <= i <= PMP_COUNT
    ensures i < PMP_COUNT ==> Match(t, i, a)
    ensures forall j :: n <= j < i ==> !Match(t, j, a)
    decreases PMP_COUNT - n
  {
    if n == PMP_COUNT || Match(t, n, a) then n else FirstMatch(t, a, n + 1)
  }

  /** A configuration byte grants every kind of access asked for. */
  predicate CfgGrants(cfg: bv64, access: bv64) {
    && (access & ACCESS_READ != 0 ==> cfg & PMP_R != 0)
    && (access & ACCESS_WRITE != 0 ==> cfg & PMP_W != 0)
    && (access & ACCESS_EXECUTE != 0 ==> cfg & PMP_X != 0)
  }

  /** An S- or U-mode access to one byte succeeds if the first match grants all of it. */
  predicate HardwareAllows(t: Table, a: nat, access: bv64)
    requires WellShaped(t)
  {
    var i := FirstMatch(t, a, 0);
    i < PMP_COUNT && CfgGrants(Cfg(t, i), access)
  }

  /** A NAPOT register matches exactly the bytes of the region it encodes. */
  lemma NapotExact(r: Region, a: nat)
    requires Valid(r) && a < ADDRESSES
    ensures NapotMatch(Encode(r.base, r.order), a) <==> Contains(r, a)
  {
    if r.order < XLEN {
      EncodeShape(r.base, r.order);
      var q := r.base / Pow2(r.order);
      ShapeMatches(Encode(r.base, r.order), q, r.order - 3, r.base, a);
      ValidEnds(r);
    }
  }

  lemma ShapeMatches(e: nat, q: nat, h: nat, base: nat, a: nat)
    requires e == q * Pow2(h + 1) + Pow2(h) - 1 && e < ALL_ONES
    requires base == q * Pow2(h + 3)
    ensures NapotMatch(e, a) <==> base <= a < base + Pow2(h + 3)
  {
    TrailingOnesOf(q, h);
    assert Pow2(h + 1) == 2 * Pow2(h);
    QuotientIs(e, Pow2(h + 1), q);
    QuotientIs(a, Pow2(h + 3), q);
  }

  // ---------- configuring a domain ----------

  function EntryFlags(flags: bv64): bv64 {
    (if flags & REGION_ENF_PERMISSIONS != 0 then PMP_L else 0)
    | (if flags & REGION_SU_READABLE != 0 then PMP_R else 0)
    | (if flags & REGION_SU_WRITABLE != 0 then PMP_W else 0)
    | (if flags & REGION_SU_EXECUTABLE != 0 then PMP_X else 0)
  }

  /** Each permission of S- and U-mode has its bit in the entry, and so has the enforcement in M-mode. */
  lemma EntryBits(flags: bv64, l: nat)
    ensures var cfg := Mode(EntryFlags(flags), l) & 0xff;
      && (cfg & PMP_R != 0 <==> flags & REGION_SU_READABLE != 0)
      && (cfg & PMP_W != 0 <==> flags & REGION_SU_WRITABLE != 0)
      && (cfg & PMP_X != 0 <==> flags & REGION_SU_EXECUTABLE != 0)
      && (cfg & PMP_L != 0 <==> flags & REGION_ENF_PERMISSIONS != 0)
  {
  }

  predicate Fits(r: Region, log2gran: nat, addrMax: nat) {
    log2gran <= r.order && r.base / 4 < addrMax
  }

  /** The regions that get an entry, in order, when `room` entries are left. */
  function Taken(regs: seq<Region>, room: nat, log2gran: nat, addrMax: nat): (p: seq<Region>)
    ensures |p| <= room
  {
    if regs == [] || room == 0 then []
    else if Fits(regs[0], log2gran, addrMax) then [regs[0]] + Taken(regs[1..], room - 1, log2gran, addrMax)
    else Taken(regs[1..], room, log2gran, addrMax)
  }

  /** The regions that get an entry are among those the hardware can express, and with room enough they
      are all of those. */
  lemma {:induction false} TakenExactly(regs: seq<Region>, room: nat, log2gran: nat, addrMax: nat)
    ensures forall r <- Taken(regs, room, log2gran, addrMax) ::
      r in regs && log2gran <= r.order && r.base / 4 < addrMax
    ensures |regs| <= room ==> forall r <- regs ::
      log2gran <= r.order && r.base / 4 < addrMax ==> r in Taken(regs, room, log2gran, addrMax)
  {
    if regs != [] && room > 0 {
      assert regs == [regs[0]] + regs[1..];
      TakenExactly(regs[1..], if Fits(regs[0], log2gran, addrMax) then room - 1 else room, log2gran, addrMax);
    }
  }

  lemma {:induction false} TakenAll(regs: seq<Region>, room: nat, log2gran: nat, addrMax: nat)
    requires |regs| <= room && forall i :: 0 <= i < |regs| ==> Fits(regs[i], log2gran, addrMax)
    ensures Taken(regs, room, log2gran, addrMax) == regs
  {
    if regs != [] {
      TakenAll(regs[1..], room - 1, log2gran, addrMax);
    }
  }

  /** Entry `k` holds the region. */
  predicate Holds(t: Table, k: nat, r: Region)
    requires WellShaped(t) && k < PMP_COUNT && Valid(r)
  {
    t.addr[k] == Encode(r.base, r.order) && Cfg(t, k) == Mode(EntryFlags(r.flags), r.order) & 0xff
  }

  /** The first |p| entries hold the regions `p`; the others are off. */
  ghost predicate Programmed(t: Table, p: seq<Region>) {
    && WellShaped(t) && |p| <= PMP_COUNT && AllValid(p)
    && (forall k :: 0 <= k < |p| ==> Holds(t, k, p[k]))
    && (forall k :: |p| <= k < PMP_COUNT ==> Cfg(t, k) & PMP_A == 0)
  }

  /** Writing entry `n` changes that entry only. */
  lemma SetOne(t: Table, n: nat, prot: bv64, base: nat, l: nat, k: nat)
    requires WellShaped(t) && n < PMP_COUNT && k < PMP_COUNT && Encodable(base, l)
    ensures var u := SetEntry(t, n, prot, base, l);
      && WellShaped(u)
      && u.addr[k] == (if k == n then Encode(base, l) else t.addr[k])
      && Cfg(u, k) == if k == n then Mode(prot, l) & 0xff else Cfg(t, k)
  {
    SetCfg(t, n, prot, base, l, k);
  }

  /** Entry `n` is the only one in which the tables differ, and it holds `r`. */
  lemma HoldsNext(t: Table, u: Table, p: seq<Region>, r: Region)
    requires Programmed(t, p) && |p| < PMP_COUNT && Valid(r) && WellShaped(u) && Holds(u, |p|, r)
    requires forall k :: 0 <= k < PMP_COUNT && k != |p| ==> u.addr[k] == t.addr[k] && Cfg(u, k) == Cfg(t, k)
    ensures Programmed(u, p + [r])
  {
    var q := p + [r];
    forall k | 0 <= k < |q| ensures Valid(q[k]) && Holds(u, k, q[k]) {
      if k < |p| {
        assert q[k] == p[k] && Holds(t, k, p[k]);
      }
    }
  }

  lemma ProgramNext(t: Table, p: seq<Region>, r: Region)
    requires Programmed(t, p) && |p| < PMP_COUNT && Valid(r)
    ensures Programmed(SetEntry(t, |p|, EntryFlags(r.flags), r.base, r.order), p + [r])
  {
    var u := SetEntry(t, |p|, EntryFlags(r.flags), r.base, r.order);
    SetOne(t, |p|, EntryFlags(r.flags), r.base, r.order, |p|);
    forall k | 0 <= k < PMP_COUNT && k != |p| ensures u.addr[k] == t.addr[k] && Cfg(u, k) == Cfg(t, k) {
      SetOne(t, |p|, EntryFlags(r.flags), r.base, r.order, k);
    }
    HoldsNext(t, u, p, r);
  }

  lemma MatchIsContains(t: Table, p: seq<Region>, k: nat, a: nat)
    requires Programmed(t, p) && k < PMP_COUNT && a < ADDRESSES
    ensures Match(t, k, a) <==> k < |p| && Contains(p[k], a)
  {
    if k < |p| {
      ModeField(EntryFlags(p[k].flags), p[k].order);
      NapotExact(p[k], a);
    }
  }

  lemma FirstMatchIsFind(t: Table, p: seq<Region>, a: nat)
    requires Programmed(t, p) && a < ADDRESSES
    ensures FirstMatch(t, a, 0) == if Find(p, a) < |p| then Find(p, a) else PMP_COUNT
  {
    var i, j := FirstMatch(t, a, 0), Find(p, a);
    forall k | 0 <= k < PMP_COUNT ensures Match(t, k, a) <==> k < |p| && Contains(p[k], a) {
      MatchIsContains(t, p, k, a);
    }
    if j < |p| { assert Match(t, j, a); }
  }

  /** The software check with the MMIO attribute of the deciding region taken as given. */
  predicate AllowedAnyBus(regs: seq<Region>, a: nat, access: bv64) {
    var i := Find(regs, a);
    i < |regs| && GrantsEach(regs[i].flags, PRV_S, access)
  }

  /** That is the ordinary check, asked with the region's own MMIO bit. */
  lemma AnyBusIsAllowed(regs: seq<Region>, a: nat, mode: nat, access: bv64)
    requires mode == PRV_S || mode == PRV_U
    ensures AllowedAnyBus(regs, a, access)
            <==> Allowed(regs, a, mode, access & !ACCESS_MMIO) || Allowed(regs, a, mode, access | ACCESS_MMIO)
  {
    var i := Find(regs, a);
    if i < |regs| { PermitsBus(regs[i].flags, mode, access); }
  }

  lemma PermitsBus(flags: bv64, mode: nat, access: bv64)
    requires mode == PRV_S || mode == PRV_U
    ensures GrantsEach(flags, PRV_S, access)
            <==> Permits(flags, mode, access & !ACCESS_MMIO) || Permits(flags, mode, access | ACCESS_MMIO)
  {
    BusBits(access);
    BusAnswer(flags, mode, access, access & !ACCESS_MMIO, false);
    BusAnswer(flags, mode, access, access | ACCESS_MMIO, true);
  }

  lemma BusAnswer(flags: bv64, mode: nat, access: bv64, other: bv64, on: bool)
    requires mode != PRV_M && (other & 8 != 0 <==> on)
    requires other & 1 == access & 1 && other & 2 == access & 2 && other & 4 == access & 4
    ensures Permits(flags, mode, other) <==> GrantsEach(flags, PRV_S, access) && (on <==> flags & 0x8000_0000 != 0)
  {
    PermitsExactly(flags, mode, other);
  }

  lemma BusBits(access: bv64)
    ensures var on, off := access | ACCESS_MMIO, access & !ACCESS_MMIO;
      && on & 1 == off & 1 == access & 1 && on & 2 == off & 2 == access & 2 && on & 4 == off & 4 == access & 4
      && on & 8 != 0 && off & 8 == 0
  {
  }

  /** An entry is locked, and so enforced in M-mode, exactly if its region asks for it; its permission
      bits are those of S- and U-mode. */
  lemma LockedExactly(t: Table, p: seq<Region>, k: nat)
    requires Programmed(t, p) && k < |p|
    ensures Cfg(t, k) & PMP_L != 0 <==> p[k].flags & 0x40 != 0
    ensures Cfg(t, k) & PMP_R != 0 <==> p[k].flags & 0x08 != 0
    ensures Cfg(t, k) & PMP_W != 0 <==> p[k].flags & 0x10 != 0
    ensures Cfg(t, k) & PMP_X != 0 <==> p[k].flags & 0x20 != 0
  {
    assert Holds(t, k, p[k]);
    EntryBits(p[k].flags, p[k].order);
  }

  lemma SameGrants(cfg: bv64, flags: bv64, access: bv64)
    requires cfg & PMP_R != 0 <==> flags & 0x08 != 0
    requires cfg & PMP_W != 0 <==> flags & 0x10 != 0
    requires cfg & PMP_X != 0 <==> flags & 0x20 != 0
    ensures CfgGrants(cfg, access) <==> GrantsEach(flags, PRV_S, access)
  {
  }

  /** A programmed table grants a byte access exactly when the regions do. */
  lemma TableRefines(t: Table, p: seq<Region>, a: nat, access: bv64)
    requires Programmed(t, p) && a < ADDRESSES
    ensures HardwareAllows(t, a, access) <==> AllowedAnyBus(p, a, access)
  {
    FirstMatchIsFind(t, p, a);
    var i := Find(p, a);
    if i < |p| {
      LockedExactly(t, p, i);
      SameGrants(Cfg(t, i), p[i].flags, access);
    }
  }

  lemma NotNot(m: bv64)
    ensures !!m == m
  {
  }

  /** Replace one byte of a configuration word. */
  method InsertByte(w: bv64, s: bv64, b: bv64) returns (pmpcfg: bv64)
    requires s <= 56
    ensures pmpcfg == WithByte(w, s, b)
  {
    var cfgmask: bv64 := !(0xff << s);
    NotNot(0xff << s);
    pmpcfg := w & cfgmask;
    pmpcfg := pmpcfg | ((b << s) & !cfgmask);
  }

  /** Replace the configuration byte of entry `n` in its word. */
  method PackCfg(w: bv64, n: nat, prot: bv64, log2len: nat) returns (pmpcfg: bv64)
    ensures pmpcfg == WithByte(w, Shift(n), Mode(prot, log2len))
  {
    var p := prot & !PMP_A;
    p := p | (if log2len == PMP_SHIFT then PMP_A_NA4 else PMP_A_NAPOT);
    pmpcfg := InsertByte(w, Shift(n), p);
  }

  method PackAddr(base: nat, log2len: nat) returns (pmpaddr: nat)
    requires PMP_SHIFT <= log2len <= XLEN
    ensures pmpaddr == Encode(base, log2len)
  {
    if log2len == PMP_SHIFT {
      return base / 4;
    }
    if log2len == XLEN {
      return ALL_ONES;
    }
    var addrmask := Pow2(log2len - PMP_SHIFT) - 1;
    pmpaddr := ClearLow(base / 4, log2len - PMP_SHIFT);
    pmpaddr := pmpaddr + addrmask / 2;
  }

  method UnpackAddr(reg: nat, prot: bv64) returns (base: nat, log2len: nat)
    requires reg < ADDRESSES
    ensures (base, log2len) == Decode(reg, prot)
  {
    if prot & PMP_A != PMP_A_NAPOT {
      return reg * 4 % ADDRESSES, PMP_SHIFT;
    }
    if reg == ALL_ONES {
      return 0, XLEN;
    }
    var t := Ctz(ALL_ONES - reg);
    base, log2len := ClearLow(reg, t) * 4 % ADDRESSES, t + PMP_SHIFT + 1;
  }

  method PackFlags(rflags: bv64) returns (flags: bv64)
    ensures flags == EntryFlags(rflags)
  {
    flags := 0;
    if rflags & REGION_ENF_PERMISSIONS != 0 { flags := flags | PMP_L; }
    if rflags & REGION_SU_READABLE != 0 { flags := flags | PMP_R; }
    if rflags & REGION_SU_WRITABLE != 0 { flags := flags | PMP_W; }
    if rflags & REGION_SU_EXECUTABLE != 0 { flags := flags | PMP_X; }
  }

  class PmpUnit {
    var cfg: seq<bv64>
    var addr: seq<nat>

    function View(): Table
      reads this
    {
      Table(cfg, addr)
    }

    method Set(n: nat, prot: bv64, base: nat, log2len: nat) returns (code: Code)
      requires WellShaped(View())
      requires base < ADDRESSES
      modifies this
      ensures code == if n >= PMP_COUNT || log2len > XLEN || log2len < PMP_SHIFT then Einval else Ok
      ensures code == Einval ==> View() == old(View())
      ensures code == Ok ==> View() == SetEntry(old(View()), n, prot, base, log2len) && WellShaped(View())
    {
      if n >= PMP_COUNT || log2len > XLEN || log2len < PMP_SHIFT {
        return Einval;
      }
      SetCfg(View(), n, prot, base, log2len, n);
      var pmpcfg := PackCfg(cfg[n / 8], n, prot, log2len);
      var pmpaddr := PackAddr(base, log2len);
      addr := addr[n := pmpaddr];
      cfg := cfg[n / 8 := pmpcfg];
      code := Ok;
    }

    method Get(n: nat) returns (code: Code, prot: bv64, base: nat, log2len: nat)
      requires WellShaped(View())
      ensures code == if n >= PMP_COUNT then Einval else Ok
      ensures code == Ok ==> (prot, base, log2len) == GetEntry(View(), n)
    {
      prot, base, log2len := 0, 0, 0;
      if n >= PMP_COUNT {
        return Einval, prot, base, log2len;
      }
      prot := ByteAt(cfg[n / 8], Shift(n));
      base, log2len := UnpackAddr(addr[n], prot);
      code := Ok;
    }

    /** Write the entry that follows those of `p`. */
    method ProgramRegion(idx: nat, r: Region, ghost p: seq<Region>)
      requires Programmed(View(), p) && idx == |p| < PMP_COUNT && Valid(r)
      modifies this
      ensures Programmed(View(), p + [r])
    {
      ProgramNext(View(), p, r);
      var flags := PackFlags(r.flags);
      var _ := Set(idx, flags, r.base, r.order);
    }

    /** Program one entry per region that fits, from a table that is all off. */
    method Configure(regs: seq<Region>, count: nat, log2gran: nat, addrMax: nat)
      requires AllValid(regs) && count <= PMP_COUNT && Programmed(View(), [])
      modifies this
      ensures Programmed(View(), Taken(regs, count, log2gran, addrMax))
    {
      var idx, i := 0, 0;
      ghost var p: seq<Region> := [];
      while i < |regs|
        invariant 0 <= i <= |regs| && idx == |p| <= count
        invariant Programmed(View(), p)
        invariant Taken(regs, count, log2gran, addrMax) == p + Taken(regs[i..], count - idx, log2gran, addrMax)
      {
        if count <= idx {
          break;
        }
        TakenStep(p, regs, i, count - idx, log2gran, addrMax);
        if Fits(regs[i], log2gran, addrMax) {
          ProgramRegion(idx, regs[i], p);
          p := p + [regs[i]];
          idx := idx + 1;
        }
        i := i + 1;
      }
      assert p + [] == p;
    }
  }

  lemma TakenStep(p: seq<Region>, regs: seq<Region>, i: nat, room: nat, log2gran: nat, addrMax: nat)
    requires i < |regs| && room > 0
    ensures var rest := Taken(regs[i..], room, log2gran, addrMax);
      if Fits(regs[i], log2gran, addrMax) then
        p + rest == p + [regs[i]] + Taken(regs[i + 1..], room - 1, log2gran, addrMax)
      else
        rest == Taken(regs[i + 1..], room, log2gran, addrMax)
  {
    assert regs[i..][0] == regs[i] && regs[i..][1..] == regs[i + 1..];
  }

  /** The table a domain's regions are programmed into refines the domain's address check: if
      every region gets an entry, an S- or U-mode access to any byte is granted by the hardware
      exactly when the software check grants it, whatever bus the region is on. */
  lemma PmpRefinesCheck(t: Table, regs: seq<Region>, count: nat, log2gran: nat, addrMax: nat, a: nat, mode: nat,
                        access: bv64)
    requires |regs| <= count && (forall i :: 0 <= i < |regs| ==> Fits(regs[i], log2gran, addrMax))
    requires Programmed(t, Taken(regs, count, log2gran, addrMax))
    requires a < ADDRESSES && (mode == PRV_S || mode == PRV_U)
    ensures HardwareAllows(t, a, access)
            <==> Allowed(regs, a, mode, access & !ACCESS_MMIO) || Allowed(regs, a, mode, access | ACCESS_MMIO)
  {
    TakenAll(regs, count, log2gran, addrMax);
    TableRefines(t, regs, a, access);
    AnyBusIsAllowed(regs, a, mode, access);
  }
}
