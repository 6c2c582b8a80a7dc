/** The physical memory protection table: packed configuration bytes, NAPOT
    address encoding, and the matching rule of the hardware. */
module Pmp {
  import opened PowersOfTwo
  import opened Domain

  const PMP_COUNT: nat := 64
  const PMP_SHIFT: nat := 2
  const PMP_R: bv64 := 0x01
  const PMP_W: bv64 := 0x02
  const PMP_X: bv64 := 0x04
  const PMP_A: bv64 := 0x18
  const PMP_A_TOR: bv64 := 0x08
  const PMP_A_NA4: bv64 := 0x10
  const PMP_A_NAPOT: bv64 := 0x18
  const PMP_L: bv64 := 0x80

  const ALL_ONES: nat := ADDRESSES - 1

  /** Eight configuration words of eight bytes each, and 64 address registers. */
  datatype Table = Table(cfg: seq<bv64>, addr: seq<nat>)

  predicate WellShaped(t: Table) {
    |t.cfg| == 8 && |t.addr| == PMP_COUNT && forall i :: 0 <= i < PMP_COUNT ==> t.addr[i] < ADDRESSES
  }

  // ---------- configuration bytes ----------

  function Shift(n: nat): bv64 {
    match n % 8
    case 0 => 0
    case 1 => 8
    case 2 => 16
    case 3 => 24
    case 4 => 32
    case 5 => 40
    case 6 => 48
    case _ => 56
  }

  function ByteAt(w: bv64, s: bv64): bv64
    requires s <= 56
  {
    (w & (0xff << s)) >> s
  }

  function WithByte(w: bv64, s: bv64, b: bv64): bv64
    requires s <= 56
  {
    (w & !(0xff << s)) | ((b << s) & (0xff << s))
  }

  predicate IsShift(s: bv64) {
    s == 0 || s == 8 || s == 16 || s == 24 || s == 32 || s == 40 || s == 48 || s == 56
  }

  lemma MaskSelect(w: bv64, c: bv64, m: bv64, k: bv64)
    ensures ((w & !m) | (c & m)) & m == c & m
    ensures m & k == 0 ==> ((w & !m) | (c & m)) & k == w & k
  {
  }

  lemma MasksApart(s: bv64, r: bv64)
    requires IsShift(s) && IsShift(r) && r != s
    ensures (0xff as bv64 << s) & (0xff as bv64 << r) == 0
  {
  }

  lemma ShiftBack(b: bv64, s: bv64)
    requires IsShift(s)
    ensures ((b << s) & (0xff as bv64 << s)) >> s == b & 0xff
  {
    if s == 0 {} else if s == 8 {} else if s == 16 {} else if s == 24 {}
    else if s == 32 {} else if s == 40 {} else if s == 48 {} else {}
  }

  lemma SameByte(w: bv64, s: bv64, b: bv64)
    requires IsShift(s)
    ensures ByteAt(WithByte(w, s, b), s) == b & 0xff
  {
    MaskSelect(w, b << s, 0xff << s, 0);
    ShiftBack(b, s);
  }

  lemma OtherByte(w: bv64, s: bv64, b: bv64, r: bv64)
    requires IsShift(s) && IsShift(r) && r != s
    ensures ByteAt(WithByte(w, s, b), r) == ByteAt(w, r)
  {
    MasksApart(s, r);
    MaskSelect(w, b << s, 0xff << s, 0xff << r);
  }

  lemma ShiftsDiffer(m: nat, n: nat)
    requires m / 8 == n / 8 && m != n
    ensures Shift(m) != Shift(n)
  {
  }

  function Cfg(t: Table, n: nat): bv64
    requires WellShaped(t) && n < PMP_COUNT
  {
    ByteAt(t.cfg[n / 8], Shift(n))
  }

  // ---------- NAPOT ----------

  /** `x & ~(2^k - 1)` */
  function ClearLow(x: nat, k: nat): nat {
    Rounded(x, Pow2(k));
    x / Pow2(k) * Pow2(k)
  }

  /** The address register for a naturally aligned region of 2^log2len bytes. */
  function Encode(addr: nat, log2len: nat): nat
    requires PMP_SHIFT <= log2len <= XLEN
  {
    if log2len == PMP_SHIFT then addr / 4
    else if log2len == XLEN then ALL_ONES
    else ClearLow(addr / 4, log2len - PMP_SHIFT) + (Pow2(log2len - PMP_SHIFT) - 1) / 2
  }

  /** The number of trailing one bits; `x` is not all ones. */
  function TrailingOnes(x: nat): nat {
    if x % 2 == 0 then 0 else 1 + TrailingOnes(x / 2)
  }

  /** `x` counted from its lowest set bit, as the decoder does on the complement of the
      address register. */
  method Ctz(x: nat) returns (n: nat)
    requires x < ADDRESSES
    ensures x == 0 ==> n == XLEN
    ensures x != 0 ==> n == TrailingOnes(ALL_ONES - x)
  {
    if x == 0 {
      return XLEN;
    }
    Whole();
    n := 0;
    var y := x;
    ghost var a: nat := ALL_ONES - x;
    while y % 2 == 0
      invariant n < XLEN && 0 < y && y == Pow2(XLEN - n) - 1 - a
      invariant TrailingOnes(ALL_ONES - x) == n + TrailingOnes(a)
      decreases y
    {
      HalveBoth(y, a, XLEN - n);
      a := a / 2;
      n := n + 1;
      y := y / 2;
    }
    OddComplement(y, a, XLEN - n);
  }

  lemma HalveBoth(y: nat, a: nat, b: nat)
    requires y % 2 == 0 && 0 < y && y == Pow2(b) - 1 - a && b > 0
    ensures a % 2 == 1 && y / 2 == Pow2(b - 1) - 1 - a / 2 && b - 1 > 0
  {
  }

  lemma OddComplement(y: nat, a: nat, b: nat)
    requires y % 2 == 1 && y == Pow2(b) - 1 - a && b > 0
    ensures a % 2 == 0
  {
  }

  lemma {:induction false} TrailingOnesOf(q: nat, h: nat)
    ensures TrailingOnes(q * Pow2(h + 1) + Pow2(h) - 1) == h
  {
    var e := q * Pow2(h + 1) + Pow2(h) - 1;
    assert Pow2(h + 1) == 2 * Pow2(h);
    assert q * Pow2(h + 1) == 2 * (q * Pow2(h));
    if h > 0 {
      assert Pow2(h) == 2 * Pow2(h - 1);
      assert e == 2 * (q * Pow2(h) + Pow2(h - 1) - 1) + 1;
      TrailingOnesOf(q, h - 1);
    }
  }

  /** The encoded register of an aligned region: its number, a zero, then ones. */
  lemma EncodeShape(base: nat, l: nat)
    requires PMP_SHIFT < l < XLEN && base % Pow2(l) == 0 && base < ADDRESSES
    ensures var q, h := base / Pow2(l), l - 3;
      && base == q * Pow2(l)
      && Encode(base, l) == q * Pow2(h + 1) + Pow2(h) - 1
      && Encode(base, l) < ALL_ONES
      && Pow2(l) == 4 * Pow2(h + 1) && Pow2(h + 1) == 2 * Pow2(h)
  {
    var q, h, k := base / Pow2(l), l - 3, l - 2;
    DivMul(base, Pow2(l));
    assert Pow2(l) == 2 * Pow2(l - 1) && Pow2(l - 1) == 2 * Pow2(k) && Pow2(k) == 2 * Pow2(h);
    assert base == 4 * (q * Pow2(k));
    assert base / 4 == q * Pow2(k);
    DivUnique(Pow2(k), q, 0);
    assert Pow2(k) * q == q * Pow2(k);
    assert ClearLow(base / 4, k) == q * Pow2(k);
    assert (Pow2(k) - 1) / 2 == Pow2(h) - 1;
    Pow2Monotone(k, XLEN - 3);
    Whole();
    assert Pow2(XLEN) == 8 * Pow2(XLEN - 3);
  }

  function DecodeNapot(reg: nat): (nat, nat) {
    if reg == ALL_ONES then (0, XLEN)
    else var t := TrailingOnes(reg); (ClearLow(reg, t) * 4 % ADDRESSES, t + PMP_SHIFT + 1)
  }

  /** Decode an address register, as `pmp_get` does. */
  function Decode(reg: nat, prot: bv64): (nat, nat) {
    if prot & PMP_A == PMP_A_NAPOT then DecodeNapot(reg) else (reg * 4 % ADDRESSES, PMP_SHIFT)
  }

  /** The permission bits as stored, with the address-mode field for the length. */
  function Mode(prot: bv64, log2len: nat): bv64 {
    (prot & !PMP_A) | (if log2len == PMP_SHIFT then PMP_A_NA4 else PMP_A_NAPOT)
  }

  /** Lengths and addresses the encoder accepts; it rounds the address down itself. */
  predicate Encodable(base: nat, l: nat) {
    PMP_SHIFT <= l <= XLEN && base < ADDRESSES
  }

  lemma ClearLowAligned(base: nat, l: nat)
    ensures ClearLow(base, l) <= base && ClearLow(base, l) % Pow2(l) == 0
        && ClearLow(base, l) / Pow2(l) == base / Pow2(l)
    ensures base % Pow2(l) == 0 ==> ClearLow(base, l) == base
  {
    DivMul(base, Pow2(l));
    DivUnique(Pow2(l), base / Pow2(l), 0);
    assert Pow2(l) * (base / Pow2(l)) == ClearLow(base, l);
  }

  lemma DivDivBy(x: nat, m: nat, n: nat)
    requires m > 0 && n == 4 * m
    ensures x / 4 / m == x / n
  {
    var q, r := x / n, x % n;
    var p := m * q;
    assert x == n * q + r;
    assert n * q == 4 * p;
    assert x / 4 == p + r / 4;
    DivUnique(m, q, r / 4);
  }

  lemma DivDiv(x: nat, k: nat)
    ensures x / 4 / Pow2(k) == x / Pow2(k + 2)
  {
    assert Pow2(k + 2) == 2 * Pow2(k + 1) && Pow2(k + 1) == 2 * Pow2(k);
    DivDivBy(x, Pow2(k), Pow2(k + 2));
  }

  /** The encoder keeps nothing of the address below the region's size. */
  lemma EncodeRoundsDown(base: nat, l: nat)
    requires Encodable(base, l)
    ensures Encode(base, l) == Encode(ClearLow(base, l), l)
  {
    var b := ClearLow(base, l);
    ClearLowAligned(base, l);
    DivDiv(base, l - 2);
    DivDiv(b, l - 2);
    if l == PMP_SHIFT {
      assert Pow2(2) == 4;
    }
  }

  lemma ModeField(prot: bv64, l: nat)
    ensures Mode(prot, l) & 0xff & PMP_A == if l == PMP_SHIFT then PMP_A_NA4 else PMP_A_NAPOT
    ensures Mode(prot, l) & 0xff & !PMP_A == prot & 0xff & !PMP_A
  {
  }

  lemma ShapeDecodes(q: nat, h: nat)
    ensures var e := q * Pow2(h + 1) + Pow2(h) - 1;
      TrailingOnes(e) == h && ClearLow(e, h) == q * Pow2(h + 1)
  {
    var e := q * Pow2(h + 1) + Pow2(h) - 1;
    TrailingOnesOf(q, h);
    assert Pow2(h + 1) == 2 * Pow2(h);
    assert e == Pow2(h) * (2 * q) + (Pow2(h) - 1);
    DivUnique(Pow2(h), 2 * q, Pow2(h) - 1);
    assert 2 * q * Pow2(h) == q * Pow2(h + 1);
  }

  lemma NapotRoundTrip(base: nat, l: nat)
    requires PMP_SHIFT < l < XLEN && base % Pow2(l) == 0 && base < ADDRESSES
    ensures var e := Encode(base, l);
      e < ALL_ONES && ClearLow(e, TrailingOnes(e)) * 4 == base && TrailingOnes(e) + PMP_SHIFT + 1 == l
  {
    EncodeShape(base, l);
    ShapeRoundTrip(Encode(base, l), base / Pow2(l), l - 3, base);
  }

  lemma ShapeRoundTrip(e: nat, q: nat, h: nat, base: nat)
    requires e == q * Pow2(h + 1) + Pow2(h) - 1
    requires base == q * Pow2(h + 3) && Pow2(h + 3) == 4 * Pow2(h + 1)
    ensures TrailingOnes(e) == h && ClearLow(e, h) * 4 == base
  {
    ShapeDecodes(q, h);
    var m := Pow2(h + 1);
    TimesFour(q, m, Pow2(h + 3));
  }

  lemma TimesFour(q: nat, m: nat, n: nat)
    requires n == 4 * m
    ensures q * m * 4 == q * n
  {
  }

  lemma AlignedNapot(base: nat, l: nat)
    requires PMP_SHIFT < l < XLEN && base < ADDRESSES && base % Pow2(l) == 0
    ensures DecodeNapot(Encode(base, l)) == (base, l) && Encode(base, l) < ADDRESSES
  {
    var e := Encode(base, l);
    assert e < ALL_ONES && ClearLow(e, TrailingOnes(e)) * 4 == base && TrailingOnes(e) + PMP_SHIFT + 1 == l by {
      NapotRoundTrip(base, l);
    }
    DecodeNapotOf(e, base, l);
  }

  lemma WholeRoundTrip(base: nat)
    requires base < ADDRESSES && base % Pow2(XLEN) == 0
    ensures DecodeNapot(Encode(base, XLEN)) == (base, XLEN) && Encode(base, XLEN) < ADDRESSES
  {
    Whole();
    assert Encode(base, XLEN) == ALL_ONES;
    assert base == 0;
  }

  lemma DecodeNapotOf(e: nat, base: nat, l: nat)
    requires e < ALL_ONES && ClearLow(e, TrailingOnes(e)) * 4 == base < ADDRESSES
        && TrailingOnes(e) + PMP_SHIFT + 1 == l
    ensures DecodeNapot(e) == (base, l)
  {
  }

  lemma AlignedRoundTrip(base: nat, l: nat, prot: bv64)
    requires Encodable(base, l) && base % Pow2(l) == 0
    requires prot & PMP_A == (if l == PMP_SHIFT then PMP_A_NA4 else PMP_A_NAPOT)
    ensures Decode(Encode(base, l), prot) == (base, l) && Encode(base, l) < ADDRESSES
  {
    if l == PMP_SHIFT {
      assert Pow2(2) == 4;
    } else if l == XLEN {
      WholeRoundTrip(base);
    } else {
      AlignedNapot(base, l);
    }
  }

  /** Address round trip: decoding what was encoded gives back the length and the address,
      rounded down to it. */
  lemma AddressRoundTrip(base: nat, l: nat, prot: bv64)
    requires Encodable(base, l) && prot & PMP_A == (if l == PMP_SHIFT then PMP_A_NA4 else PMP_A_NAPOT)
    ensures Decode(Encode(base, l), prot) == (ClearLow(base, l), l) && Encode(base, l) < ADDRESSES
  {
    EncodeRoundsDown(base, l);
    ClearLowAligned(base, l);
    AlignedRoundTrip(ClearLow(base, l), l, prot);
  }
}
