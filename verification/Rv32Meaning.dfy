/** What each instruction means for registers, memory and program counter, in integers and bits. */
module Rv32Meaning {
  import opened PowersOfTwo
  import opened Rv32
  import opened Rv32Bits
  import opened Rv32Encoding

  // ---------- values ----------

  /** The integer a word stands for in two's complement. */
  function Int(x: word): int {
    (x + 0x8000_0000) % 0x1_0000_0000 - 0x8000_0000
  }

  predicate Congruent(x: int, y: int) {
    (x - y) % 0x1_0000_0000 == 0
  }

  ghost predicate AluMeans(op: AluOp, a: word, b: word, v: word) {
    match op
    case ADD => Congruent(v, a + b)
    case SUB => Congruent(v, a - b)
    case SLL => Congruent(v, a * Pow2(b % 32))
    case SLT => v == if Int(a) < Int(b) then 1 else 0
    case SLTU => v == if a < b then 1 else 0
    case XOR => forall k: nat :: k < 32 ==> BitOn(v, k) == (BitOn(a, k) != BitOn(b, k))
    case OR => forall k: nat :: k < 32 ==> BitOn(v, k) == (BitOn(a, k) || BitOn(b, k))
    case AND => forall k: nat :: k < 32 ==> BitOn(v, k) == (BitOn(a, k) && BitOn(b, k))
    case SRL => v * Pow2(b % 32) <= a < (v + 1) * Pow2(b % 32)
    case SRA => Int(v) * Pow2(b % 32) <= Int(a) < (Int(v) + 1) * Pow2(b % 32)
  }

  lemma IntIsSigned(x: word)
    ensures Int(x) == Signed(x)
  {
  }

  lemma WCongruent(x: int)
    ensures Congruent(W(x), x)
  {
    var q := x / M;
    assert x == M * q + x % M;
    assert W(x) - x == M * (-q);
    MulMod(M, -q);
  }

  lemma LogicMeans(op: AluOp, a: word, b: word, sub: bool, arith: bool)
    requires op.XOR? || op.OR? || op.AND?
    ensures AluMeans(op, a, b, Alu(AluCode(op), a, b, sub, arith))
  {
    BitsAll(a, b);
  }

  lemma LogicalShift(a: word, p: nat)
    requires p > 0
    ensures W(a / p) * p <= a < (W(a / p) + 1) * p
  {
    var q := a / p;
    QuotientSmall(a, p);
    assert W(q) == q;
    FloorLaw(a, p);
  }

  lemma Quotient(a: nat, p: nat) returns (q: nat, m: nat)
    requires p > 0
    ensures q == a / p && m == q * p && m <= a
  {
    q := a / p;
    m := q * p;
    assert a == p * q + a % p;
    assert p * q == q * p;
  }

  lemma QuotientSmall(a: nat, p: nat)
    requires p > 0
    ensures 0 <= a / p <= a
  {
    var q, m := Quotient(a, p);
    Grows(q, p);
    assert q <= m;
  }

  lemma ArithmeticShift(a: word, p: nat)
    requires p > 0
    ensures var v := W(Signed(a) / p); Int(v) * p <= Int(a) < (Int(v) + 1) * p
  {
    var x := Signed(a);
    FloorLaw(x, p);
    ShiftedSmall(x, p);
    SignedW(x / p);
    IntIsSigned(a);
    IntIsSigned(W(x / p));
  }

  lemma AluIs(op: AluOp, a: word, b: word, sub: bool, arith: bool)
    requires (op.ADD? ==> !sub) && (op.SUB? ==> sub) && (op.SRL? ==> !arith) && (op.SRA? ==> arith)
    ensures AluMeans(op, a, b, Alu(AluCode(op), a, b, sub, arith))
  {
    match op
    case ADD => WCongruent(a + b);
    case SUB => WCongruent(a - b);
    case SLL => WCongruent(a * Pow2(b % 32));
    case SLT =>
      IntIsSigned(a);
      IntIsSigned(b);
    case SLTU =>
    case SRL => LogicalShift(a, Pow2(b % 32));
    case SRA => ArithmeticShift(a, Pow2(b % 32));
    case _ => LogicMeans(op, a, b, sub, arith);
  }

  // ---------- products and quotients ----------

  /** `h` is the part of `p` above the low 32 bits. */
  predicate HighHalf(h: int, p: int) {
    h * 0x1_0000_0000 <= p < (h + 1) * 0x1_0000_0000
  }

  ghost predicate MulMeans(op: MulOp, a: word, b: word, v: word) {
    match op
    case MUL => Congruent(v, a * b)
    case MULH => HighHalf(Int(v), Int(a) * Int(b))
    case MULHSU => HighHalf(Int(v), Int(a) * b)
    case MULHU => HighHalf(v, a * b)
    case DIV =>
      if b == 0 then v == 0xffff_ffff
      else if a == 0x8000_0000 && b == 0xffff_ffff then v == 0x8000_0000
      else exists r :: Truncates(Int(a), Int(b), Int(v), r)
    case DIVU => if b == 0 then v == 0xffff_ffff else v * b <= a < (v + 1) * b
    case REM =>
      if b == 0 then v == a
      else if a == 0x8000_0000 && b == 0xffff_ffff then v == 0
      else exists q :: Truncates(Int(a), Int(b), q, Int(v))
    case REMU => if b == 0 then v == a else v < b && exists q: nat :: a == q * b + v
  }

  lemma Product(x: nat, y: nat, p: nat, q: nat)
    requires x <= p && y <= q
    ensures 0 <= x * y <= p * q
  {
    MulGe0(x, y);
    MulGe0(x, q - y);
    MulGe0(p - x, q);
    assert x * q == x * y + x * (q - y);
    assert p * q == x * q + (p - x) * q;
  }

  function Abs(x: int): nat { if x < 0 then -x else x }

  lemma AbsProduct(x: int, y: int)
    ensures Abs(x * y) == Abs(x) * Abs(y)
  {
  }

  lemma SignedProduct(x: int, y: int, q: nat)
    requires Abs(x) <= 0x8000_0000 && Abs(y) <= q
    ensures -0x8000_0000 * q <= x * y <= 0x8000_0000 * q
  {
    Product(Abs(x), Abs(y), 0x8000_0000, q);
    AbsProduct(x, y);
  }

  lemma HighMeans(p: int)
    requires -0x8000_0000 * 0x1_0000_0000 <= p < 0x8000_0000 * 0x1_0000_0000
    ensures HighHalf(Int(W(p / M)), p)
  {
    SignedW(p / M);
    IntIsSigned(W(p / M));
  }

  lemma MulhMeans(a: word, b: word)
    ensures MulMeans(MULH, a, b, Multiply(1, a, b)) && MulMeans(MULHSU, a, b, Multiply(2, a, b))
  {
    IntIsSigned(a);
    IntIsSigned(b);
    SignedProduct(Signed(a), Signed(b), 0x8000_0000);
    HighMeans(Signed(a) * Signed(b));
    SignedProduct(Signed(a), b, 0xffff_ffff);
    HighMeans(Signed(a) * b);
  }

  lemma MulhuMeans(a: word, b: word)
    ensures MulMeans(MULHU, a, b, Multiply(3, a, b))
  {
    Product(a, b, 0xffff_ffff, 0xffff_ffff);
    var p := a * b;
    assert 0 <= p / M < M;
  }

  /** A quotient by a negative number is that by its opposite, with the other sign. */
  lemma NegativeDivisor(n: nat, b: int)
    requires b > 0
    ensures n / -b == -(n / b)
  {
    var q, r := n / b, n % b;
    assert n == b * q + r;
    assert (-b) * (-q) == b * q;
    var e := n / -b;
    assert n == (-b) * e + n % -b;
    var d := e + q;
    assert b * d == n % -b - r by {
      assert b * d == b * e + b * q;
      assert (-b) * e == -(b * e);
    }
  }

  lemma QuotientRange(n: nat, b: int)
    requires b != 0
    ensures Abs(n / b) <= n && (Abs(b) > 1 ==> 2 * Abs(n / b) <= n)
  {
    var p := Abs(b);
    QuotientSmall(n, p);
    if b < 0 {
      NegativeDivisor(n, p);
    }
    if p > 1 {
      var q, m := Quotient(n, p);
      Product(q, 2, q, p);
      assert 2 * q <= m;
    }
  }

  lemma TruncRange(a: int, b: int)
    requires -0x8000_0000 <= a < 0x8000_0000 && b != 0 && !(a == -0x8000_0000 && b == -1)
    ensures -0x8000_0000 <= DivTrunc(a, b) < 0x8000_0000
  {
    QuotientRange(Abs(a), b);
    if a == -0x8000_0000 && b == 1 {
      assert DivTrunc(a, b) == a;
    }
  }

  lemma DivMeans(a: word, b: word)
    ensures MulMeans(DIV, a, b, Multiply(4, a, b)) && MulMeans(REM, a, b, Multiply(6, a, b))
  {
    IntIsSigned(a);
    IntIsSigned(b);
    if b != 0 && !(a == 0x8000_0000 && b == 0xffff_ffff) {
      var x, y := Signed(a), Signed(b);
      var q := DivTrunc(x, y);
      var r := x - q * y;
      TruncLaw(x, y);
      TruncRange(x, y);
      SignedW(q);
      IntIsSigned(W(q));
      assert Truncates(Int(a), Int(b), Int(W(q)), r);
      SignedW(r);
      IntIsSigned(W(r));
      assert Truncates(Int(a), Int(b), q, Int(W(r)));
      assert y * q == q * y;
    }
  }

  lemma DivuMeans(a: word, b: word)
    ensures MulMeans(DIVU, a, b, Multiply(5, a, b)) && MulMeans(REMU, a, b, Multiply(7, a, b))
  {
    if b != 0 {
      LogicalShift(a, b);
      var q, m := Quotient(a, b);
      assert a == b * q + a % b && b * q == q * b;
    }
  }

  lemma MulIs(op: MulOp, a: word, b: word)
    ensures MulMeans(op, a, b, Multiply(MulCode(op), a, b))
  {
    match op
    case MUL => WCongruent(a * b);
    case MULH => MulhMeans(a, b);
    case MULHSU => MulhMeans(a, b);
    case MULHU => MulhuMeans(a, b);
    case DIV => DivMeans(a, b);
    case REM => DivMeans(a, b);
    case DIVU => DivuMeans(a, b);
    case REMU => DivuMeans(a, b);
  }

  // ---------- comparisons, memory and control registers ----------

  predicate CmpHolds(cmp: Cmp, a: word, b: word) {
    match cmp
    case EQ => a == b
    case NE => a != b
    case LT => Int(a) < Int(b)
    case GE => Int(a) >= Int(b)
    case LTU => a < b
    case GEU => a >= b
  }

  /** Little-endian reads, sign-extended or not. */
  predicate LoadMeans(w: Width, mem: seq<byte>, at: nat, v: word)
    requires at + 4 <= |mem|
  {
    var b: int, b1: int, b2: int, b3: int := mem[at], mem[at + 1], mem[at + 2], mem[at + 3];
    var h := b + 0x100 * b1;
    match w
    case W8 => Int(v) == if b < 0x80 then b else b - 0x100
    case W16 => Int(v) == if h < 0x8000 then h else h - 0x1_0000
    case W32 => v == h + 0x1_0000 * b2 + 0x100_0000 * b3
    case U8 => v == b
    case U16 => v == h
  }

  function Bytewidth(w: Width): nat {
    match w case W8 => 1 case U8 => 1 case W16 => 2 case U16 => 2 case W32 => 4
  }

  /** The low bytes of a word, lowest first. */
  predicate BytesOf(bs: seq<byte>, v: word, n: nat) {
    |bs| == n && forall k :: 0 <= k < n ==> bs[k] == v / Pow2(8 * k) % 0x100
  }

  ghost predicate AmoMeans(op: AmoOp, was: word, v: word, now: word) {
    match op
    case SWAP => now == v
    case PLUS => Congruent(now, was + v)
    case BITXOR => forall k: nat :: k < 32 ==> BitOn(now, k) == (BitOn(was, k) != BitOn(v, k))
    case BITAND => forall k: nat :: k < 32 ==> BitOn(now, k) == (BitOn(was, k) && BitOn(v, k))
    case BITOR => forall k: nat :: k < 32 ==> BitOn(now, k) == (BitOn(was, k) || BitOn(v, k))
    case MIN => now == if Int(was) <= Int(v) then was else v
    case MAX => now == if Int(was) >= Int(v) then was else v
    case MINU => now == if was <= v then was else v
    case MAXU => now == if was >= v then was else v
  }

  ghost predicate CsrMeans(op: CsrOp, was: word, x: word, now: word) {
    match op
    case RW => now == x
    case RS => forall k: nat :: k < 32 ==> BitOn(now, k) == (BitOn(was, k) || BitOn(x, k))
    case RC => forall k: nat :: k < 32 ==> BitOn(now, k) == (BitOn(was, k) && !BitOn(x, k))
  }

  lemma BitsAll(a: word, b: word)
    ensures forall k: nat :: k < 32 ==> BitOn(Xor(a, b), k) == (BitOn(a, k) != BitOn(b, k))
    ensures forall k: nat :: k < 32 ==> BitOn(Or(a, b), k) == (BitOn(a, k) || BitOn(b, k))
    ensures forall k: nat :: k < 32 ==> BitOn(And(a, b), k) == (BitOn(a, k) && BitOn(b, k))
    ensures forall k: nat :: k < 32 ==> BitOn(Not(a), k) == !BitOn(a, k)
  {
    WordSize();
    forall k: nat | k < 32
      ensures BitOn(Xor(a, b), k) == (BitOn(a, k) != BitOn(b, k))
      ensures BitOn(Or(a, b), k) == (BitOn(a, k) || BitOn(b, k))
      ensures BitOn(And(a, b), k) == (BitOn(a, k) && BitOn(b, k))
      ensures BitOn(Not(a), k) == !BitOn(a, k)
    {
      XorBits(a, b, k);
      OrBits(a, b, k);
      AndBits(a, b, k);
      NotBits(a, Not(a), 32, k);
    }
  }

  lemma AmoIs(op: AmoOp, was: word, v: word)
    ensures AmoMeans(op, was, v, Amo(AmoCode(op), was, v))
  {
    BitsAll(v, was);
    IntIsSigned(was);
    IntIsSigned(v);
    if Int(was) == Int(v) {
      SignedSame(was, v);
    }
    if op.PLUS? {
      WCongruent(v + was);
    }
  }

  lemma CsrIs(op: CsrOp, was: word, x: word)
    ensures CsrMeans(op, was, x, Modify(CsrCode(op), was, x))
  {
    BitsAll(was, x);
    BitsAll(was, Not(x));
    BitsAll(x, was);
  }

  lemma BytesAre(v: word)
    ensures BytesOf(Bytes(v, 1), v, 1) && BytesOf(Bytes(v, 2), v, 2) && BytesOf(Bytes(v, 4), v, 4)
  {
    assert Pow2(0) == 1 && Pow2(8) == 0x100;
    Pow2Add(8, 8);
    Pow2Add(16, 8);
  }
}
