/** Words bit by bit, and what the arithmetic of the emulator comes to in integers. */
module Rv32Bits {
  import opened PowersOfTwo
  import opened Rv32

  /** Bit `k` of a number. */
  predicate BitOn(x: nat, k: nat) {
    x / Pow2(k) % 2 == 1
  }

  lemma BitDown(x: nat, k: nat)
    requires k > 0
    ensures BitOn(x, k) == BitOn(x / 2, k - 1)
  {
    var m, q := Pow2(k - 1), x / Pow2(k);
    assert Pow2(k) == 2 * m;
    assert x == 2 * m * q + x % (2 * m);
    var h := x / 2;
    assert m * q <= h < m * q + m by {
      assert 0 <= x % (2 * m) < 2 * m;
      assert x == 2 * (m * q) + x % (2 * m);
    }
    DivUnique(m, q, h - m * q);
  }

  lemma {:induction false} AndBits(a: nat, b: nat, k: nat)
    ensures BitOn(And(a, b), k) == (BitOn(a, k) && BitOn(b, k))
  {
    if k == 0 {
    } else {
      BitDown(And(a, b), k);
      BitDown(a, k);
      BitDown(b, k);
      AndHalf(a, b);
      AndBits(a / 2, b / 2, k - 1);
    }
  }

  lemma AndHalf(a: nat, b: nat)
    ensures And(a, b) / 2 == And(a / 2, b / 2) && And(a, b) % 2 == (if a % 2 == 1 && b % 2 == 1 then 1 else 0)
  {
  }

  /** Complements within n bits. */
  lemma {:induction false} NotBits(a: nat, c: nat, n: nat, k: nat)
    requires a + c + 1 == Pow2(n) && k < n
    ensures BitOn(c, k) == !BitOn(a, k)
  {
    assert Pow2(n) == 2 * Pow2(n - 1);
    if k > 0 {
      BitDown(c, k);
      BitDown(a, k);
      NotBits(a / 2, c / 2, n - 1, k - 1);
    }
  }

  lemma OrBits(a: word, b: word, k: nat)
    requires k < 32
    ensures BitOn(Or(a, b), k) == (BitOn(a, k) || BitOn(b, k))
  {
    WordSize();
    NotBits(a, Not(a), 32, k);
    NotBits(b, Not(b), 32, k);
    AndBits(Not(a), Not(b), k);
    NotBits(And(Not(a), Not(b)), Or(a, b), 32, k);
  }

  /** Conjunctions of complements: what is missing from both is missing from the sum less what they share. */
  lemma {:induction false} AndNot(a: nat, b: nat, c: nat, d: nat, n: nat)
    requires a + c + 1 == Pow2(n) && b + d + 1 == Pow2(n)
    ensures And(c, d) + (a + b - And(a, b)) + 1 == Pow2(n)
  {
    if n > 0 {
      assert Pow2(n) == 2 * Pow2(n - 1);
      AndHalf(a, b);
      AndHalf(c, d);
      AndNot(a / 2, b / 2, c / 2, d / 2, n - 1);
    }
  }

  /** Disjunction and conjunction together count every bit. */
  lemma OrSum(a: word, b: word)
    ensures Or(a, b) + And(a, b) == a + b
  {
    WordSize();
    AndNot(a, b, Not(a), Not(b), 32);
  }

  lemma {:induction false} DifferenceBits(a: nat, b: nat, x: nat, k: nat)
    requires x == a + b - 2 * And(a, b)
    ensures BitOn(x, k) == (BitOn(a, k) != BitOn(b, k))
  {
    AndHalf(a, b);
    if k > 0 {
      BitDown(x, k);
      BitDown(a, k);
      BitDown(b, k);
      DifferenceBits(a / 2, b / 2, x / 2, k - 1);
    }
  }

  lemma XorBits(a: word, b: word, k: nat)
    ensures BitOn(Xor(a, b), k) == (BitOn(a, k) != BitOn(b, k))
  {
    OrSum(a, b);
    DifferenceBits(a, b, Xor(a, b), k);
  }

  lemma WordSize()
    ensures Pow2(32) == M
  {
    assert Pow2(8) == 256;
    Pow2Add(8, 8);
    Pow2Add(16, 16);
  }

  // ---------- integers ----------

  lemma SignedSame(a: word, b: word)
    requires Signed(a) == Signed(b)
    ensures a == b
  {
  }

  /** The word of a small enough integer reads back as that integer. */
  lemma SignedW(x: int)
    requires -0x8000_0000 <= x < 0x8000_0000
    ensures Signed(W(x)) == x
  {
  }

  lemma FloorLaw(x: int, p: nat)
    requires p > 0
    ensures x / p * p <= x < (x / p + 1) * p
  {
    assert x == p * (x / p) + x % p;
  }

  lemma Grows(q: nat, p: nat)
    requires p > 0
    ensures q * p >= q
  {
    assert q * p == q + q * (p - 1);
    MulGe0(q, p - 1);
  }

  /** A signed word shifted right stays a signed word. */
  lemma ShiftedSmall(x: int, p: nat)
    requires -0x8000_0000 <= x < 0x8000_0000 && p > 0
    ensures -0x8000_0000 <= x / p < 0x8000_0000
  {
    FloorLaw(x, p);
    var q := x / p;
    if q >= 0 {
      Grows(q, p);
    } else {
      Grows(-q - 1, p);
      assert (-q - 1) * p == -((q + 1) * p);
    }
  }

  lemma Euclid(n: nat, b: int)
    requires b != 0
    ensures var r := n - n / b * b; 0 <= r && (if b > 0 then r < b else r < -b)
  {
    assert n == b * (n / b) + n % b;
    assert b * (n / b) == n / b * b;
  }

  lemma NegTimes(q: int, b: int)
    ensures (-q) * b == -(q * b)
  {
  }

  /** Quotient toward zero: the remainder is smaller than the divisor and has the sign of the dividend. */
  ghost predicate Truncates(a: int, b: int, q: int, r: int) {
    && a == q * b + r
    && (if b > 0 then -b < r < b else b < r < -b)
    && (r > 0 ==> a > 0) && (r < 0 ==> a < 0)
  }

  lemma TruncatesIf(a: int, b: int, q: int, qb: int)
    requires b != 0 && qb == q * b
    requires var r := a - qb;
      (if b > 0 then -b < r < b else b < r < -b) && (r > 0 ==> a > 0) && (r < 0 ==> a < 0)
    ensures Truncates(a, b, q, a - q * b)
  {
  }

  lemma TruncLaw(a: int, b: int)
    requires b != 0
    ensures Truncates(a, b, DivTrunc(a, b), a - DivTrunc(a, b) * b)
  {
    if a >= 0 {
      var q := a / b;
      Euclid(a, b);
      NotMore(a, b);
      TruncatesIf(a, b, q, q * b);
    } else {
      var q := (-a) / b;
      Euclid(-a, b);
      NotMore(-a, b);
      NegTimes(q, b);
      TruncatesIf(a, b, -q, -(q * b));
    }
  }

  lemma NotMore(n: nat, b: int)
    requires b != 0
    ensures n / b * b >= 0
  {
    var q := n / b;
    if b > 0 {
      MulGe0(q, b);
    } else {
      MulGe0(-q, -b);
      assert (-q) * (-b) == q * b;
    }
  }
}
