/** Powers of two and the alignment facts the region and PMP code rests on. */
module PowersOfTwo {

  function Pow2(n: nat): (p: nat)
    ensures p >= 1
  {
    if n == 0 then 1 else 2 * Pow2(n - 1)
  }

  lemma {:induction false} Pow2Add(m: nat, n: nat)
    ensures Pow2(m + n) == Pow2(m) * Pow2(n)
  {
    if m > 0 {
      Pow2Add(m - 1, n);
      calc {
        Pow2(m + n);
        2 * Pow2(m - 1 + n);
        2 * (Pow2(m - 1) * Pow2(n));
        (2 * Pow2(m - 1)) * Pow2(n);
      }
    }
  }

  lemma Pow2Monotone(m: nat, n: nat)
    requires m <= n
    ensures Pow2(m) <= Pow2(n)
  {
    if m < n { Pow2Monotone(m, n - 1); }
  }

  ghost predicate Divides(m: nat, x: int)
    requires m > 0
  {
    exists q: int :: x == m * q
  }

  lemma DividesMod(m: nat, x: int)
    requires m > 0
    ensures Divides(m, x) <==> x % m == 0
  {
    if x % m == 0 {
      assert x == m * (x / m);
    }
    if Divides(m, x) {
      var q :| x == m * q;
      MulMod(m, q);
    }
  }

  lemma {:induction false} MulMod(m: nat, q: int)
    requires m > 0
    ensures (m * q) % m == 0 && (m * q) / m == q
  {
    var r, d := (m * q) % m, (m * q) / m;
    assert m * q == m * d + r && 0 <= r < m;
    assert m * (q - d) == r;
    if q > d {
      MulGe(m, q - d);
    } else if q < d {
      MulGe(m, d - q);
    }
  }

  lemma MulGe(m: nat, k: int)
    requires k >= 1
    ensures m * k >= m
  {
  }

  lemma DividesSum(m: nat, x: int, y: int)
    requires m > 0 && Divides(m, x) && Divides(m, y)
    ensures Divides(m, x + y) && Divides(m, x - y)
  {
    var p :| x == m * p;
    var q :| y == m * q;
    assert x + y == m * (p + q) && x - y == m * (p - q);
  }

  lemma DividesTrans(m: nat, n: nat, x: int)
    requires m > 0 && n > 0 && Divides(m, n) && Divides(n, x)
    ensures Divides(m, x)
  {
    var p :| n == m * p;
    var q :| x == n * q;
    assert x == m * (p * q);
  }

  /** Two multiples of `m` closer than `m` are ordered. */
  lemma MultiplesApart(m: nat, x: int, y: int)
    requires m > 0 && Divides(m, x) && Divides(m, y) && x < y + m
    ensures x <= y
  {
    var p :| x == m * p;
    var q :| y == m * q;
    assert y - x == m * (q - p);
    if p > q {
      MulGe(m, p - q);
    }
  }

  lemma PowersDivide(m: nat, n: nat)
    requires m <= n
    ensures Divides(Pow2(m), Pow2(n))
  {
    Pow2Add(m, n - m);
    assert Pow2(n) == Pow2(m) * Pow2(n - m);
  }

  lemma DivUnique(m: nat, q: int, r: int)
    requires 0 <= r < m
    ensures (m * q + r) / m == q && (m * q + r) % m == r
  {
    var x := m * q + r;
    var d, e := x / m, x % m;
    assert x == m * d + e && 0 <= e < m;
    assert m * (q - d) == e - r;
    if q > d {
      MulGe(m, q - d);
    } else if q < d {
      MulGe(m, d - q);
    }
  }

  lemma DivMul(x: nat, m: nat)
    requires m > 0
    ensures x / m * m <= x < x / m * m + m
    ensures x % m == 0 ==> x / m * m == x
  {
    assert x == m * (x / m) + x % m;
  }

  lemma QuotientIs(a: nat, m: nat, q: nat)
    requires m > 0
    ensures a / m == q <==> q * m <= a < q * m + m
  {
    DivMul(a, m);
    if q * m <= a < q * m + m {
      DivUnique(m, q, a - q * m);
    }
  }

  lemma Rounded(x: nat, m: nat)
    requires m > 0
    ensures x / m * m >= 0
  {
    var q, r := x / m, x % m;
    assert x == m * q + r;
    MulGe0(q, m);
  }

  lemma MulGe0(q: int, m: nat)
    ensures q >= 0 ==> q * m >= 0
  {
  }
}
