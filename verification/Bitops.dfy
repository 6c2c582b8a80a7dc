/** Bit searches over bitmaps, a machine word at a time, against a search bit by bit. */
module Bitops {

  const BITS_PER_LONG: nat := 64

  /** A machine word as its bits, least significant first. */
  type word = w: seq<bool> | |w| == 64 witness seq(64, _ => false)

  function Shr(w: word, h: nat): word { seq(64, i requires 0 <= i < 64 => i + h < 64 && w[i + h]) }

  function Shl(w: word, h: nat): word { seq(64, i requires 0 <= i < 64 => i >= h && w[i - h]) }

  function Not(w: word): word { seq(64, i requires 0 <= i < 64 => !w[i]) }

  /** And with ones below h, and with ones from h up. */
  function Below(w: word, h: nat): word { seq(64, i requires 0 <= i < 64 => i < h && w[i]) }

  function From(w: word, h: nat): word { seq(64, i requires 0 <= i < 64 => i >= h && w[i]) }

  /** Or with ones below h, and with ones from h up. */
  function FillBelow(w: word, h: nat): word { seq(64, i requires 0 <= i < 64 => i < h || w[i]) }

  function FillFrom(w: word, h: nat): word { seq(64, i requires 0 <= i < 64 => i >= h || w[i]) }

  /** No bit set in [lo, hi). */
  predicate Clear(w: word, lo: nat, hi: nat)
    requires hi <= 64
  {
    forall i :: lo <= i < hi ==> !w[i]
  }

  predicate Zero(w: word) { Clear(w, 0, 64) }

  // ---------- within a word ----------

  /** One halving of the search from the bottom. */
  method NarrowLow(w: word, num: nat, h: nat, ghost orig: word) returns (w2: word, num2: nat)
    requires 0 < h && num + 2 * h <= 64 && w == Shr(orig, num) && Clear(orig, 0, num) && !Clear(orig, num, num + 2 * h)
    ensures num <= num2 && num2 + h <= num + 2 * h && w2 == Shr(orig, num2)
    ensures Clear(orig, 0, num2) && !Clear(orig, num2, num2 + h)
  {
    w2, num2 := w, num;
    if Clear(w, 0, h) {
      assert forall i {:trigger orig[i]} :: num <= i < num + h ==> orig[i] == w[i - num];
      num2 := num + h;
      w2 := Shr(w, h);
      assert w2 == Shr(orig, num2);
    } else {
      var k :| 0 <= k < h && w[k];
      assert orig[num + k];
    }
  }

  /** The least set bit. */
  method Ffs(word0: word) returns (num: nat)
    requires !Zero(word0)
    ensures num < 64 && word0[num] && Clear(word0, 0, num)
  {
    num := 0;
    var w := word0;
    assert w == Shr(word0, 0);
    w, num := NarrowLow(w, num, 32, word0);
    w, num := NarrowLow(w, num, 16, word0);
    w, num := NarrowLow(w, num, 8, word0);
    w, num := NarrowLow(w, num, 4, word0);
    w, num := NarrowLow(w, num, 2, word0);
    w, num := NarrowLow(w, num, 1, word0);
  }

  /** One halving of the search from the top; num is the highest bit that may still be set. */
  method NarrowHigh(w: word, num: nat, h: nat, ghost orig: word) returns (w2: word, num2: nat)
    requires 0 < h && num < 64 && num + 1 >= 2 * h && w == Shl(orig, 63 - num)
    requires Clear(orig, num + 1, 64) && !Clear(orig, num + 1 - 2 * h, num + 1)
    ensures num2 <= num && num2 + 1 >= h && num2 + h >= num && w2 == Shl(orig, 63 - num2)
    ensures Clear(orig, num2 + 1, 64) && !Clear(orig, num2 + 1 - h, num2 + 1)
  {
    w2, num2 := w, num;
    if Clear(w, 64 - h, 64) {
      assert forall i {:trigger orig[i]} :: num - h < i <= num ==> orig[i] == w[i + (63 - num)];
      num2 := num - h;
      w2 := Shl(w, h);
      assert w2 == Shl(orig, 63 - num2);
    } else {
      var k :| 64 - h <= k < 64 && w[k];
      assert orig[k - (63 - num)];
    }
  }

  /** The greatest set bit. */
  method Fls(word0: word) returns (num: nat)
    requires !Zero(word0)
    ensures num < 64 && word0[num] && Clear(word0, num + 1, 64)
  {
    num := BITS_PER_LONG - 1;
    var w := word0;
    assert w == Shl(word0, 0);
    w, num := NarrowHigh(w, num, 32, word0);
    w, num := NarrowHigh(w, num, 16, word0);
    w, num := NarrowHigh(w, num, 8, word0);
    w, num := NarrowHigh(w, num, 4, word0);
    w, num := NarrowHigh(w, num, 2, word0);
    w, num := NarrowHigh(w, num, 1, word0);
  }

  // ---------- over a bitmap ----------

  predicate Holds(addr: seq<word>, size: nat) { size <= 64 * |addr| }

  /** Bit k of the bitmap. */
  predicate Bit(addr: seq<word>, k: nat)
    requires Holds(addr, k + 1)
  {
    addr[k / 64][k % 64]
  }

  /** No bit equal to b in [lo, hi). */
  predicate None(addr: seq<word>, b: bool, lo: nat, hi: nat)
    requires Holds(addr, hi)
  {
    forall k: nat :: lo <= k < hi ==> Bit(addr, k) != b
  }

  /** r is where a search for b from lo, bit by bit, stops. */
  predicate Stops(addr: seq<word>, b: bool, lo: nat, size: nat, r: nat)
    requires Holds(addr, size)
  {
    (r == size || (lo <= r < size && Bit(addr, r) == b)) && None(addr, b, lo, r)
  }

  /** Bit k lies in word k / 64. */
  lemma InWord(addr: seq<word>, p: nat)
    requires p < |addr|
    ensures forall k: nat {:trigger Bit(addr, k)} :: 64 * p <= k < 64 * p + 64 ==> Bit(addr, k) == addr[p][k - 64 * p]
  {
  }

  /** The bits of a word that a search for b is after: the zero-bit searches complement the word. */
  function Hits(w: word, b: bool): word {
    if b then w else Not(w)
  }

  /** Setting bits before complementing masks them out, so both kinds of search share their tail. */
  lemma FillIsMask(w: word, h: nat)
    ensures Not(FillBelow(w, h)) == From(Not(w), h) && Not(FillFrom(w, h)) == Below(Not(w), h)
  {
  }

  /** The tail of every search: the last word counts only below `size`. */
  method LastWord(addr: seq<word>, b: bool, p: nat, tmp: word, size: nat, ghost lo: nat) returns (r: nat)
    requires p < |addr| && 0 < size <= 64 && 64 * p + size <= 64 * |addr|
    requires lo <= 64 * p + size && None(addr, b, lo, if lo < 64 * p then 64 * p else lo)
    requires forall i :: 0 <= i < 64 ==> Hits(tmp, b)[i] == (64 * p + i >= lo && addr[p][i] == b)
    ensures Stops(addr, b, lo, 64 * p + size, r)
  {
    InWord(addr, p);
    FillIsMask(tmp, size);
    var kept := if b then Below(tmp, size) else Not(FillFrom(tmp, size));
    assert forall i :: 0 <= i < size ==> kept[i] == Hits(tmp, b)[i];
    if Zero(kept) {
      return 64 * p + size;
    }
    var n := Ffs(kept);
    r := 64 * p + n;
  }

  /** Whole words first, then the last one. */
  method WholeWords(addr: seq<word>, b: bool, p0: nat, size0: nat, ghost lo: nat) returns (r: nat)
    requires 64 * p0 <= size0 && Holds(addr, size0) && lo <= 64 * p0 && None(addr, b, lo, 64 * p0)
    ensures Stops(addr, b, lo, size0, r)
  {
    var p, size: nat := p0, size0 - 64 * p0;
    while size >= 64
      invariant 64 * p + size == size0 && lo <= 64 * p && None(addr, b, lo, 64 * p)
    {
      InWord(addr, p);
      var hits := Hits(addr[p], b);
      assert forall i :: 0 <= i < 64 ==> hits[i] == (addr[p][i] == b);
      if !Zero(hits) {
        var n := Ffs(hits);
        return 64 * p + n;
      }
      p, size := p + 1, size - 64;
    }
    if size == 0 {
      return 64 * p;
    }
    r := LastWord(addr, b, p, addr[p], size, lo);
  }

  /** First set bit, or first zero bit, as a search bit by bit would find it. */
  method FindFirst(addr: seq<word>, b: bool, size: nat) returns (r: nat)
    requires Holds(addr, size)
    ensures Stops(addr, b, 0, size, r)
  {
    r := WholeWords(addr, b, 0, size, 0);
  }

  /** Next set bit, or next zero bit, at or after an offset. */
  method FindNext(addr: seq<word>, b: bool, size0: nat, offset0: nat) returns (r: nat)
    requires Holds(addr, size0)
    ensures Stops(addr, b, offset0, size0, r)
  {
    if offset0 >= size0 {
      return size0;
    }
    var p, offset := offset0 / 64, offset0 % 64;
    var size: nat := size0 - 64 * p;
    if offset != 0 {
      InWord(addr, p);
      FillIsMask(addr[p], offset);
      var tmp := if b then From(addr[p], offset) else FillBelow(addr[p], offset);
      var hits := Hits(tmp, b);
      assert forall i :: 0 <= i < 64 ==> hits[i] == (i >= offset && addr[p][i] == b);
      if size < 64 {
        r := LastWord(addr, b, p, tmp, size, offset0);
        return;
      }
      if !Zero(hits) {
        var n := Ffs(hits);
        return 64 * p + n;
      }
      p := p + 1;
    }
    r := WholeWords(addr, b, p, size0, offset0);
  }

  /** The last set bit, or the size when there is none. */
  method FindLast(addr: seq<word>, size: nat) returns (r: nat)
    requires Holds(addr, size)
    ensures None(addr, true, if r < size then r + 1 else 0, size)
    ensures r == size || (r < size && Bit(addr, r))
  {
    var words: nat := size / 64;
    if size % 64 != 0 {
      InWord(addr, words);
      var tmp := Below(addr[words], size % 64);
      assert forall i :: 0 <= i < size % 64 ==> tmp[i] == addr[words][i];
      if !Zero(tmp) {
        var n := Fls(tmp);
        return 64 * words + n;
      }
    }
    while words > 0
      invariant 64 * words <= size && None(addr, true, 64 * words, size)
    {
      words := words - 1;
      InWord(addr, words);
      var tmp := addr[words];
      if !Zero(tmp) {
        var n := Fls(tmp);
        return 64 * words + n;
      }
    }
    r := size;
  }

  /** Iterating over the set bits visits exactly the set bits, once each and in increasing order. */
  method ForEachSetBit(addr: seq<word>, size: nat) returns (visited: seq<nat>)
    requires Holds(addr, size)
    ensures forall k: nat :: k in visited <==> k < size && Bit(addr, k)
    ensures forall i, j :: 0 <= i < j < |visited| ==> visited[i] < visited[j]
  {
    visited := [];
    var bit := FindFirst(addr, true, size);
    while bit < size
      invariant bit <= size && (bit < size ==> Bit(addr, bit))
      invariant forall k: nat :: k in visited <==> k < bit && Bit(addr, k)
      invariant forall i, j :: 0 <= i < j < |visited| ==> visited[i] < visited[j]
      decreases size - bit
    {
      assert forall i :: 0 <= i < |visited| ==> visited[i] in visited;
      visited := visited + [bit];
      bit := FindNext(addr, true, size, bit + 1);
    }
  }
}
