/** Division by a variable block size. */
module Arith {
  lemma {:induction false} MulAtLeast(k: nat, d: nat)
    requires k >= 1
    ensures k * d >= d
  {
  }

  lemma {:induction false} MulGap(k: nat, q: nat, d: nat)
    requires k < q
    ensures q * d - k * d >= d
  {
    MulAtLeast(q - k, d);
    assert (q - k) * d == q * d - k * d;
  }

  lemma {:induction false} DivMod(p: nat, d: nat)
    requires d > 0
    ensures p == p / d * d + p % d && p % d < d
  {
  }

  lemma {:induction false} DivUnique(p: nat, d: nat, q: nat, r: nat)
    requires d > 0 && p == q * d + r && r < d
    ensures p / d == q && p % d == r
  {
    DivMod(p, d);
    if p / d < q {
      MulGap(p / d, q, d);
    } else if p / d > q {
      MulGap(q, p / d, d);
    }
  }

  lemma {:induction false} DivOrder(p: nat, q: nat, d: nat)
    requires d > 0 && p <= q
    ensures p / d <= q / d
  {
    DivMod(p, d);
    DivMod(q, d);
    if p / d > q / d {
      MulGap(q / d, p / d, d);
    }
  }

  /** Where block b begins: b * size, defined without multiplication. */
  function Base(b: nat, size: nat): nat {
    if b == 0 then 0 else Base(b - 1, size) + size
  }

  lemma {:induction false} BaseNext(k: nat, size: nat)
    ensures Base(k + 1, size) == Base(k, size) + size && Base(0, size) == 0
  {
  }

  lemma {:induction false} BaseIsProduct(b: nat, size: nat)
    ensures Base(b, size) == b * size
  {
    if b > 0 {
      BaseIsProduct(b - 1, size);
      assert b * size == (b - 1) * size + size;
    }
  }

  lemma {:induction false} BaseOrder(b: nat, c: nat, size: nat)
    requires b <= c
    ensures Base(b, size) <= Base(c, size)
    ensures b < c ==> Base(b, size) + size <= Base(c, size)
  {
    if b < c {
      BaseOrder(b, c - 1, size);
    }
  }

  /** The block that position p falls into. */
  lemma {:induction false} BaseOfPosition(p: nat, size: nat)
    requires size > 0
    ensures Base(p / size, size) <= p < Base(p / size, size) + size
  {
    DivMod(p, size);
    BaseIsProduct(p / size, size);
  }

  // ---------- bits ----------

  /** Bit k of a word, bit 0 being the lowest. */
  predicate BitSet(n: nat, k: nat)
    decreases k
  {
    if k == 0 then n % 2 == 1 else BitSet(n / 2, k - 1)
  }

  function Pow2(n: nat): nat { if n == 0 then 1 else 2 * Pow2(n - 1) }

  /** A number above n low bits and a number below them. */
  lemma {:induction false} BitsJoin(a: nat, b: nat, n: nat, k: nat)
    requires b < Pow2(n)
    ensures BitSet(a * Pow2(n) + b, k) == if k < n then BitSet(b, k) else BitSet(a, k - n)
  {
    if n > 0 {
      var x := a * Pow2(n) + b;
      assert x == 2 * (a * Pow2(n - 1) + b / 2) + b % 2;
      if k > 0 {
        BitsJoin(a, b / 2, n - 1, k - 1);
      }
    }
  }

  lemma {:induction false} NoBits(k: nat)
    ensures !BitSet(0, k)
  {
    if k > 0 {
      NoBits(k - 1);
    }
  }
}
