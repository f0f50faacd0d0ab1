/**
 Unsigned machine arithmetic on natural numbers: powers of two for shifts and masks, and
 the bitwise OR of C, with the cases in which OR is the same as addition.
 */
module Bits {

  type Byte = b: nat | b < 256

  type Bit = b: nat | b < 2

  function Pow2(n: nat): (p: nat)
    ensures p >= 1
  {
    if n == 0 then 1 else 2 * Pow2(n - 1)
  }

  lemma {:induction false} Pow2Add(m: nat, n: nat)
    ensures Pow2(m + n) == Pow2(m) * Pow2(n)
  {
    if m > 0 {
      Pow2Add(m - 1, n);
      assert 2 * (Pow2(m - 1) * Pow2(n)) == (2 * Pow2(m - 1)) * Pow2(n);
    }
  }

  lemma {:induction false} Pow2Monotone(m: nat, n: nat)
    requires m <= n
    ensures Pow2(m) <= Pow2(n)
    decreases n
  {
    if m < n {
      Pow2Monotone(m, n - 1);
    }
  }

  /** Bitwise OR of two unsigned numbers. */
  function Or(a: nat, b: nat): nat
    decreases a + b
  {
    if a == 0 then b
    else if b == 0 then a
    else 2 * Or(a / 2, b / 2) + (if a % 2 == 1 || b % 2 == 1 then 1 else 0)
  }

  /** When the bits of a lie below the bits of b * 2^k, OR is addition. */
  lemma {:induction false} OrShifted(a: nat, b: nat, k: nat)
    requires a < Pow2(k)
    ensures Or(a, b * Pow2(k)) == a + b * Pow2(k)
  {
    if k > 0 && a > 0 && b > 0 {
      var half := b * Pow2(k - 1);
      assert b * Pow2(k) == 2 * half by {
        assert b * (2 * Pow2(k - 1)) == 2 * (b * Pow2(k - 1));
      }
      OrShifted(a / 2, b, k - 1);
    }
  }

  /** Bits above the lowest n are not touched by OR-ing in a number below 2^n. */
  lemma {:induction false} OrHigh(g: nat, h: nat, m: nat, n: nat)
    requires h < Pow2(n) && m < Pow2(n)
    ensures Or(g * Pow2(n) + h, m) == g * Pow2(n) + Or(h, m)
    decreases n
  {
    if n > 0 && m > 0 {
      MulDouble(g, Pow2(n - 1));
      OrHigh(g, h / 2, m / 2, n - 1);
      OrZero(m / 2);
    }
  }

  lemma OrZero(m: nat)
    ensures Or(0, m) == m && Or(m, 0) == m
  {
  }

  lemma MulMonotone(a: nat, b: nat, c: nat)
    requires a <= b
    ensures a * c <= b * c
  {
  }

  lemma DivisionTheorem(x: nat, d: nat)
    requires d > 0
    ensures x == x / d * d + x % d && x % d < d && x / d >= 0
  {
  }

  lemma DivBelow(x: nat, a: nat, b: nat)
    requires a > 0 && x < a * b
    ensures x / a < b
  {
    if x / a >= b {
      MulMonotone(b, x / a, a);
    }
  }

  lemma MulDouble(a: nat, b: nat)
    ensures a * (2 * b) == 2 * (a * b)
  {
  }

  lemma DivModUnique(d: nat, q: nat, r: nat)
    requires r < d
    ensures (r + q * d) / d == q && (r + q * d) % d == r
  {
    var x := r + q * d;
    if x / d > q {
      MulMonotone(q + 1, x / d, d);
    } else if x / d < q {
      MulMonotone(x / d + 1, q, d);
    }
  }

  lemma DivModIff(c: nat, d: nat, q: nat, r: nat)
    requires r < d
    ensures c == r + q * d <==> c / d == q && c % d == r
  {
    DivModUnique(d, q, r);
    DivisionTheorem(c, d);
  }

  lemma ModOfMod(v: nat, p: nat, q: nat)
    requires p > 0 && q > 0
    ensures p * q > 0 && v % (p * q) % p == v % p
  {
    var m := p * q;
    DivisionTheorem(v, m);
    var h: nat, r: nat := v / m, v % m;
    DivisionTheorem(r, p);
    var h1: nat, r1: nat := r / p, r % p;
    assert h * m == h * q * p;
    MulSum(h * q, h1, p);
    DivModUnique(p, h * q + h1, r1);
  }

  lemma MulSum(a: nat, b: nat, c: nat)
    ensures (a + b) * c == a * c + b * c
  {
  }

  // ---------------------------------------------------------------------------------------
  // Numbers as bits.

  /** The low n bits of v, most significant first. */
  function HighBitsFirst(v: nat, n: nat): (bits: seq<Bit>)
    ensures |bits| == n
  {
    if n == 0 then [] else HighBitsFirst(v / 2, n - 1) + [v % 2]
  }

  function LowBitsFirst(v: nat, n: nat): (bits: seq<Bit>)
    ensures |bits| == n
  {
    if n == 0 then [] else [v % 2] + LowBitsFirst(v / 2, n - 1)
  }

  /** The number whose bits these are, least significant first. */
  function LowFirst(bits: seq<Bit>): (v: nat) {
    if bits == [] then 0 else bits[0] + 2 * LowFirst(bits[1..])
  }

  lemma {:induction false} LowFirstOfValue(v: nat, n: nat)
    requires v < Pow2(n)
    ensures LowFirst(LowBitsFirst(v, n)) == v
  {
    if n > 0 {
      LowFirstOfValue(v / 2, n - 1);
      var bits := LowBitsFirst(v, n);
      assert bits[1..] == LowBitsFirst(v / 2, n - 1);
    }
  }
}
