/**
 A byte string as a stream of bits, least significant bit of each byte first (RFC 1951,
 section 3.1.1), continued by zero bits for ever.
 */
module BitStream {
  import opened Bits

  function ByteAt(src: seq<Byte>, i: nat): Byte {
    if i < |src| then src[i] else 0
  }

  function BitAt(src: seq<Byte>, pos: nat): Bit {
    ByteAt(src, pos / 8) / Pow2(pos % 8) % 2
  }

  /** The next n bits from pos as a number, first bit least significant. */
  function Peek(src: seq<Byte>, pos: nat, n: nat): (r: nat)
    ensures r < Pow2(n)
    decreases n, pos
  {
    if n == 0 then 0 else BitAt(src, pos) + 2 * Peek(src, pos + 1, n - 1)
  }

  lemma {:induction false} PeekSplit(src: seq<Byte>, pos: nat, m: nat, n: nat)
    ensures Peek(src, pos, m + n) == Peek(src, pos, m) + Peek(src, pos + m, n) * Pow2(m)
    decreases m
  {
    hide BitAt;
    if m > 0 {
      PeekSplit(src, pos + 1, m - 1, n);
      MulDouble(Peek(src, pos + m, n), Pow2(m - 1));
    }
  }

  /** Masking keeps the first m bits of a longer look-ahead, shifting drops them. */
  lemma PeekParts(src: seq<Byte>, pos: nat, m: nat, n: nat)
    ensures Peek(src, pos, m + n) % Pow2(m) == Peek(src, pos, m)
    ensures Peek(src, pos, m + n) / Pow2(m) == Peek(src, pos + m, n)
  {
    PeekSplit(src, pos, m, n);
    DivModUnique(Pow2(m), Peek(src, pos + m, n), Peek(src, pos, m));
  }

  lemma {:induction false} PeekByteTail(src: seq<Byte>, i: nat, k: nat)
    requires k <= 8
    ensures Peek(src, 8 * i + k, 8 - k) == ByteAt(src, i) / Pow2(k)
    decreases 8 - k
  {
    hide ByteAt;
    var v := ByteAt(src, i);
    if k < 8 {
      PeekByteTail(src, i, k + 1);
      assert (8 * i + k) / 8 == i && (8 * i + k) % 8 == k;
      HalveDivision(v, Pow2(k));
    } else {
      assert Pow2(8) == 256 by { assert Pow2(4) == 16; assert Pow2(6) == 64; }
    }
  }

  lemma HalveDivision(v: nat, p: nat)
    requires p > 0
    ensures v / (2 * p) == v / p / 2
  {
    var d := 2 * p;
    DivisionTheorem(v, d);
    var h: nat, r: nat := v / d, v % d;
    TwiceOver(h, p);
    if r < p {
      DivModUnique(p, 2 * h, r);
    } else {
      DivModUnique(p, 2 * h + 1, r - p);
    }
  }

  lemma TwiceOver(h: nat, p: nat)
    ensures (2 * h) * p == h * (2 * p) && (2 * h + 1) * p == h * (2 * p) + p
  {
  }

  lemma PeekByte(src: seq<Byte>, i: nat)
    ensures Peek(src, 8 * i, 8) == ByteAt(src, i)
  {
    hide ByteAt, Peek;
    PeekByteTail(src, i, 0);
  }

  // ---------------------------------------------------------------------------------------
  // Bit strings in the stream.

  /** The stream spells `bits` from pos on. */
  predicate Has(src: seq<Byte>, pos: nat, bits: seq<Bit>)
    decreases |bits|
  {
    bits == [] || (BitAt(src, pos) == bits[0] && Has(src, pos + 1, bits[1..]))
  }

  lemma {:induction false} HasAppend(src: seq<Byte>, pos: nat, a: seq<Bit>, b: seq<Bit>)
    ensures Has(src, pos, a + b) <==> Has(src, pos, a) && Has(src, pos + |a|, b)
    decreases |a|
  {
    if a == [] {
      assert a + b == b;
    } else {
      assert (a + b)[1..] == a[1..] + b;
      HasAppend(src, pos + 1, a[1..], b);
    }
  }

  lemma {:induction false} PeekOfHas(src: seq<Byte>, pos: nat, bits: seq<Bit>)
    requires Has(src, pos, bits)
    ensures Peek(src, pos, |bits|) == LowFirst(bits)
    decreases |bits|
  {
    if bits != [] {
      PeekOfHas(src, pos + 1, bits[1..]);
    }
  }

  /** A number written least significant bit first is read back. */
  lemma PeekOfValue(src: seq<Byte>, pos: nat, v: nat, n: nat)
    requires v < Pow2(n) && Has(src, pos, LowBitsFirst(v, n))
    ensures Peek(src, pos, n) == v
  {
    PeekOfHas(src, pos, LowBitsFirst(v, n));
    LowFirstOfValue(v, n);
  }

  /** Beyond the end of the bytes every bit is zero. */
  lemma {:induction false} PeekPastEnd(src: seq<Byte>, pos: nat, n: nat)
    requires pos >= 8 * |src|
    ensures Peek(src, pos, n) == 0
    decreases n
  {
    if n > 0 {
      hide BitAt;
      BitPastEnd(src, pos);
      PeekPastEnd(src, pos + 1, n - 1);
    }
  }

  lemma BitPastEnd(src: seq<Byte>, pos: nat)
    requires pos >= 8 * |src|
    ensures BitAt(src, pos) == 0
  {
    assert pos / 8 >= |src|;
    DivModUnique(Pow2(pos % 8), 0, 0);
  }
}
