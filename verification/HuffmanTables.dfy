/**
 The code table of the gzip decoder, filled in place: each symbol's code by counting and bit reversal,
 and the linear search for the symbol that begins a window.
 */
module HuffmanTables {
  import opened Wrappers
  import opened Bits
  import opened Huffman

  /** bit_reverse. */
  method BitReverse(code: nat, bits: nat) returns (ret: nat)
    ensures ret == Reverse(code, bits)
  {
    hide Reverse, Pow2, Or;
    ret := 0;
    ReverseNone(code);
    for i := 0 to bits
      invariant ret == Reverse(code, i) * Pow2(bits - i)
    {
      var one := Pow2(bits - i - 1);
      Pow2Step(bits - i);
      ReverseSplit(code, i, 1);
      ReverseOne(code / Pow2(i) % 2);
      ReverseLow(code / Pow2(i), 1);
      MulDouble(Reverse(code, i), one);
      MulOver(Reverse(code, i), 2, code / Pow2(i) % 2, one);
      if code / Pow2(i) % 2 == 1 {
        OrHigh(Reverse(code, i), 0, one, bits - i);
        OrZero(one);
        ret := Or(ret, one);
      }
    }
    Pow2Step(0);
  }

  lemma ReverseNone(code: nat)
    ensures Reverse(code, 0) == 0
  {
  }

  /** huft_get_code: the counting formula, in a 16-bit variable. */
  method GetCode(b: seq<nat>, k: nat) returns (code: nat)
    requires k < |b| && Lengths(b)
    ensures code == if b[k] == 0 then 0 else Reverse(Code(b, k), b[k])
  {
    hide Pow2, Reverse, Code, Count, Shorter;
    var bits := b[k];
    NoCodes(b, bits);
    if bits == 0 {
      return 0;
    }
    code := 0;
    for i := 0 to |b|
      invariant code == (Shorter(b, bits, i) + Count(b, bits, if i <= k then i else k)) % 0x10000
    {
      CodeStep(b, k, i);
      if 0 < b[i] < bits {
        code := (code + Pow2(bits - b[i])) % 0x10000;
      } else if i < k && b[i] == bits {
        code := (code + 1) % 0x10000;
      }
    }
    CodeIsSum(b, k);
    ReverseWord(Code(b, k), bits);
    code := BitReverse(code, bits);
  }

  lemma NoCodes(b: seq<nat>, bits: nat)
    ensures Shorter(b, bits, 0) == Count(b, bits, 0) == 0
  {
  }

  /** What one more symbol adds to the count of huft_get_code. */
  lemma CodeStep(b: seq<nat>, k: nat, i: nat)
    requires k < |b| && i < |b| && b[k] > 0
    ensures Shorter(b, b[k], i + 1) + Count(b, b[k], if i + 1 <= k then i + 1 else k) ==
            Shorter(b, b[k], i) + Count(b, b[k], if i <= k then i else k)
              + (if 0 < b[i] < b[k] then Pow2(b[k] - b[i]) else if i < k && b[i] == b[k] then 1 else 0)
  {
    hide Pow2;
  }

  lemma CodeIsSum(b: seq<nat>, k: nat)
    requires k < |b| && Lengths(b) && b[k] > 0
    ensures Code(b, k) == Shorter(b, b[k], |b|) + Count(b, b[k], k)
  {
    ShorterIsNextCode(b, b[k]);
  }

  lemma ReverseWord(v: nat, n: nat)
    requires n <= 16
    ensures Reverse(v % 0x10000, n) == Reverse(v, n)
  {
    assert Pow2(16) == 0x10000 by {
      assert Pow2(4) == 16;
      assert Pow2(8) == 256;
      assert Pow2(12) == 4096;
    }
    Pow2Add(n, 16 - n);
    ModOfMod(v, Pow2(n), Pow2(16 - n));
    ReverseLow(v, n);
    ReverseLow(v % 0x10000, n);
  }

  /** Codewords in the program's bit order. */
  predicate IsTable(lens: seq<nat>, t: seq<nat>) {
    |t| == |lens| && forall k :: 0 <= k < |lens| ==> t[k] == if lens[k] == 0 then 0 else Reverse(Code(lens, k), lens[k])
  }

  /** huft_build_table. */
  method BuildTable(b: seq<nat>, t: array<nat>)
    requires |b| <= t.Length && Lengths(b)
    modifies t
    ensures IsTable(b, t[..|b|])
  {
    hide Reverse, Code;
    for i := 0 to |b|
      invariant forall k :: 0 <= k < i ==> t[k] == if b[k] == 0 then 0 else Reverse(Code(b, k), b[k])
    {
      t[i] := GetCode(b, i);
    }
  }

  /** huft_get_value; None for -1. */
  method GetValue(b: seq<nat>, t: seq<nat>, code: nat) returns (value: Option<nat>, bits: nat)
    requires IsTable(b, t)
    ensures value == Symbol(b, code)
    ensures value.Some? ==> bits == b[value.value]
  {
    hide Reverse, Code, Pow2;
    var i := 0;
    while i < |b|
      invariant 0 <= i <= |b|
      invariant Symbol(b, code) == Find(b, code, i)
    {
      if b[i] != 0 && code % Pow2(b[i]) == t[i] {
        return Some(i), b[i];
      }
      i := i + 1;
    }
    return None, 0;
  }
}
