/**
 The tables of RFC 1951, sections 3.2.5 to 3.2.7, by the rules behind them.  Decoder and format use the
 same tables, so that a block decodes to its meaning does not fix them.
 */
module InflateTables {
  import opened Wrappers
  import opened Bits
  import opened Huffman
  import opened InflateModel
  import opened InflateFormat
  import opened InflateHeader

  // ---------------------------------------------------------------------------------------
  // Lengths and distances.

  /** Length symbols have no extra bits below 265, and then one more every four symbols; 285 has none. */
  lemma LengthExtraIs(s: nat)
    requires 256 < s < 286
    ensures LengthExtra(s) == if s < 265 || s == 285 then 0 else (s - 261) / 4
  {
  }

  /** Distance symbols have no extra bits below 4, and then one more every two symbols. */
  lemma DistanceExtraIs(d: nat)
    requires d < MAX_DIST_CODES
    ensures DistanceExtra(d) == if d < 4 then 0 else (d - 2) / 2
  {
  }

  /** Each symbol begins where the one before it ends, from 3 on; 284 could go up to 258, which has 285. */
  lemma LengthBases(s: nat)
    requires 256 < s < 286
    ensures s == 257 ==> LengthBase(s) == 3
    ensures 257 < s < 285 ==> LengthBase(s) == LengthBase(s - 1) + Pow2(LengthExtra(s - 1))
    ensures s == 284 ==> LengthBase(s) + Pow2(LengthExtra(s)) == 259
    ensures s == 285 ==> LengthBase(s) == 258
  {
    hide Pow2;
    LengthsMeet(if s == 257 then 0 else s - 258);
    LengthsMeet(27);
  }

  lemma DistanceBases(d: nat)
    requires d < MAX_DIST_CODES
    ensures d == 0 ==> DistanceBase(d) == 1
    ensures d > 0 ==> DistanceBase(d) == DistanceBase(d - 1) + Pow2(DistanceExtra(d - 1))
    ensures d == 29 ==> DistanceBase(d) + Pow2(DistanceExtra(d)) == 32769
  {
    hide Pow2;
    DistancesMeet(if d == 0 then 0 else d - 1);
    LastExtras();
  }

  lemma {:induction false} LengthsApart(s: nat, t: nat)
    requires 256 < s < t < 285
    ensures LengthBase(s) + Pow2(LengthExtra(s)) <= LengthBase(t)
    decreases t
  {
    hide LengthBase, LengthExtra, Pow2;
    LengthBases(t);
    if s + 1 < t {
      LengthsApart(s, t - 1);
    }
  }

  lemma {:induction false} DistancesApart(d: nat, e: nat)
    requires d < e < MAX_DIST_CODES
    ensures DistanceBase(d) + Pow2(DistanceExtra(d)) <= DistanceBase(e)
    decreases e
  {
    hide DistanceBase, DistanceExtra, Pow2;
    DistanceBases(e);
    if d + 1 < e {
      DistancesApart(d, e - 1);
    }
  }

  /** Symbol and extra bits spell this length. */
  predicate SpellsLength(s: nat, x: nat, length: nat) {
    256 < s < 286 && x < Pow2(LengthExtra(s)) && LengthBase(s) + x == length
  }

  predicate SpellsDistance(d: nat, y: nat, distance: nat) {
    d < MAX_DIST_CODES && y < Pow2(DistanceExtra(d)) && DistanceBase(d) + y == distance
  }

  /** Every length 3..257 has exactly one spelling, and 258 has exactly two. */
  lemma LengthSpellings(s: nat, x: nat, t: nat, y: nat, length: nat)
    requires SpellsLength(s, x, length) && SpellsLength(t, y, length)
    ensures 3 <= length <= 258
    ensures length < 258 ==> s == t && x == y && s < 285
    ensures length == 258 ==> (s == 284 && x == 31) || (s == 285 && x == 0)
    ensures SpellsLength(284, 31, 258) && SpellsLength(285, 0, 258)
  {
    hide Pow2, LengthBase, LengthExtra;
    LastLengths();
    LengthInside(s, x);
    LengthInside(t, y);
    if s < t < 285 {
      LengthsApart(s, t);
    } else if t < s < 285 {
      LengthsApart(t, s);
    }
  }

  lemma LastLengths()
    ensures LengthBase(284) == 227 && LengthExtra(284) == 5 && LengthBase(285) == 258 && LengthExtra(285) == 0
    ensures Pow2(5) == 32 && Pow2(0) == 1
  {
  }

  /** Below symbol 285 lengths reach 258 only as 284 with all extra bits set. */
  lemma LengthInside(s: nat, x: nat)
    requires 256 < s < 286 && x < Pow2(LengthExtra(s))
    ensures 3 <= LengthBase(s) + x <= 258
    ensures LengthBase(s) + x == 258 ==> (s == 284 && x == 31) || (s == 285 && x == 0)
    ensures s == 285 ==> LengthBase(s) + x == 258
  {
    hide Pow2, LengthBase, LengthExtra;
    LastLengths();
    if s < 284 {
      LengthsApart(s, 284);
    }
  }

  /** Every distance 1..32768 has exactly one spelling, and no other distance has any. */
  lemma DistanceSpellings(d: nat, x: nat, e: nat, y: nat, distance: nat)
    requires SpellsDistance(d, x, distance) && SpellsDistance(e, y, distance)
    ensures 1 <= distance <= 32768 && d == e && x == y
  {
    hide Pow2, DistanceBase, DistanceExtra;
    DistanceBases(29);
    if d < 29 {
      DistancesApart(d, 29);
    }
    if d < e {
      DistancesApart(d, e);
    } else if e < d {
      DistancesApart(e, d);
    }
  }

  /** And each of them has one. */
  lemma SpellingsExist(length: nat, distance: nat) returns (t: Token)
    requires 3 <= length <= 258 && 1 <= distance <= 32768
    ensures t.Pointer? && SpellsLength(t.symbol, t.extra, length) && SpellsDistance(t.distSymbol, t.distExtra, distance)
  {
    hide Pow2, LengthBase, LengthExtra, DistanceBase, DistanceExtra;
    t := PointerExists(length, distance);
  }

  // ---------------------------------------------------------------------------------------
  // The fixed codes.

  lemma {:induction false} CountRepeated(lens: seq<nat>, l: nat, lo: nat, hi: nat, v: nat)
    requires lo <= hi <= |lens| && l > 0 && forall i :: lo <= i < hi ==> lens[i] == v
    ensures Count(lens, l, hi) == Count(lens, l, lo) + if v == l then hi - lo else 0
    decreases hi
  {
    if lo < hi {
      CountRepeated(lens, l, lo, hi - 1, v);
    }
  }

  lemma {:induction false} ShorterRepeated(lens: seq<nat>, l: nat, lo: nat, hi: nat, v: nat)
    requires lo <= hi <= |lens| && forall i :: lo <= i < hi ==> lens[i] == v
    ensures Shorter(lens, l, hi) == Shorter(lens, l, lo) + if 0 < v < l then (hi - lo) * Pow2(l - v) else 0
    decreases hi
  {
    hide Pow2;
    if lo < hi {
      ShorterRepeated(lens, l, lo, hi - 1, v);
      if 0 < v < l {
        MulSum(hi - 1 - lo, 1, Pow2(l - v));
      }
    }
  }

  lemma Nothing(lens: seq<nat>, l: nat)
    ensures Count(lens, l, 0) == 0 && Shorter(lens, l, 0) == 0
  {
  }

  /** The fixed distance codes are the 5-bit numbers. */
  lemma FixedDistanceCodes(d: nat)
    requires d < 30
    ensures CodeBits(FixedDistances(), d) == HighBitsFirst(d, 5)
  {
    hide Count, Shorter, NextCode, HighBitsFirst;
    var lens := FixedDistances();
    Nothing(lens, 5);
    ShorterRepeated(lens, 5, 0, 30, 5);
    ShorterIsNextCode(lens, 5);
    CountRepeated(lens, 5, 0, d, 5);
  }

  /** How many of the symbols below k have 7, 8 and 9 bits. */
  lemma FixedCounts(l: nat, k: nat)
    requires 7 <= l <= 9 && k <= 288
    ensures var n := Count(FixedLiterals(), l, k);
            && (k <= 144 ==> n == if l == 8 then k else 0)
            && (144 <= k <= 256 ==> n == if l == 8 then 144 else if l == 9 then k - 144 else 0)
            && (256 <= k <= 280 ==> n == if l == 8 then 144 else if l == 9 then 112 else k - 256)
            && (280 <= k ==> n == if l == 8 then k - 136 else if l == 9 then 112 else 24)
  {
    hide Count, Shorter, FixedLiterals;
    var lens := FixedLiterals();
    Nothing(lens, l);
    if k <= 144 {
      CountRepeated(lens, l, 0, k, 8);
    } else {
      CountRepeated(lens, l, 0, 144, 8);
      if k <= 256 {
        CountRepeated(lens, l, 144, k, 9);
      } else {
        CountRepeated(lens, l, 144, 256, 9);
        if k <= 280 {
          CountRepeated(lens, l, 256, k, 7);
        } else {
          CountRepeated(lens, l, 256, 280, 7);
          CountRepeated(lens, l, 280, k, 8);
        }
      }
    }
  }

  /** Where the fixed codes of 7, 8 and 9 bits begin. */
  lemma FixedStarts(l: nat)
    requires 7 <= l <= 9
    ensures NextCode(FixedLiterals(), l) == if l == 7 then 0 else if l == 8 then 0x30 else 0x190
  {
    hide Shorter, NextCode, FixedLiterals, Pow2;
    var lens := FixedLiterals();
    ShorterIsNextCode(lens, l);
    Nothing(lens, l);
    ShorterRepeated(lens, l, 0, 144, 8);
    ShorterRepeated(lens, l, 144, 256, 9);
    ShorterRepeated(lens, l, 256, 280, 7);
    ShorterRepeated(lens, l, 280, 288, 8);
    OneAndTwo();
  }

  lemma OneAndTwo()
    ensures Pow2(1) == 2 && Pow2(2) == 4
  {
    assert Pow2(2) == 4;
  }

  /** The fixed literal/length codes are those of the table in section 3.2.6 of RFC 1951. */
  lemma FixedLiteralCodes(k: nat)
    requires k < 288
    ensures CodeBits(FixedLiterals(), k) ==
            if k < 144 then HighBitsFirst(0x30 + k, 8)
            else if k < 256 then HighBitsFirst(0x190 + k - 144, 9)
            else if k < 280 then HighBitsFirst(k - 256, 7)
            else HighBitsFirst(0xC0 + k - 280, 8)
  {
    hide Count, NextCode, HighBitsFirst, FixedLiterals;
    var lens := FixedLiterals();
    FixedStarts(lens[k]);
    FixedCounts(lens[k], k);
  }

  // ---------------------------------------------------------------------------------------
  // Code lengths of code lengths, and their runs.

  /** First the runs and 0, then the lengths outwards from the middle: 8, 7, 9, 6, ... 1, 15. */
  lemma BorderIs(i: nat)
    requires i < 19
    ensures BORDER[i] == if i < 3 then 16 + i else if i == 3 then 0 else if i % 2 == 0 then 6 + i / 2 else 9 - i / 2
  {
  }

  /** What runs are coded: 16 repeats 3..6 times, 17 gives 3..10 and 18 gives 11..138 zeros; each count in
      exactly one way, and no other. */
  lemma RunCounts(symbol: nat, n: nat)
    requires 16 <= symbol < 19
    ensures (exists x: nat :: Coded(symbol, x, n)) <==>
            if symbol == 16 then 3 <= n <= 6 else if symbol == 17 then 3 <= n <= 10 else 11 <= n <= 138
    ensures forall x, y: nat :: Coded(symbol, x, n) && Coded(symbol, y, n) ==> x == y
  {
    hide Pow2;
    RunPowers();
    assert Pow2(3) == 8 by { EightIs(); }
    if (if symbol == 16 then 3 <= n <= 6 else if symbol == 17 then 3 <= n <= 10 else 11 <= n <= 138) {
      assert Coded(symbol, n - RunLeast(symbol), n);
    }
  }

  lemma EightIs()
    ensures Pow2(3) == 8
  {
  }

  /** A run symbol with these extra bits stands for n lengths. */
  predicate Coded(symbol: nat, extra: nat, n: nat)
    requires 16 <= symbol < 19
  {
    extra < Pow2(RunBits(symbol)) && Op(symbol, extra).Count() == n
  }

  /** A run appends its count of lengths: the last one again for 16, zeros for 17 and 18. */
  lemma RunAppends(op: Op, lens: seq<nat>)
    requires 16 <= op.symbol < 19 && op.Follows(lens)
    ensures op.Append(lens) == lens + Repeated(if op.symbol == 16 then lens[|lens| - 1] else 0, op.Count())
  {
  }
}
