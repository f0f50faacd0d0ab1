/**
 The other direction: the choices that spell a symbol, a packet and a stream.  Each decoder is
 shown to be the exact inverse, and the results are put together with the range-coder round trip.
 */
module LzmaCoding {
  import opened Wrappers
  import opened Bits
  import opened RangeCoder
  import opened LzmaModel

  // ---------------------------------------------------------------------------------------
  // Symbols.

  /** The node reached from m by following bits downwards. */
  function Node(m: nat, bits: seq<Bit>): (r: nat)
    ensures First(m, |bits|) <= r < First(m + 1, |bits|)
    decreases |bits|
  {
    if bits == [] then m
    else
      Descend(m, |bits|, bits[0]);
      Node(2 * m + bits[0], bits[1..])
  }

  function TreeChoices(base: nat, m: nat, bits: seq<Bit>): (cs: seq<Choice>)
    decreases |bits|
  {
    if bits == [] then []
    else [Adaptive(base + m, bits[0])] + TreeChoices(base, 2 * m + bits[0], bits[1..])
  }

  function MatchedChoices(base: nat, matchByte: nat, m: nat, bits: seq<Bit>): (cs: seq<Choice>)
    decreases |bits|
  {
    if bits == [] then []
    else
      var expected: Bit := NextBit(matchByte);
      [Adaptive(base + 0x100 + 0x100 * expected + m, bits[0])] +
      if bits[0] == expected then MatchedChoices(base, matchByte * 2, 2 * m + bits[0], bits[1..])
      else TreeChoices(base, 2 * m + bits[0], bits[1..])
  }

  function DirectChoices(bits: seq<Bit>): (cs: seq<Choice>) {
    if bits == [] then [] else [Direct(bits[0])] + DirectChoices(bits[1..])
  }

  /** The final state of a decoder whose answer is the wanted value. */
  function Expect(r: Answer, wanted: nat): Option<Rc> {
    if r.Answer? && r.value == wanted then Some(r.rc) else None
  }

  lemma ReplayCons(src: seq<Byte>, rc: Rc, c: Choice, cs: seq<Choice>)
    requires rc.Valid(src)
    ensures Replay(src, rc, [c] + cs) ==
            var r := DecodeChoice(src, rc, c);
            if r.Answer? && r.value == c.bit then Replay(src, r.rc, cs) else None
  {
    var all := [c] + cs;
    assert all[0] == c && all[1..] == cs;
  }

  lemma {:induction false} TreeInverse(src: seq<Byte>, rc: Rc, base: nat, m: nat, bits: seq<Bit>)
    requires rc.Valid(src) && base + First(m + 1, |bits|) <= |rc.probs|
    ensures Replay(src, rc, TreeChoices(base, m, bits)) ==
            Expect(DecodeTree(src, rc, base, |bits|, m), Node(m, bits))
    decreases |bits|
  {
    hide DecodeBit, First;
    if bits != [] {
      var levels := |bits|;
      var next := 2 * m + bits[0];
      Descend(m, levels, bits[0]);
      ReplayCons(src, rc, Adaptive(base + m, bits[0]), TreeChoices(base, next, bits[1..]));
      var r := DecodeBit(src, rc, base + m);
      if r.Answer? {
        Descend(m, levels, r.value);
        if r.value == bits[0] {
          TreeInverse(src, r.rc, base, next, bits[1..]);
        }
      }
    }
  }

  /** One bit of a compared literal. */
  lemma MatchedBit(src: seq<Byte>, rc: Rc, base: nat, matchByte: nat, levels: nat, m: nat)
    requires rc.Valid(src) && levels > 0 && First(m + 1, levels) <= 0x200 && base + 0x300 <= |rc.probs|
    ensures 0x100 + 0x100 * NextBit(matchByte) + m < 0x300
    ensures var a := DecodeBit(src, rc, base + 0x100 + 0x100 * NextBit(matchByte) + m);
            && (a.OutOfInput? ==> DecodeMatched(src, rc, base, matchByte, levels, m) == OutOfInput)
            && (a.Answer? ==>
                  && First(2 * m + a.value + 1, levels - 1) <= 0x200
                  && DecodeMatched(src, rc, base, matchByte, levels, m) ==
                     if a.value == NextBit(matchByte)
                     then DecodeMatched(src, a.rc, base, matchByte * 2, levels - 1, 2 * m + a.value)
                     else DecodeTree(src, a.rc, base, levels - 1, 2 * m + a.value))
  {
    hide DecodeBit, First, DecodeTree, NextBit;
    Descend(m, levels, 1);
    var a := DecodeBit(src, rc, base + 0x100 + 0x100 * NextBit(matchByte) + m);
    if a.Answer? {
      Descend(m, levels, a.value);
    }
  }

  lemma {:induction false} MatchedInverse(src: seq<Byte>, rc: Rc, base: nat, matchByte: nat, m: nat, bits: seq<Bit>)
    requires rc.Valid(src) && First(m + 1, |bits|) <= 0x200 && base + 0x300 <= |rc.probs|
    ensures Replay(src, rc, MatchedChoices(base, matchByte, m, bits)) ==
            Expect(DecodeMatched(src, rc, base, matchByte, |bits|, m), Node(m, bits))
    decreases |bits|
  {
    hide DecodeBit, First, DecodeTree, TreeChoices, NextBit, Replay;
    if bits == [] {
      ReplayNothing(src, rc);
    } else {
      hide DecodeMatched, Rc.Valid;
      var expected: Bit := NextBit(matchByte);
      var i := base + 0x100 + 0x100 * expected + m;
      var next := 2 * m + bits[0];
      MatchedBit(src, rc, base, matchByte, |bits|, m);
      var rest := if bits[0] == expected then MatchedChoices(base, matchByte * 2, next, bits[1..])
                  else TreeChoices(base, next, bits[1..]);
      ReplayCons(src, rc, Adaptive(i, bits[0]), rest);
      var r := DecodeBit(src, rc, i);
      if r.Answer? && r.value == bits[0] {
        if r.value == expected {
          MatchedInverse(src, r.rc, base, matchByte * 2, next, bits[1..]);
        } else {
          TreeInverse(src, r.rc, base, next, bits[1..]);
        }
      }
    }
  }

  lemma ReplayNothing(src: seq<Byte>, rc: Rc)
    requires rc.Valid(src)
    ensures Replay(src, rc, []) == Some(rc)
  {
  }


  lemma {:induction false} ReverseInverse(src: seq<Byte>, rc: Rc, base: nat, m: nat, bits: seq<Bit>)
    requires rc.Valid(src) && base + First(m + 1, |bits|) <= |rc.probs|
    ensures Replay(src, rc, TreeChoices(base, m, bits)) ==
            Expect(DecodeReverse(src, rc, base, |bits|, m), LowFirst(bits))
    decreases |bits|
  {
    hide DecodeBit, First, Pow2;
    if bits != [] {
      var levels := |bits|;
      var next := 2 * m + bits[0];
      Descend(m, levels, bits[0]);
      ReplayCons(src, rc, Adaptive(base + m, bits[0]), TreeChoices(base, next, bits[1..]));
      var r := DecodeBit(src, rc, base + m);
      if r.Answer? {
        Descend(m, levels, r.value);
        if r.value == bits[0] {
          ReverseInverse(src, r.rc, base, next, bits[1..]);
        }
      }
    }
  }

  lemma {:induction false} DirectInverse(src: seq<Byte>, rc: Rc, acc: nat, bits: seq<Bit>)
    requires rc.Valid(src)
    ensures Replay(src, rc, DirectChoices(bits)) ==
            Expect(DecodeDirects(src, rc, |bits|, acc), Node(acc, bits))
    decreases |bits|
  {
    hide DecodeDirect, First;
    if bits != [] {
      ReplayCons(src, rc, Direct(bits[0]), DirectChoices(bits[1..]));
      var r := DecodeDirect(src, rc);
      if r.Answer? {
        Descend(acc, |bits|, r.value);
        if r.value == bits[0] {
          DirectInverse(src, r.rc, 2 * acc + bits[0], bits[1..]);
        }
      }
    }
  }

  // ---------------------------------------------------------------------------------------
  // Values as bits.

  lemma {:induction false} NodeAppend(m: nat, bits: seq<Bit>, last: Bit)
    ensures Node(m, bits + [last]) == 2 * Node(m, bits) + last
    decreases |bits|
  {
    if bits != [] {
      assert (bits + [last])[1..] == bits[1..] + [last];
      NodeAppend(2 * m + bits[0], bits[1..], last);
    }
  }

  lemma {:induction false} FirstDouble(m: nat, n: nat)
    ensures First(m, n + 1) == 2 * First(m, n)
    decreases n
  {
    if n > 0 {
      FirstDouble(2 * m, n - 1);
    }
  }

  lemma {:induction false} NodeOfValue(m: nat, v: nat, n: nat)
    requires v < Pow2(n)
    ensures Node(m, HighBitsFirst(v, n)) == First(m, n) + v
  {
    if n > 0 {
      NodeOfValue(m, v / 2, n - 1);
      NodeAppend(m, HighBitsFirst(v / 2, n - 1), v % 2);
      FirstDouble(m, n - 1);
    }
  }

  // ---------------------------------------------------------------------------------------
  // Lengths and distances.

  function SymbolChoices(base: nat, levels: nat, v: nat): seq<Choice> {
    TreeChoices(base, 1, HighBitsFirst(v, levels))
  }

  lemma SymbolInverse(src: seq<Byte>, rc: Rc, base: nat, levels: nat, v: nat, offset: nat)
    requires rc.Valid(src) && v < Pow2(levels) && base + 2 * Pow2(levels) <= |rc.probs|
    ensures Replay(src, rc, SymbolChoices(base, levels, v)) ==
            Expect(DecodeSymbol(src, rc, base, levels, offset), offset + v)
  {
    hide DecodeTree, TreeChoices, HighBitsFirst, Node, First, Replay, Pow2;
    FirstIsProduct(1, levels);
    FirstIsProduct(2, levels);
    NodeOfValue(1, v, levels);
    TreeInverse(src, rc, base, 1, HighBitsFirst(v, levels));
  }

  function LengthChoices(base: nat, posState: nat, length: nat): seq<Choice>
    requires length < 272
  {
    if length < 8 then [Adaptive(base, 0)] + SymbolChoices(base + LEN_LOW + 8 * posState, 3, length)
    else [Adaptive(base, 1)] + LongLengthChoices(base, posState, length)
  }

  function LongLengthChoices(base: nat, posState: nat, length: nat): seq<Choice>
    requires 8 <= length < 272
  {
    if length < 16 then [Adaptive(base + 1, 0)] + SymbolChoices(base + LEN_MID + 8 * posState, 3, length - 8)
    else [Adaptive(base + 1, 1)] + SymbolChoices(base + LEN_HIGH, 8, length - 16)
  }

  lemma LengthInverse(src: seq<Byte>, rc: Rc, base: nat, posState: nat, length: nat)
    requires rc.Valid(src) && posState < 16 && base <= REP_LEN_CODER && LITERAL + 768 <= |rc.probs|
    requires length < 272
    ensures Replay(src, rc, LengthChoices(base, posState, length)) ==
            Expect(DecodeLength(src, rc, base, posState), length)
  {
    hide DecodeBit, DecodeSymbol, SymbolChoices, Replay, DecodeLongLength, LongLengthChoices;
    Powers();
    var low := base + LEN_LOW + 8 * posState;
    var long := DecodeBit(src, rc, base);
    if length < 8 {
      ReplayCons(src, rc, Adaptive(base, 0), SymbolChoices(low, 3, length));
      if long.Answer? {
        SymbolInverse(src, long.rc, low, 3, length, 0);
      }
    } else {
      ReplayCons(src, rc, Adaptive(base, 1), LongLengthChoices(base, posState, length));
      if long.Answer? {
        LongLengthInverse(src, long.rc, base, posState, length);
      }
    }
  }

  lemma MidLengthInverse(src: seq<Byte>, rc: Rc, base: nat, posState: nat, length: nat)
    requires rc.Valid(src) && posState < 16 && base <= REP_LEN_CODER && LITERAL + 768 <= |rc.probs|
    requires 8 <= length < 16
    ensures Replay(src, rc, LongLengthChoices(base, posState, length)) ==
            Expect(DecodeLongLength(src, rc, base, posState), length)
  {
    hide DecodeBit, DecodeSymbol, SymbolChoices, Replay, Rc.Valid, Pow2;
    Powers();
    var mid := base + LEN_MID + 8 * posState;
    var longer := DecodeBit(src, rc, base + 1);
    ReplayCons(src, rc, Adaptive(base + 1, 0), SymbolChoices(mid, 3, length - 8));
    if longer.Answer? {
      SymbolInverse(src, longer.rc, mid, 3, length - 8, 8);
    }
  }

  lemma LongLengthInverse(src: seq<Byte>, rc: Rc, base: nat, posState: nat, length: nat)
    requires rc.Valid(src) && posState < 16 && base <= REP_LEN_CODER && LITERAL + 768 <= |rc.probs|
    requires 8 <= length < 272
    ensures Replay(src, rc, LongLengthChoices(base, posState, length)) ==
            Expect(DecodeLongLength(src, rc, base, posState), length)
  {
    hide DecodeBit, DecodeSymbol, SymbolChoices, Replay, Rc.Valid, Pow2;
    Powers();
    var high := base + LEN_HIGH;
    var longer := DecodeBit(src, rc, base + 1);
    if length < 16 {
      MidLengthInverse(src, rc, base, posState, length);
    } else {
      ReplayCons(src, rc, Adaptive(base + 1, 1), SymbolChoices(high, 8, length - 16));
      if longer.Answer? {
        SymbolInverse(src, longer.rc, high, 8, length - 16, 16);
      }
    }
  }

  function FooterChoices(slot: nat, rest: nat): seq<Choice> {
    if slot < 4 then []
    else if slot < 14 then
      TreeChoices(SpecBase(slot), 1, LowBitsFirst(rest, slot / 2 - 1))
    else
      DirectChoices(HighBitsFirst(rest / 16, slot / 2 - 5)) + TreeChoices(ALIGN, 1, LowBitsFirst(rest % 16, 4))
  }

  lemma FooterInverse(src: seq<Byte>, rc: Rc, slot: nat, rest: nat)
    requires rc.Valid(src) && slot < 64 && LITERAL + 768 <= |rc.probs| && rest < SlotWidth(slot)
    ensures Replay(src, rc, FooterChoices(slot, rest)) ==
            Expect(DecodeFooter(src, rc, slot), SlotBase(slot) + rest)
  {
    hide DecodeReverse, TreeChoices, LowBitsFirst, HighBitsFirst, DecodeDirects, DirectChoices, First, LowFirst;
    if 4 <= slot < 14 {
      SlotBaseSmall(slot);
      FirstIsProduct(2, slot / 2 - 1);
      LowFirstOfValue(rest, slot / 2 - 1);
      ReverseInverse(src, rc, SpecBase(slot), 1, LowBitsFirst(rest, slot / 2 - 1));
    } else if slot >= 14 {
      LargeFooterInverse(src, rc, slot, rest);
    }
  }

  lemma LargeFooterInverse(src: seq<Byte>, rc: Rc, slot: nat, rest: nat)
    requires rc.Valid(src) && 14 <= slot < 64 && LITERAL + 768 <= |rc.probs| && rest < SlotWidth(slot)
    ensures Replay(src, rc, FooterChoices(slot, rest)) ==
            Expect(DecodeFooter(src, rc, slot), SlotBase(slot) + rest)
  {
    hide DecodeReverse, TreeChoices, LowBitsFirst, HighBitsFirst, DecodeDirects, DirectChoices;
    hide First, Replay, SlotBase, SlotWidth, LowFirst, Node;
    Powers();
    var count := slot / 2 - 5;
    var direct := HighBitsFirst(rest / 16, count);
    var align := LowBitsFirst(rest % 16, 4);
    SlotBaseLarge(slot);
    NodeOfValue(2 + slot % 2, rest / 16, count);
    DirectInverse(src, rc, 2 + slot % 2, direct);
    ReplayAppend(src, rc, DirectChoices(direct), TreeChoices(ALIGN, 1, align));
    var r := DecodeDirects(src, rc, count, 2 + slot % 2);
    if r.Answer? {
      LowFirstOfValue(rest % 16, 4);
      FirstIsProduct(2, 4);
      ReverseInverse(src, r.rc, ALIGN, 1, align);
    }
  }

  /** The slot of a distance: searched upwards. */
  function SlotFrom(slot: nat, distance: nat): (r: nat)
    requires slot < 64 && SlotBase(slot) <= distance <= END_DISTANCE
    ensures r < 64 && SlotBase(r) <= distance < SlotBase(r) + SlotWidth(r)
    decreases 64 - slot
  {
    SlotNext(slot);
    SlotsEnd();
    if distance < SlotBase(slot + 1) then slot else SlotFrom(slot + 1, distance)
  }

  function SlotOf(distance: nat): (r: nat)
    requires distance <= END_DISTANCE
    ensures r < 64 && SlotBase(r) <= distance < SlotBase(r) + SlotWidth(r)
  {
    SlotFrom(0, distance)
  }

  /** Every distance lies in exactly one slot. */
  lemma SlotUnique(distance: nat, slot: nat)
    requires distance <= END_DISTANCE
    ensures SlotBase(slot) <= distance < SlotBase(slot) + SlotWidth(slot) <==> slot == SlotOf(distance)
  {
    if slot < SlotOf(distance) {
      SlotOrder(slot, SlotOf(distance));
    } else if slot > SlotOf(distance) {
      SlotOrder(SlotOf(distance), slot);
    }
  }

  function DistanceChoices(lenState: nat, distance: nat): seq<Choice>
    requires distance <= END_DISTANCE
  {
    var slot := SlotOf(distance);
    SymbolChoices(POS_SLOT + 64 * lenState, 6, slot) + FooterChoices(slot, distance - SlotBase(slot))
  }

  lemma DistanceInverse(src: seq<Byte>, rc: Rc, lenState: nat, distance: nat)
    requires rc.Valid(src) && lenState < 4 && LITERAL + 768 <= |rc.probs| && distance <= END_DISTANCE
    ensures Replay(src, rc, DistanceChoices(lenState, distance)) ==
            Expect(DecodeDistance(src, rc, lenState), distance)
  {
    hide DecodeSymbol, SymbolChoices, SlotOf, DecodeFooter, FooterChoices, SlotBase, SlotWidth, Replay;
    Powers();
    var slot := SlotOf(distance);
    var footer := FooterChoices(slot, distance - SlotBase(slot));
    var base := POS_SLOT + 64 * lenState;
    SymbolInverse(src, rc, base, 6, slot, 0);
    ReplayAppend(src, rc, SymbolChoices(base, 6, slot), footer);
    var r := DecodeSymbol(src, rc, base, 6, 0);
    if r.Answer? {
      SlotUnique(distance, r.value);
      if r.value == slot {
        FooterInverse(src, r.rc, slot, distance - SlotBase(slot));
      }
    }
  }

  /** The reverse trees of slots 4 to 13 lie one after the other in SPEC_POS .. ALIGN - 1: no
      probability is shared by two slots. */
  lemma SpecTreesDisjoint(s: nat, t: nat)
    requires 4 <= s < t < 14
    ensures SPEC_POS <= SpecBase(s) + 1
    ensures SpecBase(s) + SlotWidth(s) <= SpecBase(t) + 1
    ensures SpecBase(t) + SlotWidth(t) <= ALIGN
  {
    Powers();
  }
}
