/**
 Packets and whole streams as choices, and the two main results: decoding any message of the
 encoder's interval gives back the expansion of the packets, and everything the decoder accepts
 is the expansion of some packets whose choices the message spells.
 */
module LzmaStream {
  import opened Wrappers
  import opened Bits
  import opened RangeCoder
  import opened LzmaModel
  import opened LzmaCoding

  // ---------------------------------------------------------------------------------------
  // Packets.

  function WhichChoices(state: nat, posState: nat, which: nat): seq<Choice> {
    if which == SHORT then [Adaptive(IS_REP_G0 + state, 0)] + [Adaptive(IS_REP0_LONG + 16 * state + posState, 0)]
    else if which == 0 then [Adaptive(IS_REP_G0 + state, 0)] + [Adaptive(IS_REP0_LONG + 16 * state + posState, 1)]
    else if which == 1 then [Adaptive(IS_REP_G0 + state, 1)] + [Adaptive(IS_REP_G1 + state, 0)]
    else [Adaptive(IS_REP_G0 + state, 1)] +
         ([Adaptive(IS_REP_G1 + state, 1)] + [Adaptive(IS_REP_G2 + state, if which == 2 then 0 else 1)])
  }

  lemma OneChoice(src: seq<Byte>, rc: Rc, c: Choice)
    requires rc.Valid(src)
    ensures Replay(src, rc, [c]) == Expect(DecodeChoice(src, rc, c), c.bit)
  {
    ReplayCons(src, rc, c, []);
    assert [c] + [] == [c];
  }

  lemma TwoChoices(src: seq<Byte>, rc: Rc, c: Choice, d: Choice)
    requires rc.Valid(src)
    ensures Replay(src, rc, [c] + [d]) ==
            var r := DecodeChoice(src, rc, c);
            if r.Answer? && r.value == c.bit then Expect(DecodeChoice(src, r.rc, d), d.bit) else None
  {
    ReplayCons(src, rc, c, [d]);
    var r := DecodeChoice(src, rc, c);
    if r.Answer? {
      OneChoice(src, r.rc, d);
    }
  }

  lemma NearInverse(src: seq<Byte>, rc: Rc, state: nat, posState: nat, which: nat)
    requires rc.Valid(src) && state < 12 && posState < 16 && LITERAL + 768 <= |rc.probs|
    requires which == SHORT || which == 0
    ensures Replay(src, rc, WhichChoices(state, posState, which)) ==
            Expect(DecodeWhich(src, rc, state, posState), which)
  {
    hide DecodeBit, Replay, Rc.Valid;
    TwoChoices(src, rc, Adaptive(IS_REP_G0 + state, 0),
               Adaptive(IS_REP0_LONG + 16 * state + posState, if which == SHORT then 0 else 1));
  }

  lemma FarInverse(src: seq<Byte>, rc: Rc, state: nat, posState: nat, which: nat)
    requires rc.Valid(src) && state < 12 && posState < 16 && LITERAL + 768 <= |rc.probs|
    requires which == 2 || which == 3
    ensures Replay(src, rc, WhichChoices(state, posState, which)) ==
            Expect(DecodeWhich(src, rc, state, posState), which)
  {
    hide DecodeBit, Replay, Rc.Valid;
    var g0 := DecodeBit(src, rc, IS_REP_G0 + state);
    var next, last := Adaptive(IS_REP_G1 + state, 1), Adaptive(IS_REP_G2 + state, if which == 2 then 0 else 1);
    ReplayCons(src, rc, Adaptive(IS_REP_G0 + state, 1), [next] + [last]);
    if g0.Answer? {
      TwoChoices(src, g0.rc, next, last);
    }
  }

  lemma WhichInverse(src: seq<Byte>, rc: Rc, state: nat, posState: nat, which: nat)
    requires rc.Valid(src) && state < 12 && posState < 16 && LITERAL + 768 <= |rc.probs| && which <= SHORT
    ensures Replay(src, rc, WhichChoices(state, posState, which)) ==
            Expect(DecodeWhich(src, rc, state, posState), which)
  {
    hide DecodeBit, Replay, Rc.Valid;
    if which == SHORT || which == 0 {
      NearInverse(src, rc, state, posState, which);
    } else if which == 1 {
      TwoChoices(src, rc, Adaptive(IS_REP_G0 + state, 1), Adaptive(IS_REP_G1 + state, 0));
    } else {
      FarInverse(src, rc, state, posState, which);
    }
  }

  function RepChoices(state: nat, posState: nat, p: Packet): seq<Choice>
    requires p.Valid() && (p.ShortRep? || p.Rep?)
  {
    if p.ShortRep? then WhichChoices(state, posState, SHORT)
    else WhichChoices(state, posState, p.which) + LengthChoices(REP_LEN_CODER, posState, p.length)
  }

  function MatchChoices(state: nat, posState: nat, p: Packet): seq<Choice>
    requires p.Valid() && !p.Literal?
  {
    if p.Match? then
      [Adaptive(IS_REP + state, 0)] +
      (LengthChoices(LEN_CODER, posState, p.length) + DistanceChoices(LenState(p.length), p.distance))
    else [Adaptive(IS_REP + state, 1)] + RepChoices(state, posState, p)
  }

  function LiteralChoices(props: Props, lz: Lz, byte: Byte): seq<Choice>
    requires props.Valid() && lz.Valid()
  {
    var bits := HighBitsFirst(byte, 8);
    if lz.state >= NUM_LIT_STATES then
      MatchedChoices(lz.LiteralBase(props), lz.out[|lz.out| - lz.rep0], 1, bits)
    else TreeChoices(lz.LiteralBase(props), 1, bits)
  }

  function PacketChoices(props: Props, lz: Lz, p: Packet): seq<Choice>
    requires props.Valid() && lz.Valid() && p.Valid()
  {
    var isMatch := 16 * lz.state + lz.PosState(props);
    if p.Literal? then [Adaptive(isMatch, 0)] + LiteralChoices(props, lz, p.byte)
    else [Adaptive(isMatch, 1)] + MatchChoices(lz.state, lz.PosState(props), p)
  }

  function ExpectPacket(r: PacketAnswer, wanted: Packet): Option<Rc> {
    if r.Decoded? && r.packet == wanted then Some(r.rc) else None
  }

  lemma RepInverse(src: seq<Byte>, rc: Rc, state: nat, posState: nat, p: Packet)
    requires rc.Valid(src) && state < 12 && posState < 16 && LITERAL + 768 <= |rc.probs|
    requires p.Valid() && (p.ShortRep? || p.Rep?)
    ensures Replay(src, rc, RepChoices(state, posState, p)) ==
            ExpectPacket(DecodeRep(src, rc, state, posState), p)
  {
    hide DecodeWhich, DecodeLength, LengthChoices, WhichChoices, Replay;
    var which := if p.ShortRep? then SHORT else p.which;
    WhichInverse(src, rc, state, posState, which);
    if p.Rep? {
      var length := LengthChoices(REP_LEN_CODER, posState, p.length);
      ReplayAppend(src, rc, WhichChoices(state, posState, which), length);
      var r := DecodeWhich(src, rc, state, posState);
      if r.Answer? {
        LengthInverse(src, r.rc, REP_LEN_CODER, posState, p.length);
      }
    }
  }

  lemma MatchInverse(src: seq<Byte>, rc: Rc, state: nat, posState: nat, p: Packet)
    requires rc.Valid(src) && state < 12 && posState < 16 && LITERAL + 768 <= |rc.probs|
    requires p.Valid() && !p.Literal?
    ensures Replay(src, rc, MatchChoices(state, posState, p)) ==
            ExpectPacket(DecodeMatch(src, rc, state, posState), p)
  {
    hide DecodeBit, DecodeRep, RepChoices, DecodeLength, LengthChoices, DecodeDistance, DistanceChoices, Replay;
    var isRep := DecodeBit(src, rc, IS_REP + state);
    if p.Match? {
      var length := LengthChoices(LEN_CODER, posState, p.length);
      var distance := DistanceChoices(LenState(p.length), p.distance);
      ReplayCons(src, rc, Adaptive(IS_REP + state, 0), length + distance);
      if isRep.Answer? {
        ReplayAppend(src, isRep.rc, length, distance);
        LengthInverse(src, isRep.rc, LEN_CODER, posState, p.length);
        var r := DecodeLength(src, isRep.rc, LEN_CODER, posState);
        if r.Answer? {
          DistanceInverse(src, r.rc, LenState(p.length), p.distance);
        }
      }
    } else {
      ReplayCons(src, rc, Adaptive(IS_REP + state, 1), RepChoices(state, posState, p));
      if isRep.Answer? {
        RepInverse(src, isRep.rc, state, posState, p);
      }
    }
  }

  lemma LiteralInverse(props: Props, src: seq<Byte>, rc: Rc, lz: Lz, byte: Byte)
    requires props.Valid() && rc.Valid(src) && lz.Valid() && |rc.probs| == NumProbs(props.lc, props.lp)
    ensures Replay(src, rc, LiteralChoices(props, lz, byte)) ==
            Expect(DecodeLiteral(props, src, rc, lz), 256 + byte)
  {
    hide DecodeTree, TreeChoices, DecodeMatched, MatchedChoices, Replay, HighBitsFirst, Lz.LiteralBase, NumProbs;
    Powers();
    LiteralFits(lz, props);
    FirstIsProduct(1, 8);
    FirstIsProduct(2, 8);
    var bits := HighBitsFirst(byte, 8);
    NodeOfValue(1, byte, 8);
    if lz.state >= NUM_LIT_STATES {
      MatchedInverse(src, rc, lz.LiteralBase(props), lz.out[|lz.out| - lz.rep0], 1, bits);
    } else {
      TreeInverse(src, rc, lz.LiteralBase(props), 1, bits);
    }
  }

  /** The packet decoder is the exact inverse of the packet's choices: replaying them succeeds
      precisely when the decoder returns that packet, and leaves it in the same state. */
  lemma PacketInverse(props: Props, src: seq<Byte>, rc: Rc, lz: Lz, p: Packet)
    requires props.Valid() && rc.Valid(src) && lz.Valid() && p.Valid() && |rc.probs| == NumProbs(props.lc, props.lp)
    ensures Replay(src, rc, PacketChoices(props, lz, p)) ==
            ExpectPacket(DecodePacket(props, src, rc, lz), p)
  {
    hide DecodeBit, DecodeLiteral, LiteralChoices, DecodeMatch, MatchChoices, Replay, Lz.PosState, NumProbs;
    PosStateSmall(lz, props);
    ProbsAtLeast(props);
    var posState := lz.PosState(props);
    var r := DecodeBit(src, rc, 16 * lz.state + posState);
    if p.Literal? {
      ReplayCons(src, rc, Adaptive(16 * lz.state + posState, 0), LiteralChoices(props, lz, p.byte));
      if r.Answer? {
        LiteralInverse(props, src, r.rc, lz, p.byte);
      }
    } else {
      ReplayCons(src, rc, Adaptive(16 * lz.state + posState, 1), MatchChoices(lz.state, posState, p));
      if r.Answer? {
        MatchInverse(src, r.rc, lz.state, posState, p);
      }
    }
  }

  // ---------------------------------------------------------------------------------------
  // Streams.

  /** The packets can be played one after the other, each starting below the size limit. */
  predicate Plays(lz: Lz, ps: seq<Packet>, limit: nat)
    requires lz.Valid()
    decreases |ps|
  {
    ps == [] ||
    (|lz.out| < limit && ps[0].Valid() && !ps[0].IsEnd() &&
     var next := Apply(lz, ps[0], limit);
     next.Some? && Plays(next.value, ps[1..], limit))
  }

  /** The machine after the packets: its output is their LZ77 expansion. */
  function Expand(lz: Lz, ps: seq<Packet>, limit: nat): (r: Lz)
    requires lz.Valid() && Plays(lz, ps, limit)
    ensures r.Valid() && lz.out <= r.out && (|lz.out| <= limit ==> |r.out| <= limit)
    decreases |ps|
  {
    if ps == [] then lz else Expand(Apply(lz, ps[0], limit).value, ps[1..], limit)
  }

  /** A stream: packets, then either the size limit is reached or an end marker follows. */
  datatype Stream = Stream(packets: seq<Packet>, end: Option<nat>) {
    predicate Complete(lz: Lz, limit: nat)
      requires lz.Valid()
    {
      && Plays(lz, packets, limit)
      && var n := |Expand(lz, packets, limit).out|;
      (end.None? && n == limit) || (end.Some? && end.value < 272 && n < limit)
    }

    function Choices(props: Props, lz: Lz, limit: nat): seq<Choice>
      requires props.Valid() && lz.Valid() && Complete(lz, limit)
      decreases |packets|
    {
      if packets == [] then
        if end.Some? then PacketChoices(props, lz, Match(END_DISTANCE, end.value)) else []
      else
        PacketChoices(props, lz, packets[0]) +
        Stream(packets[1..], end).Choices(props, Apply(lz, packets[0], limit).value, limit)
    }
  }

  /** If the range decoder follows a stream's choices, the main loop returns its expansion. */
  lemma {:induction false} DecodesStream(props: Props, src: seq<Byte>, rc: Rc, lz: Lz, s: Stream, limit: nat)
    requires props.Valid() && rc.Valid(src) && lz.Valid() && |rc.probs| == NumProbs(props.lc, props.lp)
    requires |lz.out| <= limit && s.Complete(lz, limit)
    requires Replay(src, rc, s.Choices(props, lz, limit)).Some?
    ensures Decode(props, src, rc, lz, limit) ==
            Finish(src, Replay(src, rc, s.Choices(props, lz, limit)).value, Expand(lz, s.packets, limit).out)
    decreases |s.packets|
  {
    hide DecodePacket, PacketChoices, Apply, Normalize, DecodeChoice, NumProbs;
    if s.packets == [] {
      if s.end.Some? {
        PacketInverse(props, src, rc, lz, Match(END_DISTANCE, s.end.value));
      }
    } else {
      var next := Apply(lz, s.packets[0], limit).value;
      var rest := Stream(s.packets[1..], s.end);
      ReplayAppend(src, rc, PacketChoices(props, lz, s.packets[0]), rest.Choices(props, next, limit));
      PacketInverse(props, src, rc, lz, s.packets[0]);
      var r := DecodePacket(props, src, rc, lz);
      DecodesStream(props, src, r.rc, next, rest, limit);
    }
  }

  /** The other way round: an accepted message is explained by a stream. */
  lemma {:induction false} AcceptedIsStream(props: Props, src: seq<Byte>, rc: Rc, lz: Lz, limit: nat) returns (s: Stream)
    requires props.Valid() && rc.Valid(src) && lz.Valid() && |rc.probs| == NumProbs(props.lc, props.lp)
    requires |lz.out| <= limit
    ensures var r := Decode(props, src, rc, lz, limit);
            r.Done? ==>
              && s.Complete(lz, limit) && Replay(src, rc, s.Choices(props, lz, limit)).Some?
              && r.out == Expand(lz, s.packets, limit).out
    decreases limit - |lz.out|
  {
    hide DecodePacket, PacketChoices, Apply, Normalize, DecodeChoice, NumProbs;
    s := Stream([], None);
    if |lz.out| < limit && Decode(props, src, rc, lz, limit).Done? {
      var r := DecodePacket(props, src, rc, lz);
      PacketInverse(props, src, rc, lz, r.packet);
      if r.packet.IsEnd() {
        s := Stream([], Some(r.packet.length));
      } else {
        var next := Apply(lz, r.packet, limit).value;
        var rest := AcceptedIsStream(props, src, r.rc, next, limit);
        s := Stream([r.packet] + rest.packets, rest.end);
        assert Stream(s.packets[1..], s.end) == rest;
        ReplayAppend(src, rc, PacketChoices(props, lz, r.packet), rest.Choices(props, next, limit));
      }
    }
  }

  // ---------------------------------------------------------------------------------------
  // A stream only uses probabilities the array has.

  lemma {:induction false} TreeInRange(base: nat, m: nat, bits: seq<Bit>, probs: nat)
    requires base + First(m + 1, |bits|) <= probs
    ensures InRange(TreeChoices(base, m, bits), probs)
    decreases |bits|
  {
    if bits != [] {
      Descend(m, |bits|, bits[0]);
      TreeInRange(base, 2 * m + bits[0], bits[1..], probs);
      InRangeAppend([Adaptive(base + m, bits[0])], TreeChoices(base, 2 * m + bits[0], bits[1..]), probs);
    }
  }

  lemma {:induction false} MatchedInRange(base: nat, matchByte: nat, m: nat, bits: seq<Bit>, probs: nat)
    requires First(m + 1, |bits|) <= 0x200 && base + 0x300 <= probs
    ensures InRange(MatchedChoices(base, matchByte, m, bits), probs)
    decreases |bits|
  {
    if bits != [] {
      hide First;
      Descend(m, |bits|, bits[0]);
      var next := 2 * m + bits[0];
      var rest := if bits[0] == NextBit(matchByte) then MatchedChoices(base, matchByte * 2, next, bits[1..])
                  else TreeChoices(base, next, bits[1..]);
      if bits[0] == NextBit(matchByte) {
        MatchedInRange(base, matchByte * 2, next, bits[1..], probs);
      } else {
        TreeInRange(base, next, bits[1..], probs);
      }
      InRangeAppend([Adaptive(base + 0x100 + 0x100 * NextBit(matchByte) + m, bits[0])], rest, probs);
    }
  }

  lemma {:induction false} DirectInRange(bits: seq<Bit>, probs: nat)
    ensures InRange(DirectChoices(bits), probs)
    decreases |bits|
  {
    if bits != [] {
      DirectInRange(bits[1..], probs);
      InRangeAppend([Direct(bits[0])], DirectChoices(bits[1..]), probs);
    }
  }

  lemma SymbolInRange(c: Choice, base: nat, levels: nat, v: nat, probs: nat)
    requires base + 2 * Pow2(levels) <= probs && (c.Adaptive? ==> c.index < probs)
    ensures InRange(SymbolChoices(base, levels, v), probs)
    ensures InRange([c] + SymbolChoices(base, levels, v), probs)
  {
    FirstIsProduct(2, levels);
    TreeInRange(base, 1, HighBitsFirst(v, levels), probs);
    InRangeAppend([c], SymbolChoices(base, levels, v), probs);
  }

  lemma LengthInRange(base: nat, posState: nat, length: nat, probs: nat)
    requires posState < 16 && base <= REP_LEN_CODER && LITERAL + 768 <= probs && length < 272
    ensures InRange(LengthChoices(base, posState, length), probs)
  {
    hide SymbolChoices;
    Powers();
    if length < 8 {
      SymbolInRange(Adaptive(base, 0), base + LEN_LOW + 8 * posState, 3, length, probs);
    } else {
      if length < 16 {
        SymbolInRange(Adaptive(base + 1, 0), base + LEN_MID + 8 * posState, 3, length - 8, probs);
      } else {
        SymbolInRange(Adaptive(base + 1, 1), base + LEN_HIGH, 8, length - 16, probs);
      }
      InRangeAppend([Adaptive(base, 1)], LongLengthChoices(base, posState, length), probs);
    }
  }

  lemma FooterInRange(slot: nat, rest: nat, probs: nat)
    requires slot < 64 && LITERAL + 768 <= probs
    ensures InRange(FooterChoices(slot, rest), probs)
  {
    hide TreeChoices, DirectChoices, LowBitsFirst, HighBitsFirst;
    if 4 <= slot < 14 {
      SlotBaseSmall(slot);
      FirstIsProduct(2, slot / 2 - 1);
      TreeInRange(SpecBase(slot), 1, LowBitsFirst(rest, slot / 2 - 1), probs);
    } else if slot >= 14 {
      var align := LowBitsFirst(rest % 16, 4);
      var direct := HighBitsFirst(rest / 16, slot / 2 - 5);
      FirstIsProduct(2, 4);
      Powers();
      DirectInRange(direct, probs);
      TreeInRange(ALIGN, 1, align, probs);
      InRangeAppend(DirectChoices(direct), TreeChoices(ALIGN, 1, align), probs);
    }
  }

  lemma DistanceInRange(lenState: nat, distance: nat, probs: nat)
    requires lenState < 4 && distance <= END_DISTANCE && LITERAL + 768 <= probs
    ensures InRange(DistanceChoices(lenState, distance), probs)
  {
    hide SymbolChoices, FooterChoices, SlotBase, SlotWidth;
    Powers();
    var slot := SlotOf(distance);
    SymbolInRange(Direct(0), POS_SLOT + 64 * lenState, 6, slot, probs);
    FooterInRange(slot, distance - SlotBase(slot), probs);
    InRangeAppend(SymbolChoices(POS_SLOT + 64 * lenState, 6, slot), FooterChoices(slot, distance - SlotBase(slot)), probs);
  }

  lemma WhichInRange(state: nat, posState: nat, which: nat, probs: nat)
    requires state < 12 && posState < 16 && LITERAL + 768 <= probs
    ensures InRange(WhichChoices(state, posState, which), probs)
  {
    var cs := WhichChoices(state, posState, which);
    assert InRange(cs[1..], probs) by {
      assert |cs[1..]| == 1 || InRange(cs[1..][1..], probs);
    }
  }

  lemma MatchInRange(state: nat, posState: nat, p: Packet, probs: nat)
    requires state < 12 && posState < 16 && LITERAL + 768 <= probs && p.Valid() && !p.Literal?
    ensures InRange(MatchChoices(state, posState, p), probs)
  {
    hide LengthChoices, DistanceChoices;
    if p.Match? {
      var length := LengthChoices(LEN_CODER, posState, p.length);
      var distance := DistanceChoices(LenState(p.length), p.distance);
      LengthInRange(LEN_CODER, posState, p.length, probs);
      DistanceInRange(LenState(p.length), p.distance, probs);
      InRangeAppend(length, distance, probs);
      InRangeAppend([Adaptive(IS_REP + state, 0)], length + distance, probs);
    } else {
      var which := if p.ShortRep? then SHORT else p.which;
      WhichInRange(state, posState, which, probs);
      if p.Rep? {
        LengthInRange(REP_LEN_CODER, posState, p.length, probs);
        InRangeAppend(WhichChoices(state, posState, which), LengthChoices(REP_LEN_CODER, posState, p.length), probs);
      }
      InRangeAppend([Adaptive(IS_REP + state, 1)], RepChoices(state, posState, p), probs);
    }
  }

  lemma PacketInRange(props: Props, lz: Lz, p: Packet)
    requires props.Valid() && lz.Valid() && p.Valid()
    ensures InRange(PacketChoices(props, lz, p), NumProbs(props.lc, props.lp))
  {
    hide TreeChoices, MatchedChoices, MatchChoices, HighBitsFirst, Lz.LiteralBase, NumProbs, Lz.PosState;
    PosStateSmall(lz, props);
    ProbsAtLeast(props);
    var probs := NumProbs(props.lc, props.lp);
    var isMatch := 16 * lz.state + lz.PosState(props);
    if p.Literal? {
      var bits := HighBitsFirst(p.byte, 8);
      LiteralFits(lz, props);
      FirstIsProduct(2, 8);
      Powers();
      if lz.state >= NUM_LIT_STATES {
        MatchedInRange(lz.LiteralBase(props), lz.out[|lz.out| - lz.rep0], 1, bits, probs);
      } else {
        TreeInRange(lz.LiteralBase(props), 1, bits, probs);
      }
      InRangeAppend([Adaptive(isMatch, 0)], LiteralChoices(props, lz, p.byte), probs);
    } else {
      MatchInRange(lz.state, lz.PosState(props), p, probs);
      InRangeAppend([Adaptive(isMatch, 1)], MatchChoices(lz.state, lz.PosState(props), p), probs);
    }
  }

  lemma {:induction false} StreamInRange(props: Props, lz: Lz, s: Stream, limit: nat)
    requires props.Valid() && lz.Valid() && s.Complete(lz, limit)
    ensures InRange(s.Choices(props, lz, limit), NumProbs(props.lc, props.lp))
    decreases |s.packets|
  {
    hide PacketChoices, Apply, NumProbs;
    if s.packets == [] {
      if s.end.Some? {
        PacketInRange(props, lz, Match(END_DISTANCE, s.end.value));
      }
    } else {
      var next := Apply(lz, s.packets[0], limit).value;
      var rest := Stream(s.packets[1..], s.end);
      PacketInRange(props, lz, s.packets[0]);
      StreamInRange(props, next, rest, limit);
      InRangeAppend(PacketChoices(props, lz, s.packets[0]), rest.Choices(props, next, limit), NumProbs(props.lc, props.lp));
    }
  }

  // ---------------------------------------------------------------------------------------
  // Main results.

  /** The interval the ideal encoder reaches for a whole stream. */
  function StreamInterval(props: Props, s: Stream, limit: nat): (e: Interval)
    requires props.Valid() && s.Complete(INITIAL, limit)
    ensures e.Valid()
  {
    StreamInRange(props, INITIAL, s, limit);
    Encode(Whole(InitialProbs(props)), s.Choices(props, INITIAL, limit))
  }

  /** The range decoder, started on a message of an interval, follows the choices that led to it. */
  lemma MessageFollowed(src: seq<Byte>, probs: seq<Prob>, cs: seq<Choice>)
    requires InRange(cs, |probs|) && Encode(Whole(probs), cs).Holds(src)
    ensures Start(src, probs).Some? && Replay(src, Start(src, probs).value, cs).Some?
    ensures Tracks(src, Replay(src, Start(src, probs).value, cs).value, Encode(Whole(probs), cs))
  {
    hide Interval.Holds, Tracks, Replay, Encode;
    Nested(src, Whole(probs), cs);
    StartTracks(src, probs);
    RoundTrip(src, Start(src, probs).value, Whole(probs), cs);
  }

  /** LZMA round trip: every byte string in the stream's interval, with a byte to spare for the last
      refill, decodes to the expansion of the packets, and exactly the encoder's bytes are consumed. */
  lemma DecodesMessage(props: Props, src: seq<Byte>, s: Stream, limit: nat)
    requires props.Valid() && s.Complete(INITIAL, limit)
    ensures var e := StreamInterval(props, s, limit);
            e.Holds(src) && 5 + Widen(e).shifts <= |src| ==>
              DecodeStream(props, src, limit) == Done(5 + Widen(e).shifts, Expand(INITIAL, s.packets, limit).out)
  {
    hide NumProbs, Stream.Choices, Expand, Plays, Encode, Replay;
    var probs := InitialProbs(props);
    var cs := s.Choices(props, INITIAL, limit);
    var e := StreamInterval(props, s, limit);
    StreamInRange(props, INITIAL, s, limit);
    if e.Holds(src) && 5 + Widen(e).shifts <= |src| {
      MessageFollowed(src, probs, cs);
      DecodesStream(props, src, Start(src, probs).value, INITIAL, s, limit);
    }
  }

  /** The bytes an encoder writes for a stream decode to it, so every stream has a message. */
  lemma DecodesEncoding(props: Props, s: Stream, limit: nat)
    requires props.Valid() && s.Complete(INITIAL, limit)
    ensures DecodeStream(props, Message(StreamInterval(props, s, limit)), limit).Done?
    ensures DecodeStream(props, Message(StreamInterval(props, s, limit)), limit).out ==
            Expand(INITIAL, s.packets, limit).out
  {
    hide NumProbs, Stream.Choices, Expand, Plays, Digits, DecodeStream;
    StreamInRange(props, INITIAL, s, limit);
    MessageHolds(InitialProbs(props), s.Choices(props, INITIAL, limit));
    DecodesMessage(props, Message(StreamInterval(props, s, limit)), s, limit);
  }

  /** Whatever LzmaDecode accepts is the expansion of some complete stream. */
  lemma AcceptedOutput(props: Props, src: seq<Byte>, limit: nat) returns (s: Stream)
    requires props.Valid()
    ensures var r := DecodeStream(props, src, limit);
            r.Done? ==>
              && s.Complete(INITIAL, limit) && r.out == Expand(INITIAL, s.packets, limit).out
              && Replay(src, Start(src, InitialProbs(props)).value, s.Choices(props, INITIAL, limit)).Some?
  {
    s := Stream([], None);
    if DecodeStream(props, src, limit).Done? {
      s := AcceptedIsStream(props, src, Start(src, InitialProbs(props)).value, INITIAL, limit);
    }
  }
}
