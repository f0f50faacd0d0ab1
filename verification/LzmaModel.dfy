/**
 What LzmaDecode computes, as functions: the symbol decoders built on the range coder, the packet
 grammar, and the effect of a packet on the state machine, the repeat distances and the output.
 */
module LzmaModel {
  import opened Wrappers
  import opened Bits
  import opened RangeCoder
  import opened Lz77

  // Layout of the probability array.
  const IS_REP := 192
  const IS_REP_G0 := 204
  const IS_REP_G1 := 216
  const IS_REP_G2 := 228
  const IS_REP0_LONG := 240
  const POS_SLOT := 432
  const SPEC_POS := 688
  const ALIGN := 802
  const LEN_CODER := 818
  const REP_LEN_CODER := 1332
  const LITERAL := 1846

  const LEN_LOW := 2
  const LEN_MID := 130
  const LEN_HIGH := 258

  const NUM_LIT_STATES := 7
  const END_DISTANCE := 0xFFFF_FFFF

  /** Properties accepted by LzmaDecodeProperties. */
  datatype Props = Props(lc: nat, lp: nat, pb: nat) {
    predicate Valid() { lc <= 8 && lp <= 4 && pb <= 4 }
  }

  /** The size of Probs: LITERAL + (768 << (lc + lp)). */
  function NumProbs(lc: nat, lp: nat): nat {
    LITERAL + 768 * Pow2(lc + lp)
  }

  // ---------------------------------------------------------------------------------------
  // Symbol decoders.

  /** The leaves below node m, `levels` levels up, are First(m, levels) .. First(m + 1, levels) - 1. */
  function First(m: nat, levels: nat): (r: nat)
    ensures r >= m
    decreases levels
  {
    if levels == 0 then m else First(2 * m, levels - 1)
  }

  lemma {:induction false} FirstIsProduct(m: nat, levels: nat)
    ensures First(m, levels) == m * Pow2(levels)
    decreases levels
  {
    if levels > 0 {
      FirstIsProduct(2 * m, levels - 1);
    }
  }

  lemma Descend(m: nat, levels: nat, bit: Bit)
    requires levels > 0
    ensures 2 * (m + 1) <= First(m + 1, levels)
    ensures First(m, levels) <= First(2 * m + bit, levels - 1)
    ensures First(2 * m + bit + 1, levels - 1) <= First(m + 1, levels)
  {
    FirstMonotone(2 * m, 2 * m + bit, levels - 1);
    FirstMonotone(2 * m + bit + 1, 2 * m + 2, levels - 1);
  }

  lemma {:induction false} FirstMonotone(a: nat, b: nat, levels: nat)
    requires a <= b
    ensures First(a, levels) <= First(b, levels)
    decreases levels
  {
    if levels > 0 {
      FirstMonotone(2 * a, 2 * b, levels - 1);
    }
  }

  lemma Powers()
    ensures Pow2(1) == 2 && Pow2(2) == 4 && Pow2(3) == 8 && Pow2(4) == 16 && Pow2(5) == 32
    ensures Pow2(6) == 64 && Pow2(7) == 128 && Pow2(8) == 256
  {
    assert Pow2(2) == 4;
    assert Pow2(4) == 16;
    assert Pow2(6) == 64;
  }

  /** RangeDecoderBitTreeDecode from node m, `levels` levels above the leaves. */
  function DecodeTree(src: seq<Byte>, rc: Rc, base: nat, levels: nat, m: nat): (r: Answer)
    requires rc.Valid(src) && base + First(m + 1, levels) <= |rc.probs|
    ensures r.Keeps(src, rc) && (r.Answer? ==> First(m, levels) <= r.value < First(m + 1, levels))
    decreases levels
  {
    hide DecodeBit, First;
    if levels == 0 then Answer(rc, m)
    else
      Descend(m, levels, 0);
      var a := DecodeBit(src, rc, base + m);
      if a.OutOfInput? then OutOfInput
      else
        Descend(m, levels, a.value);
        DecodeTree(src, a.rc, base, levels - 1, 2 * m + a.value)
  }

  /** Bit 7 of the byte under comparison, shifted up by one and read at 0x100. */
  function NextBit(matchByte: nat): (b: Bit) {
    matchByte * 2 / 0x100 % 2
  }

  /** The literal loop that compares with the byte at distance rep0 until the first difference. */
  function DecodeMatched(src: seq<Byte>, rc: Rc, base: nat, matchByte: nat, levels: nat, m: nat): (r: Answer)
    requires rc.Valid(src) && First(m + 1, levels) <= 0x200 && base + 0x300 <= |rc.probs|
    ensures r.Keeps(src, rc) && (r.Answer? ==> First(m, levels) <= r.value < First(m + 1, levels))
    decreases levels
  {
    hide DecodeBit, First, DecodeTree, Pow2, NextBit;
    if levels == 0 then Answer(rc, m)
    else
      Descend(m, levels, 1);
      var expected := NextBit(matchByte);
      var i: nat := base + 0x100 + 0x100 * expected + m;
      assert i < |rc.probs|;
      var a := DecodeBit(src, rc, i);
      if a.OutOfInput? then OutOfInput
      else
        Descend(m, levels, a.value);
        if a.value == expected then DecodeMatched(src, a.rc, base, matchByte * 2, levels - 1, 2 * m + a.value)
        else DecodeTree(src, a.rc, base, levels - 1, 2 * m + a.value)
  }

  /** The reverse tree: the bit decided at depth k is bit k of the answer. */
  function DecodeReverse(src: seq<Byte>, rc: Rc, base: nat, levels: nat, m: nat): (r: Answer)
    requires rc.Valid(src) && base + First(m + 1, levels) <= |rc.probs|
    ensures r.Keeps(src, rc)
    ensures r.Answer? ==> r.value < Pow2(levels)
    decreases levels
  {
    hide DecodeBit, First;
    if levels == 0 then Answer(rc, 0)
    else
      Descend(m, levels, 0);
      var a := DecodeBit(src, rc, base + m);
      if a.OutOfInput? then OutOfInput
      else
        Descend(m, levels, a.value);
        var high := DecodeReverse(src, a.rc, base, levels - 1, 2 * m + a.value);
        if high.OutOfInput? then OutOfInput else Answer(high.rc, a.value + 2 * high.value)
  }

  /** The direct-bit loop: `count` fair bits shifted into acc. */
  function DecodeDirects(src: seq<Byte>, rc: Rc, count: nat, acc: nat): (r: Answer)
    requires rc.Valid(src)
    ensures r.Keeps(src, rc)
    ensures r.Answer? ==> First(acc, count) <= r.value < First(acc + 1, count)
    decreases count
  {
    hide DecodeDirect, First;
    if count == 0 then Answer(rc, acc)
    else
      var a := DecodeDirect(src, rc);
      if a.OutOfInput? then OutOfInput
      else
        Descend(acc, count, a.value);
        DecodeDirects(src, a.rc, count - 1, 2 * acc + a.value)
  }

  /** A whole tree from its root, with the leaves numbered from `offset`. */
  function DecodeSymbol(src: seq<Byte>, rc: Rc, base: nat, levels: nat, offset: nat): (r: Answer)
    requires rc.Valid(src) && base + 2 * Pow2(levels) <= |rc.probs|
    ensures r.Keeps(src, rc)
    ensures r.Answer? ==> offset <= r.value < offset + Pow2(levels)
  {
    FirstIsProduct(1, levels);
    FirstIsProduct(2, levels);
    var a := DecodeTree(src, rc, base, levels, 1);
    if a.OutOfInput? then OutOfInput else Answer(a.rc, a.value - Pow2(levels) + offset)
  }

  /** The length coder at `base`; the answer does not yet include the minimum length 2. */
  function DecodeLength(src: seq<Byte>, rc: Rc, base: nat, posState: nat): (r: Answer)
    requires rc.Valid(src) && posState < 16 && base <= REP_LEN_CODER && LITERAL + 768 <= |rc.probs|
    ensures r.Keeps(src, rc)
    ensures r.Answer? ==> r.value < 272
  {
    Powers();
    var long := DecodeBit(src, rc, base);
    if long.OutOfInput? then OutOfInput
    else if long.value == 0 then DecodeSymbol(src, long.rc, base + LEN_LOW + 8 * posState, 3, 0)
    else DecodeLongLength(src, long.rc, base, posState)
  }

  function DecodeLongLength(src: seq<Byte>, rc: Rc, base: nat, posState: nat): (r: Answer)
    requires rc.Valid(src) && posState < 16 && base <= REP_LEN_CODER && LITERAL + 768 <= |rc.probs|
    ensures r.Keeps(src, rc)
    ensures r.Answer? ==> 8 <= r.value < 272
  {
    Powers();
    var longer := DecodeBit(src, rc, base + 1);
    if longer.OutOfInput? then OutOfInput
    else if longer.value == 0 then DecodeSymbol(src, longer.rc, base + LEN_MID + 8 * posState, 3, 8)
    else DecodeSymbol(src, longer.rc, base + LEN_HIGH, 8, 16)
  }

  /** First distance of a slot, (2 | (slot & 1)) << (slot / 2 - 1), and the number of distances in it. */
  function SlotBase(slot: nat): nat {
    if slot < 4 then slot
    else if slot % 2 == 0 then 2 * Pow2(slot / 2 - 1)
    else 3 * Pow2(slot / 2 - 1)
  }

  function SlotWidth(slot: nat): nat {
    if slot < 4 then 1 else Pow2(slot / 2 - 1)
  }

  /** Where the reverse tree of a slot below 14 starts; its nodes are 1, 2, ... above this. */
  function SpecBase(slot: nat): nat
    requires 4 <= slot < 14
  {
    SlotBaseSmall(slot);
    SPEC_POS + SlotBase(slot) - slot - 1
  }

  lemma SlotBaseSmall(slot: nat)
    requires 4 <= slot < 14
    ensures slot <= SlotBase(slot) <= 96 && Pow2(slot / 2 - 1) <= 32
  {
    Powers();
  }

  /** A large slot seen from its 4 align bits: the part above them is a node of the direct bits. */
  lemma SlotBaseLarge(slot: nat)
    requires 14 <= slot < 64
    ensures SlotBase(slot) == 16 * First(2 + slot % 2, slot / 2 - 5)
    ensures SlotBase(slot) + SlotWidth(slot) == 16 * First(2 + slot % 2 + 1, slot / 2 - 5)
    ensures SlotWidth(slot) == 16 * Pow2(slot / 2 - 5)
  {
    var k := slot / 2 - 5;
    FirstIsProduct(2, k);
    FirstIsProduct(3, k);
    FirstIsProduct(4, k);
    assert Pow2(k + 2) == 4 * Pow2(k);
    assert Pow2(k + 4) == 16 * Pow2(k);
  }

  lemma SlotNext(slot: nat)
    ensures SlotBase(slot + 1) == SlotBase(slot) + SlotWidth(slot)
  {
    Powers();
    if slot >= 4 && slot % 2 == 1 {
      assert (slot + 1) / 2 - 1 == slot / 2;
    }
  }

  /** The slots in order: each ends where the next begins or earlier, and the last ends at 2^32. */
  lemma {:induction false} SlotOrder(s: nat, t: nat)
    requires s < t
    ensures SlotBase(s) + SlotWidth(s) <= SlotBase(t)
    decreases t
  {
    SlotNext(t - 1);
    if s < t - 1 {
      SlotOrder(s, t - 1);
    }
  }

  lemma SlotsEnd()
    ensures SlotBase(64) == WORD
  {
    Powers();
    Pow2Add(8, 8);
    Pow2Add(16, 8);
    Pow2Add(24, 7);
  }

  /** The distance field, before rep0 is incremented; lenState picks the slot tree. */
  function DecodeDistance(src: seq<Byte>, rc: Rc, lenState: nat): (r: Answer)
    requires rc.Valid(src) && lenState < 4 && LITERAL + 768 <= |rc.probs|
    ensures r.Keeps(src, rc)
    ensures r.Answer? ==> r.value <= END_DISTANCE
  {
    Powers();
    var slot := DecodeSymbol(src, rc, POS_SLOT + 64 * lenState, 6, 0);
    if slot.OutOfInput? then OutOfInput
    else
      SlotOrder(slot.value, 64);
      SlotsEnd();
      DecodeFooter(src, slot.rc, slot.value)
  }

  /** The bits below the slot: a reverse tree of the slot's own, or direct bits and the align tree. */
  function DecodeFooter(src: seq<Byte>, rc: Rc, slot: nat): (r: Answer)
    requires rc.Valid(src) && slot < 64 && LITERAL + 768 <= |rc.probs|
    ensures r.Keeps(src, rc)
    ensures r.Answer? ==> SlotBase(slot) <= r.value < SlotBase(slot) + SlotWidth(slot)
  {
    if slot < 4 then Answer(rc, slot)
    else if slot < 14 then
      SlotBaseSmall(slot);
      FirstIsProduct(2, slot / 2 - 1);
      var low := DecodeReverse(src, rc, SpecBase(slot), slot / 2 - 1, 1);
      if low.OutOfInput? then OutOfInput else Answer(low.rc, SlotBase(slot) + low.value)
    else
      var high := DecodeDirects(src, rc, slot / 2 - 5, 2 + slot % 2);
      if high.OutOfInput? then OutOfInput
      else
        SlotBaseLarge(slot);
        Powers();
        FirstIsProduct(2, 4);
        var low := DecodeReverse(src, high.rc, ALIGN, 4, 1);
        if low.OutOfInput? then OutOfInput else Answer(low.rc, 16 * high.value + low.value)
  }

  // ---------------------------------------------------------------------------------------
  // Packets.

  /** The machine between packets: everything but the range coder. */
  datatype Lz = Lz(state: nat, rep0: nat, rep1: nat, rep2: nat, rep3: nat, out: seq<Byte>) {
    /** Holds at the head of the main loop, whatever the input. */
    predicate Valid() {
      && state < 12
      && (state >= NUM_LIT_STATES ==> out != [])
      && RepOk(rep0) && RepOk(rep1) && RepOk(rep2) && RepOk(rep3)
    }

    predicate RepOk(rep: nat) {
      1 <= rep && (out != [] ==> rep <= |out|) && (out == [] ==> rep == 1)
    }

    function Previous(): Byte {
      if out == [] then 0 else out[|out| - 1]
    }

    function PosState(props: Props): nat { |out| % Pow2(props.pb) }

    /** First probability of the literal coder for the current position and previous byte. */
    function LiteralBase(props: Props): nat
      requires props.lc <= 8
    {
      LITERAL + 768 * (|out| % Pow2(props.lp) * Pow2(props.lc) + Previous() / Pow2(8 - props.lc))
    }
  }

  /** Lengths are as coded (0..271); the match copies 2 more bytes. */
  datatype Packet =
    | Literal(byte: Byte)
    | ShortRep
    | Rep(which: nat, length: nat)
    | Match(distance: nat, length: nat)
  {
    predicate Valid() {
      match this
      case Literal(_) => true
      case ShortRep => true
      case Rep(w, n) => w < 4 && n < 272
      case Match(d, n) => d <= END_DISTANCE && n < 272
    }

    predicate IsEnd() { Match? && distance == END_DISTANCE }
  }

  lemma PosStateSmall(lz: Lz, props: Props)
    requires props.Valid()
    ensures lz.PosState(props) < 16
  {
    Pow2Monotone(props.pb, 4);
    Powers();
  }

  lemma LiteralFits(lz: Lz, props: Props)
    requires props.Valid()
    ensures lz.LiteralBase(props) + 768 <= NumProbs(props.lc, props.lp)
  {
    hide Pow2;
    LowBits(|lz.out|, props.lp, props.lc);
    HighBits(lz.Previous(), props.lc);
  }

  lemma LowBits(position: nat, lp: nat, lc: nat)
    ensures (position % Pow2(lp) + 1) * Pow2(lc) <= Pow2(lc + lp)
  {
    var q := position % Pow2(lp);
    MulMonotone(q + 1, Pow2(lp), Pow2(lc));
    Pow2Add(lc, lp);
  }

  lemma HighBits(byte: Byte, lc: nat)
    requires lc <= 8
    ensures byte / Pow2(8 - lc) < Pow2(lc)
  {
    Powers();
    Pow2Add(8 - lc, lc);
    DivBelow(byte, Pow2(8 - lc), Pow2(lc));
  }

  lemma ProbsAtLeast(props: Props)
    ensures LITERAL + 768 <= NumProbs(props.lc, props.lp)
  {
  }

  /** The byte coder: against the byte at rep0 right after a match, plainly otherwise. */
  function DecodeLiteral(props: Props, src: seq<Byte>, rc: Rc, lz: Lz): (r: Answer)
    requires props.Valid() && rc.Valid(src) && lz.Valid() && |rc.probs| == NumProbs(props.lc, props.lp)
    ensures r.Keeps(src, rc)
    ensures r.Answer? ==> 256 <= r.value < 512
  {
    LiteralFits(lz, props);
    FirstIsProduct(1, 8);
    FirstIsProduct(2, 8);
    Powers();
    var base := lz.LiteralBase(props);
    if lz.state >= NUM_LIT_STATES then DecodeMatched(src, rc, base, lz.out[|lz.out| - lz.rep0], 8, 1)
    else DecodeTree(src, rc, base, 8, 1)
  }

  datatype PacketAnswer = NoPacket | Decoded(rc: Rc, packet: Packet) {
    predicate Keeps(src: seq<Byte>, from: Rc) {
      Decoded? ==> rc.Valid(src) && |rc.probs| == |from.probs| && packet.Valid()
    }
  }

  /** One pass of the main loop's decoding, without its effect. */
  function DecodePacket(props: Props, src: seq<Byte>, rc: Rc, lz: Lz): (r: PacketAnswer)
    requires props.Valid() && rc.Valid(src) && lz.Valid() && |rc.probs| == NumProbs(props.lc, props.lp)
    ensures r.Keeps(src, rc)
  {
    PosStateSmall(lz, props);
    ProbsAtLeast(props);
    var posState := lz.PosState(props);
    var isMatch := DecodeBit(src, rc, 16 * lz.state + posState);
    if isMatch.OutOfInput? then NoPacket
    else if isMatch.value == 1 then DecodeMatch(src, isMatch.rc, lz.state, posState)
    else
      var symbol := DecodeLiteral(props, src, isMatch.rc, lz);
      if symbol.OutOfInput? then NoPacket else Decoded(symbol.rc, Literal(symbol.value - 256))
  }

  /** Everything after the IsMatch bit said 1. */
  function DecodeMatch(src: seq<Byte>, rc: Rc, state: nat, posState: nat): (r: PacketAnswer)
    requires rc.Valid(src) && state < 12 && posState < 16 && LITERAL + 768 <= |rc.probs|
    ensures r.Keeps(src, rc)
    ensures r.Decoded? ==> !r.packet.Literal?
  {
    var isRep := DecodeBit(src, rc, IS_REP + state);
    if isRep.OutOfInput? then NoPacket
    else if isRep.value == 1 then DecodeRep(src, isRep.rc, state, posState)
    else
      var length := DecodeLength(src, isRep.rc, LEN_CODER, posState);
      if length.OutOfInput? then NoPacket
      else
        var distance := DecodeDistance(src, length.rc, LenState(length.value));
        if distance.OutOfInput? then NoPacket
        else Decoded(distance.rc, Match(distance.value, length.value))
  }

  function LenState(length: nat): nat {
    if length < 4 then length else 3
  }

  /** The repeat forms: a choice of distance, and a length unless it is the one-byte repeat. */
  function DecodeRep(src: seq<Byte>, rc: Rc, state: nat, posState: nat): (r: PacketAnswer)
    requires rc.Valid(src) && state < 12 && posState < 16 && LITERAL + 768 <= |rc.probs|
    ensures r.Keeps(src, rc)
    ensures r.Decoded? ==> r.packet.ShortRep? || r.packet.Rep?
  {
    var which := DecodeWhich(src, rc, state, posState);
    if which.OutOfInput? then NoPacket
    else if which.value == SHORT then Decoded(which.rc, ShortRep)
    else
      var length := DecodeLength(src, which.rc, REP_LEN_CODER, posState);
      if length.OutOfInput? then NoPacket
      else Decoded(length.rc, Rep(which.value, length.value))
  }

  /** Marks the one-byte repeat of rep0 among the answers 0..3 of DecodeWhich. */
  const SHORT := 4

  /** Which repeat distance, or SHORT. */
  function DecodeWhich(src: seq<Byte>, rc: Rc, state: nat, posState: nat): (r: Answer)
    requires rc.Valid(src) && state < 12 && posState < 16 && LITERAL + 768 <= |rc.probs|
    ensures r.Keeps(src, rc)
    ensures r.Answer? ==> r.value <= SHORT
  {
    var g0 := DecodeBit(src, rc, IS_REP_G0 + state);
    if g0.OutOfInput? then OutOfInput
    else if g0.value == 0 then
      var long := DecodeBit(src, g0.rc, IS_REP0_LONG + 16 * state + posState);
      if long.OutOfInput? then OutOfInput else Answer(long.rc, if long.value == 0 then SHORT else 0)
    else
      var g1 := DecodeBit(src, g0.rc, IS_REP_G1 + state);
      if g1.OutOfInput? then OutOfInput
      else if g1.value == 0 then Answer(g1.rc, 1)
      else
        var g2 := DecodeBit(src, g1.rc, IS_REP_G2 + state);
        if g2.OutOfInput? then OutOfInput else Answer(g2.rc, if g2.value == 0 then 2 else 3)
  }

  // ---------------------------------------------------------------------------------------
  // Effects.

  function AfterLiteral(state: nat): nat
    requires state < 12
  {
    if state < 4 then 0 else if state < 10 then state - 3 else state - 6
  }

  /** The repeat distances after the one numbered `which` was used: it moves to the front. */
  function Rotate(which: nat, r0: nat, r1: nat, r2: nat, r3: nat): (nat, nat, nat, nat) {
    if which == 1 then (r1, r0, r2, r3)
    else if which == 2 then (r2, r0, r1, r3)
    else if which == 3 then (r3, r0, r1, r2)
    else (r0, r1, r2, r3)
  }

  /** The effect of a packet; None is the data error for a distance beyond the output so far. */
  function Apply(lz: Lz, p: Packet, limit: nat): (r: Option<Lz>)
    requires lz.Valid() && p.Valid() && !p.IsEnd() && |lz.out| < limit
    ensures r.Some? ==> r.value.Valid() && |lz.out| < |r.value.out| <= limit && lz.out <= r.value.out
    ensures r.Some? ==> (r.value.state >= NUM_LIT_STATES <==> !p.Literal?)
  {
    var n := |lz.out|;
    match p
    case Literal(b) =>
      Some(Lz(AfterLiteral(lz.state), lz.rep0, lz.rep1, lz.rep2, lz.rep3, lz.out + [b]))
    case ShortRep =>
      if n == 0 then None
      else Some(lz.(state := if lz.state < NUM_LIT_STATES then 9 else 11, out := lz.out + [lz.out[n - lz.rep0]]))
    case Rep(which, length) =>
      var (r0, r1, r2, r3) := Rotate(which, lz.rep0, lz.rep1, lz.rep2, lz.rep3);
      if r0 > n then None
      else Some(Lz(if lz.state < NUM_LIT_STATES then 8 else 11, r0, r1, r2, r3, Copy(lz.out, r0, length + 2, limit)))
    case Match(distance, length) =>
      if distance + 1 > n then None
      else Some(Lz(if lz.state < NUM_LIT_STATES then 7 else 10, distance + 1, lz.rep0, lz.rep1, lz.rep2,
                   Copy(lz.out, distance + 1, length + 2, limit)))
  }

  datatype Outcome = DataError | Done(consumed: nat, out: seq<Byte>)

  const INITIAL := Lz(0, 1, 1, 1, 1, [])

  /** The last RC_NORMALIZE, after which the sizes are reported. */
  function Finish(src: seq<Byte>, rc: Rc, out: seq<Byte>): Outcome
    requires rc.Valid(src)
  {
    match Normalize(src, rc)
    case None => DataError
    case Some(n) => Done(n.next, out)
  }

  /** The main loop. */
  function Decode(props: Props, src: seq<Byte>, rc: Rc, lz: Lz, limit: nat): (r: Outcome)
    requires props.Valid() && rc.Valid(src) && lz.Valid() && |rc.probs| == NumProbs(props.lc, props.lp)
    requires |lz.out| <= limit
    ensures r.Done? ==> lz.out <= r.out && |r.out| <= limit && r.consumed <= |src|
    decreases limit - |lz.out|
  {
    if |lz.out| == limit then Finish(src, rc, lz.out)
    else
      match DecodePacket(props, src, rc, lz)
      case NoPacket => DataError
      case Decoded(n, packet) =>
        if packet.IsEnd() then Finish(src, n, lz.out)
        else
          match Apply(lz, packet, limit)
          case None => DataError
          case Some(next) => Decode(props, src, n, next, limit)
  }

  function InitialProbs(props: Props): (p: seq<Prob>)
    ensures |p| == NumProbs(props.lc, props.lp)
  {
    seq(NumProbs(props.lc, props.lp), _ => 1024)
  }

  /** LzmaDecode: initialize the probabilities and the range coder, then run the main loop. */
  function DecodeStream(props: Props, src: seq<Byte>, limit: nat): Outcome
    requires props.Valid()
  {
    match Start(src, InitialProbs(props))
    case None => DataError
    case Some(rc) => Decode(props, src, rc, INITIAL, limit)
  }
}
