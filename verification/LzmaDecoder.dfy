/**
 LzmaDecode as the program runs it: registers and probabilities updated in place, bytes written to
 the output buffer.  Each method is proved against the function of LzmaModel it implements.
 */
module LzmaDecoder {
  import opened Wrappers
  import opened Bits
  import opened RangeCoder
  import opened LzmaModel
  import opened Lz77

  /** LzmaDecodeProperties: the three properties packed in the first byte of the header. */
  method DecodeProperties(data: seq<Byte>) returns (r: Option<Props>)
    ensures r.Some? <==> |data| >= 5 && data[0] < 9 * 5 * 5
    ensures r.Some? ==> r.value.Valid() && r.value.lc < 9 && r.value.lp < 5
    ensures r.Some? ==> data[0] == (r.value.pb * 5 + r.value.lp) * 9 + r.value.lc
  {
    if |data| < 5 {
      return None;
    }
    var prop0: nat := data[0];
    if prop0 >= 9 * 5 * 5 {
      return None;
    }
    var pb, lp := 0, 0;
    while prop0 >= 9 * 5
      invariant data[0] == pb * 45 + prop0
    {
      pb, prop0 := pb + 1, prop0 - 45;
    }
    while prop0 >= 9
      invariant data[0] == pb * 45 + lp * 9 + prop0 && lp * 9 + prop0 < 45
    {
      lp, prop0 := lp + 1, prop0 - 9;
    }
    return Some(Props(prop0, lp, pb));
  }

  /** The bits of a reverse tree still to be read start at weight i above acc. */
  ghost function Weighted(acc: nat, i: nat, rest: Answer): Answer {
    if rest.OutOfInput? then OutOfInput else Answer(rest.rc, acc + i * rest.value)
  }

  lemma WeightedStep(src: seq<Byte>, rc: Rc, base: nat, levels: nat, m: nat, acc: nat, i: nat)
    requires rc.Valid(src) && levels > 0 && base + First(m + 1, levels) <= |rc.probs|
    ensures 2 * (m + 1) <= First(m + 1, levels)
    ensures var a := DecodeBit(src, rc, base + m);
            a.Answer? ==> base + First(2 * m + a.value + 1, levels - 1) <= |rc.probs|
    ensures Weighted(acc, i, DecodeReverse(src, rc, base, levels, m)) ==
            var a := DecodeBit(src, rc, base + m);
            if a.OutOfInput? then OutOfInput
            else Weighted(if a.value == 1 then acc + i else acc, 2 * i,
                          DecodeReverse(src, a.rc, base, levels - 1, 2 * m + a.value))
  {
    hide DecodeBit, First, Pow2;
    Descend(m, levels, 0);
    var a := DecodeBit(src, rc, base + m);
    if a.Answer? {
      Descend(m, levels, a.value);
      var high := DecodeReverse(src, a.rc, base, levels - 1, 2 * m + a.value);
      if high.Answer? {
        Distribute(i, a.value, high.value);
      }
    }
  }

  lemma Distribute(i: nat, bit: nat, high: nat)
    ensures i * (bit + 2 * high) == i * bit + 2 * i * high
  {
  }

  lemma WeightedEnd(src: seq<Byte>, rc: Rc, base: nat, m: nat, acc: nat, i: nat)
    requires rc.Valid(src) && base + First(m + 1, 0) <= |rc.probs|
    ensures Weighted(acc, i, DecodeReverse(src, rc, base, 0, m)) == Answer(rc, acc)
  {
  }

  /** One turn of the comparing loop. */
  lemma MatchedStep(src: seq<Byte>, rc: Rc, base: nat, matchByte: nat, levels: nat, m: nat)
    requires rc.Valid(src) && base + 0x300 <= |rc.probs| && m < 0x100
    requires First(m, levels) >= 0x100 && First(m + 1, levels) <= 0x200
    ensures levels > 0
    ensures var a := DecodeBit(src, rc, base + 0x100 + 0x100 * NextBit(matchByte) + m);
            if a.OutOfInput? then DecodeMatched(src, rc, base, matchByte, levels, m) == OutOfInput
            else
              && First(2 * m + a.value, levels - 1) >= 0x100 && First(2 * m + a.value + 1, levels - 1) <= 0x200
              && DecodeMatched(src, rc, base, matchByte, levels, m) ==
                 if a.value == NextBit(matchByte)
                 then DecodeMatched(src, a.rc, base, matchByte * 2, levels - 1, 2 * m + a.value)
                 else DecodeTree(src, a.rc, base, levels - 1, 2 * m + a.value)
  {
    hide DecodeBit, DecodeTree, NextBit, First;
    LevelsLeft(m, levels);
    Descend(m, levels, 0);
    Descend(m, levels, 1);
  }

  lemma MatchedEnd(src: seq<Byte>, rc: Rc, base: nat, matchByte: nat, levels: nat, m: nat)
    requires rc.Valid(src) && base + 0x300 <= |rc.probs| && m >= 0x100
    requires First(m, levels) >= 0x100 && First(m + 1, levels) <= 0x200
    ensures DecodeMatched(src, rc, base, matchByte, levels, m) == DecodeTree(src, rc, base, levels, m)
  {
    LevelsLeft(m, levels);
  }

  lemma ShiftIn(n: nat, byte: Byte)
    ensures (n * 256 + byte) % WORD == (n % WORD) * 256 % WORD + byte
  {
    var m := n % WORD * 256;
    DivModUnique(WORD, n / WORD * 256 + m / WORD, m % WORD + byte);
  }

  lemma NumberStep(s: seq<Byte>)
    requires s != []
    ensures Number(s) == Number(s[..|s| - 1]) * 256 + s[|s| - 1]
  {
  }

  lemma Pow256Step(n: nat)
    requires n > 0
    ensures Pow256(n) == 256 * Pow256(n - 1)
  {
  }

  lemma {:induction false} NumberSplit(s: seq<Byte>)
    requires s != []
    ensures Number(s) == s[0] * Pow256(|s| - 1) + Number(s[1..])
    decreases |s|
  {
    if |s| > 1 {
      hide Number, Pow256;
      var front := s[..|s| - 1];
      NumberSplit(front);
      assert s[1..][..|s| - 2] == front[1..];
      NumberStep(s);
      NumberStep(s[1..]);
      Pow256Step(|s| - 1);
      assert front[0] == s[0] && |front| == |s| - 1;
      assert s[0] * Pow256(|s| - 2) * 256 == s[0] * (256 * Pow256(|s| - 2));
    }
  }

  /** Of five bytes shifted through 32 bits, the last four remain. */
  lemma FirstByteDrops(s: seq<Byte>)
    requires |s| == 5
    ensures Number(s) % WORD == Number(s[1..])
  {
    NumberSplit(s);
    NumberBound(s[1..]);
    assert Pow256(4) == WORD by {
      assert Pow256(2) == 65536;
    }
  }

  datatype Status = Continue | Stop | Error

  class Decoder {
    const props: Props
    const inStream: seq<Byte>
    const probs: array<Prob>
    const outStream: array<Byte>

    var range: nat
    var code: nat
    var buffer: nat  // index of the next input byte

    var state: nat
    var rep0: nat
    var rep1: nat
    var rep2: nat
    var rep3: nat
    var nowPos: nat
    var previousByte: Byte

    ghost function Registers(): Rc
      reads this`range, this`code, this`buffer, probs
    {
      Rc(range, code, buffer, probs[..])
    }

    ghost function Machine(): Lz
      requires nowPos <= outStream.Length
      reads this`state, this`rep0, this`rep1, this`rep2, this`rep3, this`nowPos, outStream
    {
      Lz(state, rep0, rep1, rep2, rep3, outStream[..nowPos])
    }

    /** The range coder is between two steps. */
    ghost predicate Ready()
      reads this`range, this`code, this`buffer, probs
    {
      && props.Valid() && probs.Length == NumProbs(props.lc, props.lp)
      && (probs as object) != (outStream as object)
      && Registers().Valid(inStream)
    }

    /** The main loop is between two packets. */
    ghost predicate Running()
      reads this, probs, outStream
    {
      Ready() && nowPos <= outStream.Length && Machine().Valid() && previousByte == Machine().Previous()
    }

    ghost function Got(ok: bool, value: nat): Answer
      reads this`range, this`code, this`buffer, probs
    {
      if ok then Answer(Registers(), value) else OutOfInput
    }

    constructor (props: Props, inStream: seq<Byte>, probs: array<Prob>, outStream: array<Byte>)
      ensures this.props == props && this.inStream == inStream
      ensures this.probs == probs && this.outStream == outStream
    {
      this.props := props;
      this.inStream := inStream;
      this.probs := probs;
      this.outStream := outStream;
      range, code, buffer := WORD - 1, 0, 0;
      state, rep0, rep1, rep2, rep3, nowPos, previousByte := 0, 1, 1, 1, 1, 0, 0;
    }

    // -------------------------------------------------------------------------------------
    // Range coder.

    method Refill() returns (ok: bool)
      requires Ready()
      modifies this`range, this`code, this`buffer
      ensures Ready()
      ensures Normalize(inStream, old(Registers())) == if ok then Some(Registers()) else None
    {
      hide NumProbs;
      if range < TOP {
        if buffer == |inStream| {
          return false;
        }
        range := range * 256;
        code := code * 256 % WORD + inStream[buffer];
        buffer := buffer + 1;
      }
      return true;
    }

    method Bit(i: nat) returns (ok: bool, bit: nat)
      requires Ready() && i < probs.Length
      modifies this`range, this`code, this`buffer, probs
      ensures Ready()
      ensures DecodeBit(inStream, old(Registers()), i) == Got(ok, bit)
    {
      hide NumProbs;
      ok := Refill();
      if !ok {
        return false, 0;
      }
      ghost var n := Registers();
      var bound := range / MODEL_TOTAL * probs[i];
      BoundInside(range, probs[i]);
      if code < bound {
        range := bound;
        probs[i] := probs[i] + (MODEL_TOTAL - probs[i]) / MOVE;
        bit := 0;
      } else {
        range := range - bound;
        code := code - bound;
        probs[i] := probs[i] - probs[i] / MOVE;
        bit := 1;
      }
      assert Answer(Registers(), bit) == SplitBit(n, i);
    }

    method Tree(base: nat, levels: nat) returns (ok: bool, res: nat)
      requires Ready() && base + First(2, levels) <= probs.Length
      modifies this`range, this`code, this`buffer, probs
      ensures Ready()
      ensures DecodeTree(inStream, old(Registers()), base, levels, 1) == Got(ok, res)
    {
      hide NumProbs, DecodeBit, First;
      res := 1;
      var i := levels;
      while i != 0
        invariant Ready() && base + First(res + 1, i) <= probs.Length
        invariant DecodeTree(inStream, old(Registers()), base, levels, 1)
               == DecodeTree(inStream, Registers(), base, i, res)
      {
        Descend(res, i, 0);
        Descend(res, i, 1);
        var bit;
        ok, bit := Bit(base + res);
        if !ok {
          return false, 0;
        }
        res := 2 * res + bit;
        i := i - 1;
      }
      return true, res;
    }

    /** The reverse tree loop: i is OR-ed into a start value whose low bits are clear. */
    method ReverseTree(base: nat, levels: nat, start: nat, ghost high: nat) returns (ok: bool, r: nat)
      requires Ready() && base + First(2, levels) <= probs.Length && start == high * Pow2(levels)
      modifies this`range, this`code, this`buffer, probs
      ensures Ready()
      ensures Got(ok, r) == Weighted(start, 1, DecodeReverse(inStream, old(Registers()), base, levels, 1))
    {
      hide NumProbs, DecodeBit, First, Pow2, DecodeReverse, Weighted, Or;
      r := start;
      var i: nat, m: nat, left: nat := 1, 1, levels;
      ghost var low: nat := 0;
      OneBelow();
      while left != 0
        invariant Ready() && base + First(m + 1, left) <= probs.Length
        invariant left <= levels && i == Pow2(levels - left) && low < i && r == start + low
        invariant Weighted(start, 1, DecodeReverse(inStream, old(Registers()), base, levels, 1))
               == Weighted(r, i, DecodeReverse(inStream, Registers(), base, left, m))
      {
        Descend(m, left, 0);
        Descend(m, left, 1);
        WeightedStep(inStream, Registers(), base, left, m, r, i);
        OrClearBit(high, levels, low, levels - left);
        var bit;
        ok, bit := Bit(base + m);
        if !ok {
          return false, 0;
        }
        m := 2 * m + bit;
        if bit == 1 {
          r := Or(r, i);
          low := low + i;
        }
        i := 2 * i;
        left := left - 1;
      }
      WeightedEnd(inStream, Registers(), base, m, r, i);
      return true, r;
    }

    static lemma OneBelow()
      ensures Pow2(0) == 1
    {
    }

    /** OR-ing in a bit that is clear adds it. */
    static lemma OrClearBit(high: nat, n: nat, low: nat, k: nat)
      requires low < Pow2(k) && k < n
      ensures Or(high * Pow2(n) + low, Pow2(k)) == high * Pow2(n) + low + Pow2(k)
      ensures Pow2(k + 1) == 2 * Pow2(k)
    {
      hide Or;
      Pow2Monotone(k + 1, n);
      OrHigh(high, low, Pow2(k), n);
      OrShifted(low, 1, k);
    }

    /** The direct-bit loop on rep0. */
    method DirectBits(count: nat) returns (ok: bool)
      requires Ready()
      modifies this`range, this`code, this`buffer, this`rep0
      ensures Ready()
      ensures DecodeDirects(inStream, old(Registers()), count, old(rep0)) == Got(ok, rep0)
    {
      hide NumProbs, First, DecodeDirect, Rc.Valid;
      var left: nat := count;
      while left != 0
        invariant Ready()
        invariant DecodeDirects(inStream, old(Registers()), count, old(rep0))
               == DecodeDirects(inStream, Registers(), left, rep0)
      {
        var bit: nat;
        ok, bit := DirectBit();
        if !ok {
          return false;
        }
        rep0 := 2 * rep0 + bit;
        left := left - 1;
      }
      return true;
    }

    method DirectBit() returns (ok: bool, bit: nat)
      requires Ready()
      modifies this`range, this`code, this`buffer
      ensures Ready()
      ensures DecodeDirect(inStream, old(Registers())) == Got(ok, bit)
    {
      hide NumProbs;
      bit := 0;
      ok := Refill();
      if ok {
        range := range / 2;
        if code >= range {
          code := code - range;
          bit := 1;
        }
      }
    }

    method Symbol(base: nat, levels: nat, offset: nat) returns (ok: bool, value: nat)
      requires Ready() && base + 2 * Pow2(levels) <= probs.Length
      modifies this`range, this`code, this`buffer, probs
      ensures Ready()
      ensures DecodeSymbol(inStream, old(Registers()), base, levels, offset) == Got(ok, value)
    {
      hide NumProbs, DecodeTree, First;
      FirstIsProduct(1, levels);
      FirstIsProduct(2, levels);
      ok, value := Tree(base, levels);
      if ok {
        value := value - Pow2(levels) + offset;
      }
    }

    method Length(base: nat, posState: nat) returns (ok: bool, len: nat)
      requires Ready() && posState < 16 && base <= REP_LEN_CODER && LITERAL + 768 <= probs.Length
      modifies this`range, this`code, this`buffer, probs
      ensures Ready()
      ensures DecodeLength(inStream, old(Registers()), base, posState) == Got(ok, len)
    {
      hide NumProbs, DecodeBit, DecodeSymbol;
      Powers();
      var bit;
      ok, bit := Bit(base);
      if !ok {
        return false, 0;
      }
      if bit == 0 {
        ok, len := Symbol(base + LEN_LOW + 8 * posState, 3, 0);
        return;
      }
      ok, bit := Bit(base + 1);
      if !ok {
        return false, 0;
      }
      if bit == 0 {
        ok, len := Symbol(base + LEN_MID + 8 * posState, 3, 8);
      } else {
        ok, len := Symbol(base + LEN_HIGH, 8, 16);
      }
    }

    /** The distance of a match, left in rep0 before it is incremented. */
    method Distance(lenState: nat) returns (ok: bool)
      requires Ready() && lenState < 4 && LITERAL + 768 <= probs.Length
      modifies this`range, this`code, this`buffer, this`rep0, probs
      ensures Ready()
      ensures DecodeDistance(inStream, old(Registers()), lenState) == Got(ok, rep0)
    {
      hide NumProbs, DecodeSymbol, DecodeReverse, DecodeDirects, First, SlotBase, SlotWidth;
      Powers();
      var posSlot;
      ok, posSlot := Symbol(POS_SLOT + 64 * lenState, 6, 0);
      if !ok {
        return false;
      }
      if posSlot < 4 {
        rep0 := posSlot;
        return true;
      }
      var numDirectBits := posSlot / 2 - 1;
      rep0 := 2 + posSlot % 2;
      if posSlot < 14 {
        SlotBaseSmall(posSlot);
        FirstIsProduct(2, numDirectBits);
        rep0 := rep0 * Pow2(numDirectBits);
        SlotBaseProduct(posSlot);
        ok, rep0 := ReverseTree(SPEC_POS + rep0 - posSlot - 1, numDirectBits, rep0, 2 + posSlot % 2);
      } else {
        FirstIsProduct(2, 4);
        ok := DirectBits(numDirectBits - 4);
        if !ok {
          return false;
        }
        ghost var high := rep0;
        rep0 := rep0 * 16;
        ok, rep0 := ReverseTree(ALIGN, 4, rep0, high);
      }
    }

    static lemma SlotBaseProduct(slot: nat)
      requires slot >= 4
      ensures SlotBase(slot) == (2 + slot % 2) * Pow2(slot / 2 - 1)
    {
    }

    // -------------------------------------------------------------------------------------
    // Packets.

    /** The literal loop against matchByte, up to the first difference; `levels` remain. */
    method CompareSymbol(base: nat, matched: Byte) returns (ok: bool, symbol: nat, ghost levels: nat)
      requires Ready() && base + 0x300 <= probs.Length
      modifies this`range, this`code, this`buffer, probs
      ensures Ready()
      ensures First(symbol, levels) >= 0x100 && First(symbol + 1, levels) <= 0x200
      ensures DecodeMatched(inStream, old(Registers()), base, matched, 8, 1)
           == if ok then DecodeTree(inStream, Registers(), base, levels, symbol) else OutOfInput
    {
      hide NumProbs, DecodeBit, First, NextBit, DecodeMatched, DecodeTree;
      ByteTree();
      symbol, levels := 1, 8;
      var matchByte: nat := matched;
      var same := true;
      ghost var start := Registers();
      while symbol < 0x100 && same
        invariant Ready() && First(symbol, levels) >= 0x100 && First(symbol + 1, levels) <= 0x200
        invariant DecodeMatched(inStream, start, base, matched, 8, 1) ==
                  if same then DecodeMatched(inStream, Registers(), base, matchByte, levels, symbol)
                  else DecodeTree(inStream, Registers(), base, levels, symbol)
        decreases levels
      {
        MatchedStep(inStream, Registers(), base, matchByte, levels, symbol);
        var expected: nat := NextBit(matchByte);
        var bit: nat;
        ok, bit := Bit(base + 0x100 + 0x100 * expected + symbol);
        if !ok {
          return;
        }
        matchByte := matchByte * 2;
        symbol := 2 * symbol + bit;
        levels := levels - 1;
        same := bit == expected;
      }
      if same {
        MatchedEnd(inStream, Registers(), base, matchByte, levels, symbol);
      }
      ok := true;
    }

    /** The plain literal loop, from a symbol with `levels` bits still to come. */
    method FinishSymbol(base: nat, start: nat, ghost levels: nat) returns (ok: bool, symbol: nat)
      requires Ready() && base + 0x300 <= probs.Length
      requires First(start, levels) >= 0x100 && First(start + 1, levels) <= 0x200
      modifies this`range, this`code, this`buffer, probs
      ensures Ready()
      ensures DecodeTree(inStream, old(Registers()), base, levels, start) == Got(ok, symbol)
    {
      hide NumProbs, DecodeBit, First;
      symbol := start;
      ghost var left: nat := levels;
      while symbol < 0x100
        invariant Ready() && First(symbol, left) >= 0x100 && First(symbol + 1, left) <= 0x200
        invariant DecodeTree(inStream, old(Registers()), base, levels, start)
               == DecodeTree(inStream, Registers(), base, left, symbol)
        decreases left
      {
        LevelsLeft(symbol, left);
        Descend(symbol, left, 0);
        Descend(symbol, left, 1);
        var bit: nat;
        ok, bit := Bit(base + symbol);
        if !ok {
          return false, 0;
        }
        symbol := 2 * symbol + bit;
        left := left - 1;
      }
      LevelsLeft(symbol, left);
      return true, symbol;
    }

    method LiteralSymbol() returns (ok: bool, symbol: nat)
      requires Running()
      modifies this`range, this`code, this`buffer, probs
      ensures Ready()
      ensures DecodeLiteral(props, inStream, old(Registers()), Machine()) == Got(ok, symbol)
    {
      hide NumProbs, DecodeTree, DecodeMatched, First;
      ByteTree();
      LiteralFits(Machine(), props);
      var prob := LITERAL + 768 * (nowPos % Pow2(props.lp) * Pow2(props.lc) + previousByte / Pow2(8 - props.lc));
      assert prob == Machine().LiteralBase(props);
      ghost var levels: nat := 8;
      symbol := 1;
      if state >= NUM_LIT_STATES {
        ok, symbol, levels := CompareSymbol(prob, outStream[nowPos - rep0]);
        if !ok {
          return;
        }
      }
      ok, symbol := FinishSymbol(prob, symbol, levels);
    }

    /** The copy loop at the end of a match: at least one byte, at most up to the end of outStream. */
    method CopyMatch(length: nat)
      requires length > 0 && nowPos < outStream.Length && 1 <= rep0 <= nowPos
      modifies this`nowPos, this`previousByte, outStream
      ensures old(nowPos) < nowPos <= outStream.Length
      ensures outStream[..nowPos] == Copy(old(outStream[..nowPos]), rep0, length, outStream.Length)
      ensures previousByte == outStream[nowPos - 1]
    {
      hide Copy;
      var len := length;
      ghost var before := outStream[..nowPos];
      while len != 0 && nowPos < outStream.Length
        invariant old(nowPos) <= nowPos <= outStream.Length
        invariant nowPos > old(nowPos) ==> previousByte == outStream[nowPos - 1]
        invariant len == length ==> nowPos == old(nowPos)
        invariant Copy(before, rep0, length, outStream.Length) == Copy(outStream[..nowPos], rep0, len, outStream.Length)
        decreases len
      {
        ghost var was := outStream[..nowPos];
        CopyStep(was, rep0, len, outStream.Length);
        previousByte := outStream[nowPos - rep0];
        len := len - 1;
        outStream[nowPos] := previousByte;
        nowPos := nowPos + 1;
        assert outStream[..nowPos] == was + [was[|was| - rep0]];
      }
      CopyNothing(outStream[..nowPos], rep0, len, outStream.Length);
    }

    /** How one pass of the main loop ended, against the packet it should have taken. */
    ghost predicate Took(status: Status, before: Lz, p: PacketAnswer)
      requires before.Valid() && |before.out| < outStream.Length && (p.Decoded? ==> p.packet.Valid())
      reads this, probs, outStream
    {
      match status
      case Error => p.NoPacket? || (!p.packet.IsEnd() && Apply(before, p.packet, outStream.Length) == None)
      case Stop => p.Decoded? && p.packet.IsEnd() && Ready() && Registers() == p.rc
                   && nowPos <= outStream.Length && outStream[..nowPos] == before.out
      case Continue => p.Decoded? && !p.packet.IsEnd() && Running() && Registers() == p.rc
                       && Apply(before, p.packet, outStream.Length) == Some(Machine())
    }

    /** Which repeat distance; the distances are rotated so that the chosen one becomes rep0. */
    method Which(posState: nat) returns (ok: bool, which: nat)
      requires Ready() && state < 12 && posState < 16 && LITERAL + 768 <= probs.Length
      modifies this`range, this`code, this`buffer, probs, this`rep0, this`rep1, this`rep2, this`rep3
      ensures Ready()
      ensures DecodeWhich(inStream, old(Registers()), state, posState) == Got(ok, which)
      ensures ok ==> (rep0, rep1, rep2, rep3) == Rotate(which, old(rep0), old(rep1), old(rep2), old(rep3))
    {
      hide NumProbs, DecodeBit;
      var bit: nat;
      ok, bit := Bit(IS_REP_G0 + state);
      if !ok {
        return false, 0;
      }
      if bit == 0 {
        ok, bit := Bit(IS_REP0_LONG + 16 * state + posState);
        return ok, if bit == 0 then SHORT else 0;
      }
      ok, bit := Bit(IS_REP_G1 + state);
      if !ok {
        return false, 0;
      }
      var distance;
      if bit == 0 {
        distance, which := rep1, 1;
      } else {
        ok, bit := Bit(IS_REP_G2 + state);
        if !ok {
          return false, 0;
        }
        if bit == 0 {
          distance, which := rep2, 2;
        } else {
          distance, which := rep3, 3;
          rep3 := rep2;
        }
        rep2 := rep1;
      }
      rep1 := rep0;
      rep0 := distance;
    }

    method TakeShort()
      requires Running() && 0 < nowPos < outStream.Length
      modifies this`state, this`nowPos, this`previousByte, outStream
      ensures Running() && Apply(old(Machine()), ShortRep, outStream.Length) == Some(Machine())
    {
      hide NumProbs, Rc.Valid;
      ghost var before := Machine();
      state := if state < NUM_LIT_STATES then 9 else 11;
      previousByte := outStream[nowPos - rep0];
      outStream[nowPos] := previousByte;
      nowPos := nowPos + 1;
      assert outStream[..nowPos] == before.out + [previousByte];
    }

    /** The passes whose IsRep bit was 1. */
    method RepStep(posState: nat) returns (status: Status)
      requires Running() && nowPos < outStream.Length && posState < 16 && LITERAL + 768 <= probs.Length
      modifies this, probs, outStream
      ensures Took(status, old(Machine()), DecodeRep(inStream, old(Registers()), old(state), posState))
    {
      hide NumProbs, DecodeLength, DecodeWhich, Copy, Rc.Valid, Pow2;
      ghost var before := Machine();
      var ok, which := Which(posState);
      if !ok {
        return Error;
      }
      if which == SHORT {
        if nowPos == 0 {
          return Error;
        }
        assert Machine() == before;
        TakeShort();
        return Continue;
      }
      state := if state < NUM_LIT_STATES then 8 else 11;
      var len: nat;
      ok, len := Length(REP_LEN_CODER, posState);
      if !ok {
        return Error;
      }
      ghost var p := Rep(which, len);
      assert DecodeRep(inStream, old(Registers()), old(state), posState) == Decoded(Registers(), p);
      if rep0 > nowPos {
        assert Apply(before, p, outStream.Length) == None;
        return Error;
      }
      CopyMatch(len + 2);
      assert Apply(before, p, outStream.Length) == Some(Machine());
      return Continue;
    }

    /** The passes whose IsMatch bit was 1. */
    method MatchStep(posState: nat) returns (status: Status)
      requires Running() && nowPos < outStream.Length && posState < 16 && LITERAL + 768 <= probs.Length
      modifies this, probs, outStream
      ensures Took(status, old(Machine()), DecodeMatch(inStream, old(Registers()), old(state), posState))
    {
      hide NumProbs, DecodeBit, DecodeLength, DecodeDistance, DecodeRep;
      ghost var before := Machine();
      var bit: nat, ok;
      ok, bit := Bit(IS_REP + state);
      if !ok {
        return Error;
      }
      if bit == 1 {
        status := RepStep(posState);
        return;
      }
      rep3, rep2, rep1 := rep2, rep1, rep0;
      state := if state < NUM_LIT_STATES then 0 else 3;
      var len: nat;
      ok, len := Length(LEN_CODER, posState);
      if !ok {
        return Error;
      }
      state := state + NUM_LIT_STATES;
      ok := Distance(if len < 4 then len else 3);
      if !ok {
        return Error;
      }
      assert DecodeMatch(inStream, old(Registers()), old(state), posState) == Decoded(Registers(), Match(rep0, len));
      status := TakeMatch(len, before);
    }

    /** The effect of a match whose distance field is in rep0. */
    method TakeMatch(len: nat, ghost before: Lz) returns (status: Status)
      requires Ready() && before.Valid() && len < 272 && rep0 <= END_DISTANCE
      requires nowPos < outStream.Length && before.out == outStream[..nowPos]
      requires state == if before.state < NUM_LIT_STATES then 7 else 10
      requires rep1 == before.rep0 && rep2 == before.rep1 && rep3 == before.rep2
      modifies this`rep0, this`nowPos, this`previousByte, outStream
      ensures Took(status, before, Decoded(old(Registers()), Match(old(rep0), len)))
    {
      hide NumProbs, Copy, Rc.Valid, Pow2;
      rep0 := (rep0 + 1) % WORD;
      if rep0 == 0 {
        return Stop;
      }
      if rep0 > nowPos {
        return Error;
      }
      CopyMatch(len + 2);
      assert Apply(before, Match(old(rep0), len), outStream.Length) == Some(Machine());
      return Continue;
    }

    /** One pass of the main loop. */
    method Step() returns (status: Status)
      requires Running() && nowPos < outStream.Length
      modifies this, probs, outStream
      ensures Took(status, old(Machine()), DecodePacket(props, inStream, old(Registers()), old(Machine())))
    {
      hide NumProbs, DecodeBit, DecodeLiteral, DecodeMatch, Copy, Rc.Valid, Pow2;
      PosStateSmall(Machine(), props);
      ProbsAtLeast(props);
      ghost var before := Machine();
      var posState := nowPos % Pow2(props.pb);
      assert posState == before.PosState(props);
      var bit: nat, ok;
      ok, bit := Bit(16 * state + posState);
      if !ok {
        return Error;
      }
      if bit == 1 {
        status := MatchStep(posState);
        return;
      }
      var symbol: nat;
      ok, symbol := LiteralSymbol();
      if !ok {
        return Error;
      }
      TakeLiteral(symbol);
      return Continue;
    }

    method TakeLiteral(symbol: nat)
      requires Running() && nowPos < outStream.Length && 256 <= symbol < 512
      modifies this`state, this`nowPos, this`previousByte, outStream
      ensures Running() && Apply(old(Machine()), Literal(symbol - 256), outStream.Length) == Some(Machine())
    {
      hide NumProbs, Rc.Valid;
      ghost var before := Machine();
      previousByte := symbol % 256;
      outStream[nowPos] := previousByte;
      nowPos := nowPos + 1;
      assert outStream[..nowPos] == before.out + [symbol - 256];
      state := if state < 4 then 0 else if state < 10 then state - 3 else state - 6;
    }

    /** LzmaDecode: on success the sizes consumed and produced, on a data error zero for both. */
    method Decode() returns (ok: bool, inSizeProcessed: nat, outSizeProcessed: nat)
      requires props.Valid() && probs.Length == NumProbs(props.lc, props.lp) && (probs as object) != (outStream as object)
      modifies this, probs, outStream
      ensures outSizeProcessed <= outStream.Length
      ensures DecodeStream(props, inStream, outStream.Length) ==
              if ok then Done(inSizeProcessed, outStream[..outSizeProcessed]) else DataError
    {
      hide NumProbs, DecodePacket, Apply;
      for i := 0 to probs.Length
        invariant forall k :: 0 <= k < i ==> probs[k] == 1024
      {
        probs[i] := 1024;
      }
      assert probs[..] == InitialProbs(props);
      state, rep0, rep1, rep2, rep3, nowPos, previousByte := 0, 1, 1, 1, 1, 0, 0;
      ok := StartCoder();
      if !ok {
        return false, 0, 0;
      }
      assert Machine() == INITIAL;
      while nowPos < outStream.Length
        invariant Running()
        invariant DecodeStream(props, inStream, outStream.Length)
               == LzmaModel.Decode(props, inStream, Registers(), Machine(), outStream.Length)
        decreases outStream.Length - nowPos
      {
        var status := Step();
        if status == Error {
          return false, 0, 0;
        }
        if status == Stop {
          break;
        }
      }
      ok := Refill();
      if !ok {
        return false, 0, 0;
      }
      return true, buffer, nowPos;
    }

    /** RC_INIT. */
    method StartCoder() returns (ok: bool)
      requires props.Valid() && probs.Length == NumProbs(props.lc, props.lp) && (probs as object) != (outStream as object)
      modifies this`range, this`code, this`buffer
      ensures Start(inStream, probs[..]) == if ok then Some(Registers()) else None
    {
      hide NumProbs;
      range, code, buffer := WORD - 1, 0, 0;
      for i := 0 to 5
        invariant range == WORD - 1 && buffer == i && i <= |inStream|
        invariant code == Number(inStream[..i]) % WORD
      {
        if buffer == |inStream| {
          return false;
        }
        assert inStream[..i + 1][..i] == inStream[..i];
        ShiftIn(Number(inStream[..i]), inStream[i]);
        code := code * 256 % WORD + inStream[buffer];
        buffer := buffer + 1;
      }
      FirstByteDrops(inStream[..5]);
      assert inStream[..5][1..] == inStream[1..5];
      return true;
    }
  }

  lemma ByteTree()
    ensures First(1, 8) == 0x100 && First(2, 8) == 0x200
  {
    Powers();
    FirstIsProduct(1, 8);
    FirstIsProduct(2, 8);
  }

  /** A node below 0x100 still has levels under it, and one from 0x100 on has none. */
  lemma LevelsLeft(m: nat, levels: nat)
    requires First(m, levels) >= 0x100 && First(m + 1, levels) <= 0x200
    ensures m < 0x100 <==> levels > 0
  {
    if levels > 0 {
      Descend(m, levels, 0);
    }
  }
}
