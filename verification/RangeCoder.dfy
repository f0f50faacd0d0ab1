/**
 The adaptive binary range decoder of LZMA, as functions on its whole state, and the ideal
 interval-narrowing encoder it inverts.

 The decoder works in 32-bit words (WORD) and keeps one 11-bit probability per context.  The
 encoder works with exact numbers: it holds the interval [low, low + range) of byte strings,
 read as big-endian numbers, that still spell the choices made so far.
 */
module RangeCoder {
  import opened Wrappers
  import opened Bits

  const WORD := 0x1_0000_0000
  const TOP := 0x100_0000
  const MODEL_TOTAL := 2048
  const MOVE := 32

  /** The values a probability can reach from its initial 1024. */
  type Prob = p: nat | 31 <= p <= 2017 witness 1024

  /** Decoder registers: Range, Code, the index of the next input byte, and Probs. */
  datatype Rc = Rc(range: nat, code: nat, next: nat, probs: seq<Prob>) {
    /** Holds between any two decoding steps, whatever the input: one 8-bit shift is always enough. */
    predicate Valid(src: seq<Byte>) {
      TOP <= 256 * range && range < WORD && code < WORD && next <= |src|
    }
  }

  function ProbUp(p: Prob): Prob { p + (MODEL_TOTAL - p) / MOVE }

  function ProbDown(p: Prob): Prob { p - p / MOVE }

  /** The update moves a probability by the whole 32nd part of its distance from 2048, or of itself. */
  lemma ProbMoves(p: Prob)
    ensures 32 * (ProbUp(p) - p) <= 2048 - p < 32 * (ProbUp(p) - p) + 32
    ensures 32 * (p - ProbDown(p)) <= p < 32 * (p - ProbDown(p)) + 32
  {
  }

  /** A probability after the same bit n times. */
  function Repeat(p: Prob, bit: Bit, n: nat): Prob
    decreases n
  {
    if n == 0 then p else Repeat(if bit == 0 then ProbUp(p) else ProbDown(p), bit, n - 1)
  }

  /** The bounds of Prob are exact: a run of 0 bits takes every probability up to 2017, a run of 1 bits
      down to 31, at least 1 per bit. */
  lemma {:induction false} BoundsReached(p: Prob, bit: Bit, n: nat)
    requires n >= if bit == 0 then 2017 - p else p - 31
    ensures Repeat(p, bit, n) == if bit == 0 then 2017 else 31
    decreases n
  {
    if n > 0 {
      BoundsReached(if bit == 0 then ProbUp(p) else ProbDown(p), bit, n - 1);
    }
  }

  function Bound(range: nat, p: Prob): nat { range / MODEL_TOTAL * p }

  /** The bound is p times the whole 2048th part of Range: the largest multiple of p not above the share
      of p in 2048. */
  lemma BoundIs(range: nat, p: Prob)
    ensures Bound(range, p) % p == 0
    ensures 2048 * Bound(range, p) <= range * p <= 2048 * Bound(range, p) + 2047 * p
  {
    DivisionTheorem(range, MODEL_TOTAL);
    var unit: nat := range / MODEL_TOTAL;
    UnitShare(range, unit, p);
  }

  lemma UnitShare(range: nat, unit: nat, p: Prob)
    requires 2048 * unit <= range <= 2048 * unit + 2047
    ensures unit * p % p == 0 && 2048 * (unit * p) <= range * p <= 2048 * (unit * p) + 2047 * p
  {
    DivModUnique(p, unit, 0);
    var a := 2048 * unit;
    MulMonotone(a, range, p);
    MulMonotone(range, a + 2047, p);
    MulSum(a, 2047, p);
    MulShift(unit, p);
  }

  lemma MulShift(unit: nat, p: nat)
    ensures (2048 * unit) * p == 2048 * (unit * p)
  {
  }

  lemma BoundInside(range: nat, p: Prob)
    requires TOP <= range
    ensures TOP <= 256 * Bound(range, p)
    ensures TOP <= 256 * (range - Bound(range, p))
    ensures 0 < Bound(range, p) < range
  {
    var unit := range / MODEL_TOTAL;
    assert unit * 31 <= unit * p <= unit * 2017;
  }

  /** RC_NORMALIZE: refill Range and Code by one byte when Range has become short. */
  function Normalize(src: seq<Byte>, rc: Rc): (r: Option<Rc>)
    requires rc.Valid(src)
    ensures r.Some? ==> r.value.Valid(src) && TOP <= r.value.range && r.value.probs == rc.probs
  {
    if rc.range >= TOP then Some(rc)
    else if rc.next == |src| then None
    else Some(Rc(rc.range * 256, rc.code * 256 % WORD + src[rc.next], rc.next + 1, rc.probs))
  }

  /** What a decoding step gives: new registers and a value, or the end of the input. */
  datatype Answer = OutOfInput | Answer(rc: Rc, value: nat) {
    /** Registers stay valid and the probability array keeps its length. */
    predicate Keeps(src: seq<Byte>, from: Rc) {
      Answer? ==> rc.Valid(src) && |rc.probs| == |from.probs|
    }
  }

  /** The probability of a 0 bit goes up after one, and down after a 1 bit, by a 32nd of what is left. */
  predicate Updated(p: Prob, bit: nat, q: Prob) {
    if bit == 0 then 32 * (q - p) <= 2048 - p < 32 * (q - p) + 32
    else 32 * (p - q) <= p < 32 * (p - q) + 32
  }

  /** The comparison and update half of IfBit0, UpdateBit0 and UpdateBit1, after normalization. */
  function SplitBit(n: Rc, i: nat): (r: Answer)
    requires TOP <= n.range < WORD && n.code < WORD && i < |n.probs|
    ensures r.Answer? && r.value < 2
    ensures TOP <= 256 * r.rc.range && r.rc.range < WORD && r.rc.code < WORD
    ensures r.rc.next == n.next && |r.rc.probs| == |n.probs|
    ensures Updated(n.probs[i], r.value, r.rc.probs[i])
    ensures r.rc.probs == n.probs[i := r.rc.probs[i]]
  {
    ProbMoves(n.probs[i]);
    var p := n.probs[i];
    var bound := Bound(n.range, p);
    BoundInside(n.range, p);
    if n.code < bound then
      Answer(n.(range := bound, probs := n.probs[i := ProbUp(p)]), 0)
    else
      Answer(n.(range := n.range - bound, code := n.code - bound, probs := n.probs[i := ProbDown(p)]), 1)
  }

  /** The halving half of one direct-bit step, after normalization. */
  function SplitDirect(n: Rc): (r: Answer)
    requires TOP <= n.range < WORD && n.code < WORD
    ensures r.Answer? && r.value < 2
    ensures TOP <= 256 * r.rc.range && r.rc.range < WORD && r.rc.code < WORD
    ensures r.rc.next == n.next && r.rc.probs == n.probs
  {
    var half := n.range / 2;
    if n.code >= half then Answer(n.(range := half, code := n.code - half), 1)
    else Answer(n.(range := half), 0)
  }

  /** IfBit0 with UpdateBit0 or UpdateBit1 on the probability at index i. */
  function DecodeBit(src: seq<Byte>, rc: Rc, i: nat): (r: Answer)
    requires rc.Valid(src) && i < |rc.probs|
    ensures r.Keeps(src, rc) && (r.Answer? ==> r.value < 2)
  {
    match Normalize(src, rc)
    case None => OutOfInput
    case Some(n) => SplitBit(n, i)
  }

  /** One step of the direct-bit loop: the interval is halved and no probability is involved. */
  function DecodeDirect(src: seq<Byte>, rc: Rc): (r: Answer)
    requires rc.Valid(src)
    ensures r.Keeps(src, rc) && (r.Answer? ==> r.value < 2 && r.rc.probs == rc.probs)
  {
    match Normalize(src, rc)
    case None => OutOfInput
    case Some(n) => SplitDirect(n)
  }

  /** RC_INIT: five bytes are shifted through the 32-bit Code, so the first one drops out. */
  function Start(src: seq<Byte>, probs: seq<Prob>): (r: Option<Rc>)
    ensures r.Some? ==> r.value.Valid(src) && r.value.probs == probs
  {
    if |src| < 5 then None
    else
      NumberBound(src[1..5]);
      Some(Rc(WORD - 1, Number(src[1..5]), 5, probs))
  }

  // ---------------------------------------------------------------------------------------
  // Choices, and what it means that a decoder makes them.

  datatype Choice = Adaptive(index: nat, bit: Bit) | Direct(bit: Bit)

  /** Every adaptive choice names one of the first `probs` probabilities. */
  predicate InRange(cs: seq<Choice>, probs: nat)
    decreases |cs|
  {
    cs == [] || ((cs[0].Adaptive? ==> cs[0].index < probs) && InRange(cs[1..], probs))
  }

  lemma {:induction false} InRangeAppend(a: seq<Choice>, b: seq<Choice>, probs: nat)
    ensures InRange(a + b, probs) <==> InRange(a, probs) && InRange(b, probs)
    decreases |a|
  {
    if a == [] {
      assert a + b == b;
    } else {
      assert (a + b)[1..] == a[1..] + b;
      InRangeAppend(a[1..], b, probs);
    }
  }

  function DecodeChoice(src: seq<Byte>, rc: Rc, c: Choice): (r: Answer)
    requires rc.Valid(src)
    ensures r.Keeps(src, rc)
  {
    match c
    case Adaptive(i, _) => if i < |rc.probs| then DecodeBit(src, rc, i) else OutOfInput
    case Direct(_) => DecodeDirect(src, rc)
  }

  /** The decoder state after it was asked for exactly these choices and answered each with the
      given bit; None when the input runs out or an answer differs. */
  function Replay(src: seq<Byte>, rc: Rc, cs: seq<Choice>): (r: Option<Rc>)
    requires rc.Valid(src)
    ensures r.Some? ==> r.value.Valid(src) && |r.value.probs| == |rc.probs|
    decreases |cs|
  {
    if cs == [] then Some(rc)
    else
      var a := DecodeChoice(src, rc, cs[0]);
      if a.Answer? && a.value == cs[0].bit then Replay(src, a.rc, cs[1..]) else None
  }

  lemma {:induction false} ReplayAppend(src: seq<Byte>, rc: Rc, a: seq<Choice>, b: seq<Choice>)
    requires rc.Valid(src)
    ensures Replay(src, rc, a + b) ==
            var mid := Replay(src, rc, a);
            if mid.Some? then Replay(src, mid.value, b) else None
    decreases |a|
  {
    if a == [] {
      assert a + b == b;
    } else {
      assert (a + b)[1..] == a[1..] + b;
      var r := DecodeChoice(src, rc, a[0]);
      if r.Answer? {
        ReplayAppend(src, r.rc, a[1..], b);
      }
    }
  }

  // ---------------------------------------------------------------------------------------
  // The ideal encoder.

  /** Big-endian value of a byte string. */
  function Number(s: seq<Byte>): nat {
    if s == [] then 0 else Number(s[..|s| - 1]) * 256 + s[|s| - 1]
  }

  function Pow256(n: nat): (p: nat)
    ensures p >= 1
  {
    if n == 0 then 1 else Pow256(n - 1) * 256
  }

  lemma Pow256Four()
    ensures Pow256(4) == WORD
  {
    assert Pow256(1) == 256;
    assert Pow256(2) == 65536;
    assert Pow256(3) == TOP;
  }

  lemma {:induction false} NumberBound(s: seq<Byte>)
    ensures Number(s) < Pow256(|s|)
    ensures |s| == 4 ==> Number(s) < WORD
    decreases |s|
  {
    if s != [] {
      NumberBound(s[..|s| - 1]);
    }
    if |s| == 4 {
      Pow256Four();
    }
  }

  /** Encoder state: the interval after `shifts` refills, at the scale of 4 + shifts bytes. */
  datatype Interval = Interval(low: nat, range: nat, shifts: nat, probs: seq<Prob>) {
    predicate Valid() {
      TOP <= 256 * range && range < WORD
    }

    /** The message is one the interval stands for: its first byte is not part of the number. */
    predicate Holds(src: seq<Byte>) {
      5 + shifts <= |src| && low <= Number(src[1..5 + shifts]) < low + range
    }
  }

  function Whole(probs: seq<Prob>): Interval {
    Interval(0, WORD - 1, 0, probs)
  }

  function Widen(e: Interval): (r: Interval)
    requires e.Valid()
    ensures r.Valid() && TOP <= r.range && r.probs == e.probs
  {
    if e.range >= TOP then e
    else Interval(e.low * 256, e.range * 256, e.shifts + 1, e.probs)
  }

  /** Narrow the interval to the part that stands for the choice. */
  function EncodeChoice(e: Interval, c: Choice): (r: Interval)
    requires e.Valid() && (c.Adaptive? ==> c.index < |e.probs|)
    ensures r.Valid() && |r.probs| == |e.probs|
  {
    Narrow(Widen(e), c)
  }

  function Narrow(w: Interval, c: Choice): (r: Interval)
    requires TOP <= w.range < WORD && (c.Adaptive? ==> c.index < |w.probs|)
    ensures r.Valid() && |r.probs| == |w.probs| && r.shifts == w.shifts
    ensures w.low <= r.low && r.low + r.range <= w.low + w.range
  {
    match c
    case Adaptive(i, bit) =>
      var p := w.probs[i];
      var bound := Bound(w.range, p);
      BoundInside(w.range, p);
      if bit == 0 then w.(range := bound, probs := w.probs[i := ProbUp(p)])
      else w.(low := w.low + bound, range := w.range - bound, probs := w.probs[i := ProbDown(p)])
    case Direct(bit) =>
      var half := w.range / 2;
      w.(low := if bit == 0 then w.low else w.low + half, range := half)
  }

  function Encode(e: Interval, cs: seq<Choice>): (r: Interval)
    requires e.Valid() && InRange(cs, |e.probs|)
    ensures r.Valid() && |r.probs| == |e.probs|
    decreases |cs|
  {
    if cs == [] then e else Encode(EncodeChoice(e, cs[0]), cs[1..])
  }

  lemma {:induction false} EncodeAppend(e: Interval, a: seq<Choice>, b: seq<Choice>)
    requires e.Valid() && InRange(a, |e.probs|) && InRange(b, |e.probs|)
    ensures InRange(a + b, |e.probs|) && Encode(e, a + b) == Encode(Encode(e, a), b)
    decreases |a|
  {
    InRangeAppend(a, b, |e.probs|);
    if a == [] {
      assert a + b == b;
    } else {
      assert (a + b)[1..] == a[1..] + b;
      EncodeAppend(EncodeChoice(e, a[0]), a[1..], b);
    }
  }

  // ---------------------------------------------------------------------------------------
  // The decoder follows the encoder.

  /** Decoder and encoder agree: Code is the message's distance above low, and below Range. */
  predicate Tracks(src: seq<Byte>, rc: Rc, e: Interval) {
    && e.Holds(src)
    && rc.range == e.range && rc.probs == e.probs && rc.next == 5 + e.shifts
    && rc.code == Number(src[1..5 + e.shifts]) - e.low
    && rc.code < rc.range
  }

  lemma WidenHolds(src: seq<Byte>, e: Interval)
    requires e.Valid() && Widen(e).Holds(src)
    ensures e.Holds(src)
  {
    if e.range < TOP {
      var s := src[1..6 + e.shifts];
      assert s[..|s| - 1] == src[1..5 + e.shifts];
    }
  }

  lemma ChoiceHolds(src: seq<Byte>, e: Interval, c: Choice)
    requires e.Valid() && (c.Adaptive? ==> c.index < |e.probs|)
    requires EncodeChoice(e, c).Holds(src)
    ensures Widen(e).Holds(src) && e.Holds(src)
  {
    WidenHolds(src, e);
  }

  /** Intervals only ever shrink: a message of the final interval is in every earlier one. */
  lemma {:induction false} Nested(src: seq<Byte>, e: Interval, cs: seq<Choice>)
    requires e.Valid() && InRange(cs, |e.probs|) && Encode(e, cs).Holds(src)
    ensures e.Holds(src)
    decreases |cs|
  {
    if cs != [] {
      Nested(src, EncodeChoice(e, cs[0]), cs[1..]);
      ChoiceHolds(src, e, cs[0]);
    }
  }

  lemma NormalizeTracks(src: seq<Byte>, rc: Rc, e: Interval)
    requires rc.Valid(src) && e.Valid() && Tracks(src, rc, e) && Widen(e).Holds(src)
    ensures Normalize(src, rc).Some? && Tracks(src, Normalize(src, rc).value, Widen(e))
  {
    if e.range < TOP {
      var s := src[1..6 + e.shifts];
      assert s[..|s| - 1] == src[1..5 + e.shifts];
      assert Number(s) == Number(src[1..5 + e.shifts]) * 256 + src[rc.next];
      assert rc.code * 256 < WORD;
    }
  }

  lemma SplitTracks(src: seq<Byte>, n: Rc, w: Interval, c: Choice)
    requires TOP <= n.range < WORD && n.code < WORD && Tracks(src, n, w)
    requires c.Adaptive? ==> c.index < |w.probs|
    requires Narrow(w, c).Holds(src)
    ensures var r := if c.Adaptive? then SplitBit(n, c.index) else SplitDirect(n);
            r.value == c.bit && Tracks(src, r.rc, Narrow(w, c))
  {
  }

  lemma ChoiceTracks(src: seq<Byte>, rc: Rc, e: Interval, c: Choice)
    requires rc.Valid(src) && e.Valid() && Tracks(src, rc, e)
    requires c.Adaptive? ==> c.index < |e.probs|
    requires EncodeChoice(e, c).Holds(src)
    ensures DecodeChoice(src, rc, c).Answer?
    ensures DecodeChoice(src, rc, c).value == c.bit
    ensures Tracks(src, DecodeChoice(src, rc, c).rc, EncodeChoice(e, c))
  {
    ChoiceHolds(src, e, c);
    NormalizeTracks(src, rc, e);
    SplitTracks(src, Normalize(src, rc).value, Widen(e), c);
  }

  /** Range-coder round trip: every message in the final interval decodes to the encoded choices,
      and decoder and encoder agree at the end (and, applied to prefixes, at every step). */
  lemma {:induction false} RoundTrip(src: seq<Byte>, rc: Rc, e: Interval, cs: seq<Choice>)
    requires rc.Valid(src) && e.Valid() && Tracks(src, rc, e)
    requires InRange(cs, |e.probs|) && Encode(e, cs).Holds(src)
    ensures Replay(src, rc, cs).Some?
    ensures Tracks(src, Replay(src, rc, cs).value, Encode(e, cs))
    decreases |cs|
  {
    if cs != [] {
      var e1 := EncodeChoice(e, cs[0]);
      Nested(src, e1, cs[1..]);
      ChoiceTracks(src, rc, e, cs[0]);
      RoundTrip(src, DecodeChoice(src, rc, cs[0]).rc, e1, cs[1..]);
    }
  }

  lemma StartTracks(src: seq<Byte>, probs: seq<Prob>)
    requires Whole(probs).Holds(src)
    ensures Start(src, probs).Some? && Tracks(src, Start(src, probs).value, Whole(probs))
  {
  }

  /** Following the choices from rc, Code is below Range before and after every one of them. */
  predicate StaysBelow(src: seq<Byte>, rc: Rc, cs: seq<Choice>)
    requires rc.Valid(src)
    decreases |cs|
  {
    rc.code < rc.range &&
    (cs == [] ||
     var a := DecodeChoice(src, rc, cs[0]);
     a.Answer? && a.value == cs[0].bit && StaysBelow(src, a.rc, cs[1..]))
  }

  lemma NormalizeHolds(src: seq<Byte>, rc: Rc, e: Interval)
    requires rc.Valid(src) && e.Valid() && Tracks(src, rc, e) && Normalize(src, rc).Some?
    ensures Tracks(src, Normalize(src, rc).value, Widen(e))
  {
    if e.range < TOP {
      var s := src[1..6 + e.shifts];
      assert s[..|s| - 1] == src[1..5 + e.shifts];
      assert Number(s) == Number(src[1..5 + e.shifts]) * 256 + src[rc.next];
      assert rc.code * 256 < WORD;
    }
  }

  lemma SplitHolds(src: seq<Byte>, n: Rc, w: Interval, c: Choice)
    requires TOP <= n.range < WORD && n.code < WORD && Tracks(src, n, w)
    requires c.Adaptive? ==> c.index < |w.probs|
    requires var r := if c.Adaptive? then SplitBit(n, c.index) else SplitDirect(n);
             r.value == c.bit && r.rc.code < r.rc.range
    ensures Narrow(w, c).Holds(src)
  {
  }

  lemma ChoiceStays(src: seq<Byte>, rc: Rc, e: Interval, c: Choice)
    requires rc.Valid(src) && e.Valid() && Tracks(src, rc, e)
    requires c.Adaptive? ==> c.index < |e.probs|
    requires var a := DecodeChoice(src, rc, c); a.Answer? && a.value == c.bit && a.rc.code < a.rc.range
    ensures Tracks(src, DecodeChoice(src, rc, c).rc, EncodeChoice(e, c))
  {
    hide Narrow, SplitBit, SplitDirect, Tracks, Widen, Normalize;
    NormalizeHolds(src, rc, e);
    SplitHolds(src, Normalize(src, rc).value, Widen(e), c);
    ChoiceTracks(src, rc, e, c);
  }

  /** A message is in the final interval exactly when the decoder follows the choices with Code below
      Range all the way. */
  lemma {:induction false} HoldsIsBelow(src: seq<Byte>, rc: Rc, e: Interval, cs: seq<Choice>)
    requires rc.Valid(src) && e.Valid() && Tracks(src, rc, e) && InRange(cs, |e.probs|)
    ensures Encode(e, cs).Holds(src) <==> StaysBelow(src, rc, cs)
    decreases |cs|
  {
    hide DecodeChoice, EncodeChoice, Interval.Holds;
    TracksMeans(src, rc, e);
    if cs != [] {
      var c, e1 := cs[0], EncodeChoice(e, cs[0]);
      var a := DecodeChoice(src, rc, c);
      if Encode(e, cs).Holds(src) {
        Nested(src, e1, cs[1..]);
        ChoiceTracks(src, rc, e, c);
        HoldsIsBelow(src, a.rc, e1, cs[1..]);
      }
      if StaysBelow(src, rc, cs) {
        BelowFirst(src, a.rc, cs[1..]);
        ChoiceStays(src, rc, e, c);
        HoldsIsBelow(src, a.rc, e1, cs[1..]);
      }
    }
  }

  lemma TracksMeans(src: seq<Byte>, rc: Rc, e: Interval)
    requires Tracks(src, rc, e)
    ensures e.Holds(src) && rc.code < rc.range
  {
  }

  lemma BelowFirst(src: seq<Byte>, rc: Rc, cs: seq<Choice>)
    requires rc.Valid(src) && StaysBelow(src, rc, cs)
    ensures rc.code < rc.range
  {
  }

  /** Code is below Range from the start exactly when the four bytes after the first are not all 255. */
  lemma StartBelow(src: seq<Byte>, probs: seq<Prob>)
    requires |src| >= 5
    ensures Start(src, probs).value.code < Start(src, probs).value.range <==> src[1..5] != [255, 255, 255, 255]
    ensures src[1..5] != [255, 255, 255, 255] <==> Whole(probs).Holds(src)
  {
    var s := src[1..5];
    assert s[..3][..2][..1][..0] == [];
    assert Number(s[..3][..2][..1]) == s[0];
    assert Number(s[..3][..2]) == Number(s[..3][..2][..1]) * 256 + s[1];
    assert Number(s[..3]) == Number(s[..3][..2]) * 256 + s[2];
    assert Number(s) == Number(s[..3]) * 256 + s[3];
  }

  /** Code < Range survives every adaptive bit; a direct bit loses it exactly when Range is odd and
      Code is the last value below it, the one point the halved interval leaves out. */
  lemma BelowRange(n: Rc, i: nat)
    requires TOP <= n.range < WORD && n.code < n.range && i < |n.probs|
    ensures SplitBit(n, i).rc.code < SplitBit(n, i).rc.range
    ensures SplitDirect(n).rc.code < SplitDirect(n).rc.range <==> n.range % 2 == 0 || n.code != n.range - 1
  {
    BoundInside(n.range, n.probs[i]);
  }

  // ---------------------------------------------------------------------------------------
  // Every sequence of choices has a message.

  /** Big-endian digits of v in n bytes. */
  function Digits(v: nat, n: nat): (s: seq<Byte>)
    ensures |s| == n
  {
    if n == 0 then [] else Digits(v / 256, n - 1) + [v % 256]
  }

  lemma {:induction false} NumberDigits(v: nat, n: nat)
    requires v < Pow256(n)
    ensures Number(Digits(v, n)) == v
  {
    if n > 0 {
      NumberDigits(v / 256, n - 1);
      var s := Digits(v, n);
      assert s[..|s| - 1] == Digits(v / 256, n - 1);
    }
  }

  /** What an encoder writes for an interval: a zero byte, the digits of low, and a flush byte. */
  function Message(e: Interval): (s: seq<Byte>) {
    [0] + Digits(e.low, 4 + e.shifts) + [0]
  }

  predicate Fits(e: Interval) {
    e.low + e.range <= Pow256(4 + e.shifts)
  }

  lemma WholeFits(probs: seq<Prob>)
    ensures Fits(Whole(probs))
  {
    Pow256Four();
  }

  lemma WidenFits(e: Interval)
    requires e.Valid() && Fits(e)
    ensures Fits(Widen(e))
  {
  }

  lemma {:induction false} EncodeFits(e: Interval, cs: seq<Choice>)
    requires e.Valid() && InRange(cs, |e.probs|) && Fits(e)
    ensures Fits(Encode(e, cs))
    decreases |cs|
  {
    if cs != [] {
      WidenFits(e);
      EncodeFits(EncodeChoice(e, cs[0]), cs[1..]);
    }
  }

  /** The message written for any choices is in their interval, so the round trip is never vacuous. */
  lemma MessageHolds(probs: seq<Prob>, cs: seq<Choice>)
    requires InRange(cs, |probs|)
    ensures Encode(Whole(probs), cs).Holds(Message(Encode(Whole(probs), cs)))
  {
    hide Encode, Number, Digits, Pow256;
    WholeFits(probs);
    EncodeFits(Whole(probs), cs);
    var e := Encode(Whole(probs), cs);
    NumberDigits(e.low, 4 + e.shifts);
    assert Message(e)[1..5 + e.shifts] == Digits(e.low, 4 + e.shifts);
  }

  // ---------------------------------------------------------------------------------------
  // Where Code reaches Range.

  /** Over whole runs: a message is in the interval of the choices exactly when the decoder starts with
      Code below Range and follows the choices without losing that. */
  lemma RunBelow(src: seq<Byte>, probs: seq<Prob>, cs: seq<Choice>)
    requires InRange(cs, |probs|)
    ensures Encode(Whole(probs), cs).Holds(src) <==>
            Start(src, probs).Some? && StaysBelow(src, Start(src, probs).value, cs)
  {
    hide Encode, StaysBelow, Number;
    if Encode(Whole(probs), cs).Holds(src) {
      Nested(src, Whole(probs), cs);
    }
    if |src| >= 5 {
      StartBelow(src, probs);
      if Whole(probs).Holds(src) {
        StartTracks(src, probs);
        HoldsIsBelow(src, Start(src, probs).value, Whole(probs), cs);
      } else if StaysBelow(src, Start(src, probs).value, cs) {
        BelowFirst(src, Start(src, probs).value, cs);
      }
    }
  }

  /** After any choices that were followed with Code below Range, a direct bit loses that exactly when the
      interval, widened, has an odd range and the message is its last number: the one number that the
      halved interval leaves out. */
  lemma DirectLoses(src: seq<Byte>, probs: seq<Prob>, cs: seq<Choice>)
    requires InRange(cs, |probs|) && Encode(Whole(probs), cs).Holds(src)
    ensures Start(src, probs).Some? && Replay(src, Start(src, probs).value, cs).Some?
    ensures var w := Widen(Encode(Whole(probs), cs));
            var a := DecodeDirect(src, Replay(src, Start(src, probs).value, cs).value);
            && (a.Answer? <==> |src| >= 5 + w.shifts)
            && (a.Answer? ==> (a.rc.code < a.rc.range <==>
                               w.range % 2 == 0 || Number(src[1..5 + w.shifts]) != w.low + w.range - 1))
            && (a.Answer? && a.rc.code >= a.rc.range ==> a.value == 1 && a.rc.code == a.rc.range)
  {
    hide Encode, Replay, Number;
    var e := Encode(Whole(probs), cs);
    Nested(src, Whole(probs), cs);
    StartTracks(src, probs);
    RoundTrip(src, Start(src, probs).value, Whole(probs), cs);
    var rc := Replay(src, Start(src, probs).value, cs).value;
    if Normalize(src, rc).Some? {
      NormalizeHolds(src, rc, e);
    }
  }

  /** The bytes of a number at the scale of an interval. */
  function NumberMessage(v: nat, w: Interval): seq<Byte> {
    [0] + Digits(v, 4 + w.shifts)
  }

  lemma NumberHolds(v: nat, w: Interval)
    requires Fits(w) && w.low <= v < w.low + w.range
    ensures var src := NumberMessage(v, w);
            |src| == 5 + w.shifts && Number(src[1..5 + w.shifts]) == v && w.Holds(src)
  {
    hide Number, Digits, Pow256;
    NumberDigits(v, 4 + w.shifts);
    var src := NumberMessage(v, w);
    assert src[1..5 + w.shifts] == Digits(v, 4 + w.shifts);
  }

  /** So every sequence of choices whose widened range is odd has a message that follows it with Code
      below Range, and a direct bit then leaves Code equal to Range. */
  lemma OddRangeLoses(probs: seq<Prob>, cs: seq<Choice>)
    requires InRange(cs, |probs|) && Widen(Encode(Whole(probs), cs)).range % 2 == 1
    ensures var w := Widen(Encode(Whole(probs), cs));
            var src := NumberMessage(w.low + w.range - 1, w);
            && Start(src, probs).Some? && StaysBelow(src, Start(src, probs).value, cs)
            && Replay(src, Start(src, probs).value, cs).Some?
            && var a := DecodeDirect(src, Replay(src, Start(src, probs).value, cs).value);
               a.Answer? && a.value == 1 && a.rc.code == a.rc.range
  {
    hide Encode, Replay, Number, NumberMessage, StaysBelow, DecodeDirect, Start, Narrow, Widen, Pow256;
    WholeFits(probs);
    var e := Encode(Whole(probs), cs);
    var w := Widen(e);
    EncodeFits(Whole(probs), cs);
    WidenFits(e);
    NumberHolds(w.low + w.range - 1, w);
    var src := NumberMessage(w.low + w.range - 1, w);
    WidenHolds(src, e);
    RunBelow(src, probs, cs);
    DirectLoses(src, probs, cs);
  }
}
