/**
 What inflate computes, as functions on the bit stream.

 Fault stands for what the model does not follow: what C leaves undefined (a store outside a table or the
 output buffer, a distance before the start of the output, the reserved length symbols), and code lengths
 that no prefix code has, on which the C code may well be defined.
 */
module InflateModel {
  import opened Wrappers
  import opened Bits
  import opened BitStream
  import opened Huffman
  import opened Lz77

  // Tables of RFC 1951, section 3.2.5 and 3.2.7.
  const BORDER: seq<nat> := [16, 17, 18, 0, 8, 7, 9, 6, 10, 5, 11, 4, 12, 3, 13, 2, 14, 1, 15]
  /** RANK[k] is where k stands in BORDER. */
  const RANK: seq<nat> := [3, 17, 15, 13, 11, 9, 7, 5, 4, 6, 8, 10, 12, 14, 16, 18, 0, 1, 2]
  const CPLENS: seq<nat> :=
    [3, 4, 5, 6, 7, 8, 9, 10, 11, 13, 15, 17, 19, 23, 27, 31,
     35, 43, 51, 59, 67, 83, 99, 115, 131, 163, 195, 227, 258]
  const CPLEXT: seq<nat> :=
    [0, 0, 0, 0, 0, 0, 0, 0, 1, 1, 1, 1, 2, 2, 2, 2,
     3, 3, 3, 3, 4, 4, 4, 4, 5, 5, 5, 5, 0]
  const CPDIST: seq<nat> :=
    [1, 2, 3, 4, 5, 7, 9, 13, 17, 25, 33, 49, 65, 97, 129, 193,
     257, 385, 513, 769, 1025, 1537, 2049, 3073, 4097, 6145, 8193, 12289, 16385, 24577]
  const CPDEXT: seq<nat> :=
    [0, 0, 0, 0, 1, 1, 2, 2, 3, 3, 4, 4, 5, 5, 6, 6,
     7, 7, 8, 8, 9, 9, 10, 10, 11, 11, 12, 12, 13, 13]

  const END_OF_BLOCK := 256
  const MAX_DIST_CODES := 30

  datatype Outcome = Done(pos: nat, out: seq<Byte>) | Bad(code: nat) | Fault

  /** The symbol the stream has next, by the linear search on a 16-bit look-ahead. */
  function NextSymbol(src: seq<Byte>, pos: nat, lens: seq<nat>): Option<nat> {
    Symbol(lens, Peek(src, pos, 16))
  }

  // ---------------------------------------------------------------------------------------
  // Compressed data.

  datatype MatchAnswer = NoMatch(outcome: Outcome) | Found(pos: nat, length: nat, distance: nat)

  function LengthBase(symbol: nat): (r: nat)
    requires 256 < symbol < 286
    ensures 3 <= r
  {
    CPLENS[symbol - 257]
  }

  function LengthExtra(symbol: nat): (r: nat)
    requires 256 < symbol < 286
    ensures r <= 5
  {
    CPLEXT[symbol - 257]
  }

  function DistanceBase(symbol: nat): (r: nat)
    requires symbol < MAX_DIST_CODES
    ensures 1 <= r
  {
    CPDIST[symbol]
  }

  function DistanceExtra(symbol: nat): (r: nat)
    requires symbol < MAX_DIST_CODES
    ensures r <= 13
  {
    CPDEXT[symbol]
  }

  /** Length and distance, from the bits after a length symbol. */
  function DecodeMatch(src: seq<Byte>, pos: nat, symbol: nat, ld: seq<nat>): (r: MatchAnswer)
    requires |ld| <= MAX_DIST_CODES && 256 < symbol < 286
    ensures r.Found? ==> pos <= r.pos && r.length >= 3 && r.distance >= 1
    ensures r.NoMatch? ==> r.outcome == Bad(1)
  {
    hide LengthBase, LengthExtra, DistanceBase, DistanceExtra;
    var length := LengthBase(symbol) + Peek(src, pos, LengthExtra(symbol));
    var pos1 := pos + LengthExtra(symbol);
    match NextSymbol(src, pos1, ld)
    case None => NoMatch(Bad(1))
    case Some(d) =>
      var pos2 := pos1 + ld[d];
      Found(pos2 + DistanceExtra(d), length, DistanceBase(d) + Peek(src, pos2, DistanceExtra(d)))
  }

  datatype Turn = Stop(outcome: Outcome) | Go(pos: nat, out: seq<Byte>)

  /** One turn of the main loop of inflate_codes, into an output of at most `cap` bytes. */
  function CodesTurn(src: seq<Byte>, pos: nat, ll: seq<nat>, ld: seq<nat>, out: seq<Byte>, cap: nat): (r: Turn)
    requires |ld| <= MAX_DIST_CODES && |out| <= cap
    ensures r.Go? ==> pos < r.pos && out <= r.out && |out| < |r.out| <= cap
    ensures r.Stop? && r.outcome.Done? ==> pos < r.outcome.pos && r.outcome.out == out
  {
    match NextSymbol(src, pos, ll)
    case None => Stop(Bad(1))
    case Some(symbol) =>
      var next := pos + ll[symbol];
      if symbol < 256 then
        if |out| == cap then Stop(Fault) else Go(next, out + [symbol])
      else if symbol == END_OF_BLOCK then Stop(Done(next, out))
      else if symbol >= 286 then Stop(Fault)
      else
        match DecodeMatch(src, next, symbol, ld)
        case NoMatch(outcome) => Stop(outcome)
        case Found(after, length, distance) =>
          if distance > |out| || |out| + length > cap then Stop(Fault)
          else Go(after, Copy(out, distance, length, cap))
  }

  function Codes(src: seq<Byte>, pos: nat, ll: seq<nat>, ld: seq<nat>, out: seq<Byte>, cap: nat): (r: Outcome)
    requires |ld| <= MAX_DIST_CODES && |out| <= cap
    ensures r.Done? ==> pos < r.pos && out <= r.out && |r.out| <= cap
    decreases cap - |out|
  {
    match CodesTurn(src, pos, ll, ld, out, cap)
    case Stop(outcome) => outcome
    case Go(next, bytes) => Codes(src, next, ll, ld, bytes, cap)
  }

  // ---------------------------------------------------------------------------------------
  // Stored blocks.

  /** The next byte boundary. */
  function AlignUp(pos: nat): (r: nat)
    ensures pos <= r < pos + 8 && r % 8 == 0
  {
    pos + (8 - pos % 8) % 8
  }

  function StoredBytes(src: seq<Byte>, pos: nat, n: nat): (s: seq<Byte>)
    ensures |s| == n
    decreases n, pos
  {
    if n == 0 then []
    else
      PeekFits(src, pos);
      [Peek(src, pos, 8)] + StoredBytes(src, pos + 8, n - 1)
  }

  lemma PeekFits(src: seq<Byte>, pos: nat)
    ensures Peek(src, pos, 8) < 256 && Peek(src, pos, 16) < 0x10000
  {
    assert Pow2(4) == 16;
    assert Pow2(8) == 256;
    assert Pow2(12) == 4096;
  }

  function Stored(src: seq<Byte>, pos: nat, out: seq<Byte>, cap: nat): (r: Outcome)
    requires |out| <= cap
    ensures r.Done? ==> pos < r.pos && out <= r.out && |r.out| <= cap
  {
    var start := AlignUp(pos);
    var n := Peek(src, start, 16);
    PeekFits(src, start + 16);
    if n != 0xffff - Peek(src, start + 16, 16) then Bad(1)
    else if |out| + n > cap then Fault
    else Done(start + 32 + 8 * n, out + StoredBytes(src, start + 32, n))
  }

  // ---------------------------------------------------------------------------------------
  // Dynamic headers.

  datatype LensAnswer = Lens(pos: nat, lens: seq<nat>) | BadLens | FaultLens

  function Repeated(v: nat, n: nat): (s: seq<nat>)
    ensures |s| == n && forall i :: 0 <= i < n ==> s[i] == v
  {
    seq(n, _ => v)
  }

  /** Extra bits and smallest count of the run symbols 16, 17 and 18. */
  function RunBits(symbol: nat): nat {
    if symbol == 16 then 2 else if symbol == 17 then 3 else 7
  }

  function RunLeast(symbol: nat): nat {
    if symbol == 18 then 11 else 3
  }

  /** What a run repeats: 16 the previous length, 17 and 18 zero. */
  function RunValue(symbol: nat, lens: seq<nat>): nat {
    if symbol == 16 && lens != [] then lens[|lens| - 1] else 0
  }

  /** build_bits_table: code lengths up to at least n of them, in a table of `size` entries. */
  function ReadLens(src: seq<Byte>, pos: nat, lb: seq<nat>, lens: seq<nat>, n: nat, size: nat): (r: LensAnswer)
    requires |lb| == 19 && |lens| <= size && n <= size
    ensures r.Lens? ==> pos <= r.pos && n <= |r.lens| <= size
    ensures r.Lens? && Lengths(lens) ==> Lengths(r.lens)
    decreases if |lens| < n then n - |lens| else 0
  {
    if |lens| >= n then Lens(pos, lens)
    else
      match NextSymbol(src, pos, lb)
      case None => BadLens
      case Some(symbol) =>
        var next := pos + lb[symbol];
        if symbol < 16 then ReadLens(src, next, lb, lens + [symbol], n, size)
        else
          var count := Peek(src, next, RunBits(symbol)) + RunLeast(symbol);
          if (symbol == 16 && lens == []) || |lens| + count > size then FaultLens
          else
            ReadLens(src, next + RunBits(symbol), lb, lens + Repeated(RunValue(symbol, lens), count), n, size)
  }

  lemma RankOfBorder()
    ensures |BORDER| == |RANK| == 19
    ensures forall i :: 0 <= i < 19 ==> BORDER[i] < 19 && RANK[BORDER[i]] == i
    ensures forall k :: 0 <= k < 19 ==> RANK[k] < 19 && BORDER[RANK[k]] == k
  {
  }

  /** The code lengths of the code-length code: nb groups of 3 bits, in the order of BORDER. */
  function ReadBorder(src: seq<Byte>, pos: nat, nb: nat): (lb: seq<nat>)
    ensures |lb| == 19 && Lengths(lb)
  {
    assert forall p :: Peek(src, p, 3) < 8 by { assert Pow2(3) == 8; }
    seq(19, k requires 0 <= k < 19 => if RANK[k] < nb then Peek(src, pos + 3 * RANK[k], 3) else 0)
  }

  datatype TablesAnswer = BadCounts | Unreadable | Tables(pos: nat, ll: seq<nat>, ld: seq<nat>)

  /** The two tables of a dynamic block; an unreadable one is left with undefined entries. */
  function ReadTables(src: seq<Byte>, pos: nat): (r: TablesAnswer)
    ensures r.Tables? ==> pos < r.pos && Lengths(r.ll) && Lengths(r.ld) && |r.ll| <= 288 && |r.ld| <= MAX_DIST_CODES
  {
    var nl := 257 + Peek(src, pos, 5);
    var nd := 1 + Peek(src, pos + 5, 5);
    var nb := 4 + Peek(src, pos + 10, 4);
    if nl > 286 || nd > MAX_DIST_CODES then BadCounts
    else
      var lb := ReadBorder(src, pos + 14, nb);
      var literals := ReadLens(src, pos + 14 + 3 * nb, lb, [], nl, 288);
      if !literals.Lens? then Unreadable
      else
        var distances := ReadLens(src, literals.pos, lb, [], nd, 32);
        if !distances.Lens? then Unreadable
        else Tables(distances.pos, literals.lens[..nl], distances.lens[..nd])
  }

  function Dynamic(src: seq<Byte>, pos: nat, out: seq<Byte>, cap: nat): (r: Outcome)
    requires |out| <= cap
    ensures r.Done? ==> pos < r.pos && out <= r.out && |r.out| <= cap
  {
    match ReadTables(src, pos)
    case BadCounts => Bad(1)
    case Unreadable => Fault
    case Tables(next, ll, ld) => if Valid(ll) && Valid(ld) then Codes(src, next, ll, ld, out, cap) else Fault
  }

  // ---------------------------------------------------------------------------------------
  // Blocks.

  function FixedLength(symbol: nat): nat {
    if symbol < 144 then 8 else if symbol < 256 then 9 else if symbol < 280 then 7 else 8
  }

  function FixedLiterals(): (lens: seq<nat>)
    ensures |lens| == 288 && forall i :: 0 <= i < 288 ==> lens[i] == FixedLength(i)
  {
    seq(288, i requires 0 <= i => FixedLength(i))
  }

  function FixedDistances(): seq<nat> {
    Repeated(5, 30)
  }

  lemma FixedValid()
    ensures Valid(FixedLiterals()) && Valid(FixedDistances())
  {
    hide Kraft, Weight, FixedLiterals;
    var ll := FixedLiterals();
    assert Kraft(ll, 288) == 144 * Weight(8) + 112 * Weight(9) + 24 * Weight(7) + 8 * Weight(8) by {
      KraftNone(ll);
      KraftRepeated(ll, 0, 144, 8);
      KraftRepeated(ll, 144, 256, 9);
      KraftRepeated(ll, 256, 280, 7);
      KraftRepeated(ll, 280, 288, 8);
    }
    assert Kraft(FixedDistances(), 30) == 30 * Weight(5) by {
      KraftNone(FixedDistances());
      KraftRepeated(FixedDistances(), 0, 30, 5);
    }
    SomeWeights();
  }

  function Block(src: seq<Byte>, pos: nat, kind: nat, out: seq<Byte>, cap: nat): (r: Outcome)
    requires |out| <= cap
    ensures r.Done? ==> pos < r.pos && out <= r.out && |r.out| <= cap
  {
    if kind == 0 then Stored(src, pos, out, cap)
    else if kind == 1 then Codes(src, pos, FixedLiterals(), FixedDistances(), out, cap)
    else if kind == 2 then Dynamic(src, pos, out, cap)
    else Bad(2)
  }

  /** After the last byte the stream reads as a stored block with a wrong complement. */
  lemma PastEnd(src: seq<Byte>, pos: nat, out: seq<Byte>, cap: nat)
    requires pos >= 8 * |src| && |out| <= cap
    ensures Block(src, pos + 3, Peek(src, pos + 1, 2), out, cap) == Bad(1)
  {
    hide Peek, StoredBytes;
    PeekPastEnd(src, pos + 1, 2);
    PeekPastEnd(src, AlignUp(pos + 3), 16);
    PeekPastEnd(src, AlignUp(pos + 3) + 16, 16);
  }

  /** inflate: blocks up to the one marked last. */
  function Inflate(src: seq<Byte>, pos: nat, out: seq<Byte>, cap: nat): (r: Outcome)
    requires |out| <= cap
    ensures r.Done? ==> pos < r.pos && out <= r.out && |r.out| <= cap
    decreases if pos < 8 * |src| then 8 * |src| - pos else 0
  {
    var last := Peek(src, pos, 1);
    match Block(src, pos + 3, Peek(src, pos + 1, 2), out, cap)
    case Bad(code) => Bad(code)
    case Fault => Fault
    case Done(next, bytes) =>
      if last == 1 then Done(next, bytes)
      else
        assert pos < 8 * |src| by {
          if pos >= 8 * |src| { PastEnd(src, pos, out, cap); }
        }
        Inflate(src, next, bytes, cap)
  }
}
