/**
 The DEFLATE format of RFC 1951 written forwards: tokens, headers and blocks as bit strings, with the
 output they stand for.  Every bit string of a well-formed block list is decoded to that output.
 */
module InflateFormat {
  import opened Wrappers
  import opened Bits
  import opened BitStream
  import opened Huffman
  import opened InflateModel
  import opened Lz77

  // ---------------------------------------------------------------------------------------
  // Codewords.

  /** A codeword as it is packed: most significant bit first (RFC 1951, section 3.1.1). */
  function CodeBits(lens: seq<nat>, k: nat): seq<Bit>
    requires k < |lens|
  {
    HighBitsFirst(Code(lens, k), lens[k])
  }

  lemma {:induction false} LowFirstAppend(bits: seq<Bit>, last: Bit)
    ensures LowFirst(bits + [last]) == LowFirst(bits) + last * Pow2(|bits|)
    decreases |bits|
  {
    if bits != [] {
      assert (bits + [last])[1..] == bits[1..] + [last];
      LowFirstAppend(bits[1..], last);
      MulDouble(last, Pow2(|bits| - 1));
    }
  }

  lemma {:induction false} LowOfHigh(v: nat, n: nat)
    ensures LowFirst(HighBitsFirst(v, n)) == Reverse(v, n)
  {
    if n > 0 {
      LowOfHigh(v / 2, n - 1);
      LowFirstAppend(HighBitsFirst(v / 2, n - 1), v % 2);
    }
  }

  /** A codeword in the stream is the next symbol. */
  lemma CodeIsNext(src: seq<Byte>, pos: nat, lens: seq<nat>, k: nat)
    requires Huffman.Valid(lens) && k < |lens| && lens[k] > 0 && Has(src, pos, CodeBits(lens, k))
    ensures NextSymbol(src, pos, lens) == Some(k)
  {
    hide Code, Reverse, Has, Peek, HighBitsFirst, Pow2;
    assert lens[k] <= MAX_BITS;
    LowOfHigh(Code(lens, k), lens[k]);
    PeekOfHas(src, pos, CodeBits(lens, k));
    PeekParts(src, pos, lens[k], 16 - lens[k]);
    SymbolOfMatch(lens, k, Peek(src, pos, 16));
  }

  // ---------------------------------------------------------------------------------------
  // Compressed data.

  /** A literal byte, or a length and a distance given by symbol and extra bits. */
  datatype Token =
    | Literal(byte: Byte)
    | Pointer(symbol: nat, extra: nat, distSymbol: nat, distExtra: nat)
  {
    predicate Valid(ll: seq<nat>, ld: seq<nat>) {
      match this
      case Literal(b) => b < |ll| && ll[b] > 0
      case Pointer(s, x, d, y) =>
        && 256 < s < 286 && s < |ll| && ll[s] > 0 && x < Pow2(LengthExtra(s))
        && d < |ld| && d < MAX_DIST_CODES && ld[d] > 0 && y < Pow2(DistanceExtra(d))
    }

    function Length(): nat
      requires Pointer? && 256 < symbol < 286
    {
      LengthBase(symbol) + extra
    }

    function Distance(): nat
      requires Pointer? && distSymbol < MAX_DIST_CODES
    {
      DistanceBase(distSymbol) + distExtra
    }

    function Bits(ll: seq<nat>, ld: seq<nat>): seq<Bit>
      requires Valid(ll, ld)
    {
      match this
      case Literal(b) => CodeBits(ll, b)
      case Pointer(s, x, d, y) =>
        CodeBits(ll, s) +
        (LowBitsFirst(x, LengthExtra(s)) + (CodeBits(ld, d) + LowBitsFirst(y, DistanceExtra(d))))
    }

    /** The token can follow this output. */
    predicate Reaches(out: seq<Byte>)
      requires Pointer? ==> 256 < symbol < 286 && distSymbol < MAX_DIST_CODES
    {
      Pointer? ==> Distance() <= |out|
    }

    function Append(out: seq<Byte>): (r: seq<Byte>)
      requires (Pointer? ==> 256 < symbol < 286 && distSymbol < MAX_DIST_CODES) && Reaches(out)
      ensures out <= r && |out| < |r|
    {
      if Literal? then out + [byte]
      else
        Copy(out, Distance(), Length(), |out| + Length())
    }
  }

  lemma {:induction false} CopyLimit(out: seq<Byte>, distance: nat, n: nat, a: nat, b: nat)
    requires 1 <= distance <= |out| && |out| + n <= a && |out| + n <= b
    ensures Copy(out, distance, n, a) == Copy(out, distance, n, b)
    decreases n
  {
    if n > 0 {
      CopyLimit(out + [out[|out| - distance]], distance, n - 1, a, b);
    }
  }

  predicate Plays(ts: seq<Token>, ll: seq<nat>, ld: seq<nat>, out: seq<Byte>)
    decreases |ts|
  {
    ts == [] || (ts[0].Valid(ll, ld) && ts[0].Reaches(out) && Plays(ts[1..], ll, ld, ts[0].Append(out)))
  }

  /** LZ77 expansion of the tokens after `out`. */
  function Expand(ts: seq<Token>, ll: seq<nat>, ld: seq<nat>, out: seq<Byte>): (r: seq<Byte>)
    requires Plays(ts, ll, ld, out)
    ensures out <= r
    decreases |ts|
  {
    if ts == [] then out else Expand(ts[1..], ll, ld, ts[0].Append(out))
  }

  /** The tokens and the end-of-block symbol. */
  function TokenBits(ts: seq<Token>, ll: seq<nat>, ld: seq<nat>, out: seq<Byte>): (bits: seq<Bit>)
    requires Plays(ts, ll, ld, out) && |ll| > END_OF_BLOCK
    decreases |ts|
  {
    if ts == [] then CodeBits(ll, END_OF_BLOCK)
    else ts[0].Bits(ll, ld) + TokenBits(ts[1..], ll, ld, ts[0].Append(out))
  }

  /** A pointer is read back by the length and distance decoder. */
  lemma PointerDecodes(src: seq<Byte>, pos: nat, t: Token, ll: seq<nat>, ld: seq<nat>)
    requires Huffman.Valid(ll) && Huffman.Valid(ld) && |ld| <= MAX_DIST_CODES && t.Valid(ll, ld) && t.Pointer?
    requires Has(src, pos, t.Bits(ll, ld))
    ensures NextSymbol(src, pos, ll) == Some(t.symbol)
    ensures DecodeMatch(src, pos + ll[t.symbol], t.symbol, ld) ==
            Found(pos + |t.Bits(ll, ld)|, t.Length(), t.Distance())
  {
    hide Has, Peek, NextSymbol, LowBitsFirst, CodeBits, HighBitsFirst, LengthBase, LengthExtra, DistanceBase, DistanceExtra;
    var extra := LowBitsFirst(t.extra, LengthExtra(t.symbol));
    var distExtra := LowBitsFirst(t.distExtra, DistanceExtra(t.distSymbol));
    var code, distCode := CodeBits(ll, t.symbol), CodeBits(ld, t.distSymbol);
    CodeLength(ll, t.symbol);
    CodeLength(ld, t.distSymbol);
    HasAppend(src, pos, code, extra + (distCode + distExtra));
    CodeIsNext(src, pos, ll, t.symbol);
    var p1 := pos + ll[t.symbol];
    HasAppend(src, p1, extra, distCode + distExtra);
    PeekOfValue(src, p1, t.extra, |extra|);
    var p2 := p1 + |extra|;
    HasAppend(src, p2, distCode, distExtra);
    CodeIsNext(src, p2, ld, t.distSymbol);
    PeekOfValue(src, p2 + ld[t.distSymbol], t.distExtra, |distExtra|);
  }

  lemma CodeLength(lens: seq<nat>, k: nat)
    requires k < |lens|
    ensures |CodeBits(lens, k)| == lens[k]
  {
  }

  lemma {:induction false} TokensDecode(src: seq<Byte>, pos: nat, ts: seq<Token>, ll: seq<nat>, ld: seq<nat>,
                                        out: seq<Byte>, cap: nat)
    requires Huffman.Valid(ll) && Huffman.Valid(ld) && |ld| <= MAX_DIST_CODES
    requires |ll| > END_OF_BLOCK && ll[END_OF_BLOCK] > 0
    requires Plays(ts, ll, ld, out) && |Expand(ts, ll, ld, out)| <= cap
    requires Has(src, pos, TokenBits(ts, ll, ld, out))
    ensures Codes(src, pos, ll, ld, out, cap) ==
            Done(pos + |TokenBits(ts, ll, ld, out)|, Expand(ts, ll, ld, out))
    decreases |ts|
  {
    hide Has, NextSymbol, CodeBits, Huffman.Valid, Token.Append, Token.Bits, Token.Reaches, CodesTurn;
    if ts == [] {
      EndOfBlock(src, pos, ll, ld, out, cap);
    } else {
      var t, rest := ts[0], ts[1..];
      var bits := t.Bits(ll, ld);
      var next := t.Append(out);
      HasAppend(src, pos, bits, TokenBits(rest, ll, ld, next));
      TokensDecode(src, pos + |bits|, rest, ll, ld, next, cap);
      TurnTakesToken(src, pos, t, ll, ld, out, cap);
    }
  }

  lemma EndOfBlock(src: seq<Byte>, pos: nat, ll: seq<nat>, ld: seq<nat>, out: seq<Byte>, cap: nat)
    requires Huffman.Valid(ll) && |ld| <= MAX_DIST_CODES && |ll| > END_OF_BLOCK && ll[END_OF_BLOCK] > 0
    requires |out| <= cap && Has(src, pos, CodeBits(ll, END_OF_BLOCK))
    ensures CodesTurn(src, pos, ll, ld, out, cap) == Stop(Done(pos + |CodeBits(ll, END_OF_BLOCK)|, out))
  {
    hide Has, NextSymbol, CodeBits, Huffman.Valid, DecodeMatch;
    CodeLength(ll, END_OF_BLOCK);
    CodeIsNext(src, pos, ll, END_OF_BLOCK);
  }

  lemma TurnTakesToken(src: seq<Byte>, pos: nat, t: Token, ll: seq<nat>, ld: seq<nat>, out: seq<Byte>, cap: nat)
    requires Huffman.Valid(ll) && Huffman.Valid(ld) && |ld| <= MAX_DIST_CODES
    requires t.Valid(ll, ld) && t.Reaches(out) && |t.Append(out)| <= cap && Has(src, pos, t.Bits(ll, ld))
    ensures CodesTurn(src, pos, ll, ld, out, cap) == Go(pos + |t.Bits(ll, ld)|, t.Append(out))
  {
    hide Has, NextSymbol, CodeBits, Huffman.Valid, DecodeMatch, Copy;
    hide LengthBase, LengthExtra, DistanceBase, DistanceExtra;
    if t.Literal? {
      CodeLength(ll, t.byte);
      CodeIsNext(src, pos, ll, t.byte);
    } else {
      PointerDecodes(src, pos, t, ll, ld);
      CopyLimit(out, t.Distance(), t.Length(), cap, |out| + t.Length());
    }
  }

  // ---------------------------------------------------------------------------------------
  // The tables cover the ranges of RFC 1951.

  lemma SmallPowers()
    ensures Pow2(0) == 1 && Pow2(1) == 2 && Pow2(2) == 4 && Pow2(3) == 8 && Pow2(4) == 16 && Pow2(5) == 32
  {
    assert Pow2(2) == 4;
    assert Pow2(4) == 16;
  }

  lemma LengthsMeet(i: nat)
    requires i < 28
    ensures CPLENS[i] < CPLENS[i + 1] && CPLENS[0] == 3 && CPLENS[28] == 258 && CPLEXT[28] == 0
    ensures CPLENS[i] + Pow2(CPLEXT[i]) == if i < 27 then CPLENS[i + 1] else 259
  {
    hide Pow2;
    SmallPowers();
  }

  lemma DistancesMeet(i: nat)
    requires i < 29
    ensures CPDIST[i] < CPDIST[i + 1] == CPDIST[i] + Pow2(CPDEXT[i])
    ensures CPDIST[0] == 1 && CPDIST[29] == 24577 && CPDEXT[29] == 13
  {
    assert Pow2(3) == 8 && Pow2(6) == 64 && Pow2(9) == 512 && Pow2(12) == 4096;
  }

  /** Every length 3..258 and every distance 1..32768 has a pointer. */
  lemma PointerExists(length: nat, distance: nat) returns (t: Token)
    requires 3 <= length <= 258 && 1 <= distance <= 32768
    ensures t.Pointer? && 256 < t.symbol < 286 && t.extra < Pow2(LengthExtra(t.symbol)) && t.Length() == length
    ensures t.distSymbol < MAX_DIST_CODES && t.distExtra < Pow2(DistanceExtra(t.distSymbol)) && t.Distance() == distance
  {
    hide Pow2;
    var i, j: nat := 0, 0;
    while i < 28 && CPLENS[i + 1] <= length
      invariant i <= 28 && CPLENS[i] <= length
    {
      i := i + 1;
    }
    while j < 29 && CPDIST[j + 1] <= distance
      invariant j <= 29 && CPDIST[j] <= distance
    {
      j := j + 1;
    }
    if i < 28 {
      LengthsMeet(i);
    }
    if j < 29 {
      DistancesMeet(j);
    }
    LastExtras();
    t := Pointer(257 + i, length - CPLENS[i], j, distance - CPDIST[j]);
  }

  lemma LastExtras()
    ensures Pow2(0) == 1 && Pow2(13) == 8192
  {
    assert Pow2(10) == 1024;
  }
}
