/**
 The other direction: what the gzip decoder accepts.  A successful result is the output of a block list
 that the input spells, exactly when every dynamic header on the way is plain.  The program does not
 check that a header's code-length code is a prefix code, nor that a table is filled without overrun.
 */
module InflateAccepted {
  import opened Wrappers
  import opened Bits
  import opened BitStream
  import opened Huffman
  import opened InflateModel
  import opened InflateFormat
  import opened InflateHeader
  import opened InflateBlocks

  // ---------------------------------------------------------------------------------------
  // What has been read is there.

  lemma BitsThere(src: seq<Byte>, pos: nat, n: nat)
    ensures Has(src, pos, LowBitsFirst(Peek(src, pos, n), n))
  {
    hide Peek, Has, LowBitsFirst;
    LowFirstOfValue(Peek(src, pos, n), n);
    HasOfPeek(src, pos, LowBitsFirst(Peek(src, pos, n), n));
  }

  /** A symbol that is read has its codeword in the stream. */
  lemma CodeThere(src: seq<Byte>, pos: nat, lens: seq<nat>, k: nat)
    requires Lengths(lens) && NextSymbol(src, pos, lens) == Some(k)
    ensures k < |lens| && lens[k] > 0 && Has(src, pos, CodeBits(lens, k)) && |CodeBits(lens, k)| == lens[k]
  {
    hide Code, Reverse, Has, Peek, HighBitsFirst, Pow2;
    assert lens[k] <= MAX_BITS;
    PeekParts(src, pos, lens[k], 16 - lens[k]);
    LowOfHigh(Code(lens, k), lens[k]);
    HasOfPeek(src, pos, CodeBits(lens, k));
  }

  // ---------------------------------------------------------------------------------------
  // Compressed data.

  /** A length and distance that are read are spelled by a pointer. */
  lemma MatchIsPointer(src: seq<Byte>, pos: nat, symbol: nat, ll: seq<nat>, ld: seq<nat>) returns (t: Token)
    requires Lengths(ll) && Lengths(ld) && |ld| <= MAX_DIST_CODES && 256 < symbol < 286
    requires NextSymbol(src, pos, ll) == Some(symbol) && symbol < |ll|
    requires DecodeMatch(src, pos + ll[symbol], symbol, ld).Found?
    ensures t.Pointer? && t.symbol == symbol && t.Valid(ll, ld) && Has(src, pos, t.Bits(ll, ld))
    ensures DecodeMatch(src, pos + ll[symbol], symbol, ld) == Found(pos + |t.Bits(ll, ld)|, t.Length(), t.Distance())
  {
    hide Has, Peek, NextSymbol, LowBitsFirst, CodeBits, LengthBase, LengthExtra, DistanceBase, DistanceExtra;
    var p1 := pos + ll[symbol];
    var p2 := p1 + LengthExtra(symbol);
    var d := NextSymbol(src, p2, ld).value;
    CodeThere(src, pos, ll, symbol);
    CodeThere(src, p2, ld, d);
    var p3 := p2 + ld[d];
    BitsThere(src, p1, LengthExtra(symbol));
    BitsThere(src, p3, DistanceExtra(d));
    t := Pointer(symbol, Peek(src, p1, LengthExtra(symbol)), d, Peek(src, p3, DistanceExtra(d)));
    var extra, distExtra := LowBitsFirst(t.extra, LengthExtra(symbol)), LowBitsFirst(t.distExtra, DistanceExtra(d));
    HasAppend(src, p2, CodeBits(ld, d), distExtra);
    HasAppend(src, p1, extra, CodeBits(ld, d) + distExtra);
    HasAppend(src, pos, CodeBits(ll, symbol), extra + (CodeBits(ld, d) + distExtra));
  }

  /** A turn that goes on has read a token. */
  lemma TurnIsToken(src: seq<Byte>, pos: nat, ll: seq<nat>, ld: seq<nat>, out: seq<Byte>, cap: nat) returns (t: Token)
    requires Lengths(ll) && Lengths(ld) && |ld| <= MAX_DIST_CODES && |out| <= cap
    requires CodesTurn(src, pos, ll, ld, out, cap).Go?
    ensures t.Valid(ll, ld) && t.Reaches(out) && Has(src, pos, t.Bits(ll, ld))
    ensures CodesTurn(src, pos, ll, ld, out, cap) == Go(pos + |t.Bits(ll, ld)|, t.Append(out))
  {
    hide Has, NextSymbol, CodeBits, DecodeMatch, Lz77.Copy, Lengths;
    hide LengthBase, LengthExtra, DistanceBase, DistanceExtra;
    var symbol := NextSymbol(src, pos, ll).value;
    CodeThere(src, pos, ll, symbol);
    if symbol < 256 {
      t := Literal(symbol);
    } else {
      t := MatchIsPointer(src, pos, symbol, ll, ld);
      CopyLimit(out, t.Distance(), t.Length(), cap, |out| + t.Length());
    }
  }

  /** Compressed data that is decoded to its end is spelled by tokens. */
  lemma {:induction false} CodesAreTokens(src: seq<Byte>, pos: nat, ll: seq<nat>, ld: seq<nat>, out: seq<Byte>, cap: nat)
    returns (ts: seq<Token>)
    requires Lengths(ll) && Lengths(ld) && |ld| <= MAX_DIST_CODES && |out| <= cap
    requires Codes(src, pos, ll, ld, out, cap).Done?
    ensures |ll| > END_OF_BLOCK && ll[END_OF_BLOCK] > 0
    ensures Plays(ts, ll, ld, out) && Has(src, pos, TokenBits(ts, ll, ld, out))
    ensures Codes(src, pos, ll, ld, out, cap) == Done(pos + |TokenBits(ts, ll, ld, out)|, Expand(ts, ll, ld, out))
    decreases cap - |out|
  {
    hide Has, CodeBits, Token.Append, Token.Bits, Token.Reaches, Token.Valid, CodesTurn, Lengths;
    var turn := CodesTurn(src, pos, ll, ld, out, cap);
    if turn.Stop? {
      EndThere(src, pos, ll, ld, out, cap);
      ts := [];
    } else {
      var t := TurnIsToken(src, pos, ll, ld, out, cap);
      var rest := CodesAreTokens(src, turn.pos, ll, ld, turn.out, cap);
      ts := [t] + rest;
      assert ts[1..] == rest;
      HasAppend(src, pos, t.Bits(ll, ld), TokenBits(rest, ll, ld, turn.out));
    }
  }

  lemma EndThere(src: seq<Byte>, pos: nat, ll: seq<nat>, ld: seq<nat>, out: seq<Byte>, cap: nat)
    requires Lengths(ll) && |ld| <= MAX_DIST_CODES && |out| <= cap
    requires CodesTurn(src, pos, ll, ld, out, cap).Stop? && CodesTurn(src, pos, ll, ld, out, cap).outcome.Done?
    ensures |ll| > END_OF_BLOCK && ll[END_OF_BLOCK] > 0 && Has(src, pos, CodeBits(ll, END_OF_BLOCK))
    ensures CodesTurn(src, pos, ll, ld, out, cap) == Stop(Done(pos + |CodeBits(ll, END_OF_BLOCK)|, out))
  {
    hide Has, NextSymbol, CodeBits, DecodeMatch, Lz77.Copy, Lengths;
    CodeThere(src, pos, ll, NextSymbol(src, pos, ll).value);
  }

  // ---------------------------------------------------------------------------------------
  // Stored blocks.

  lemma {:induction false} DataThere(src: seq<Byte>, pos: nat, n: nat)
    ensures Has(src, pos, DataBits(StoredBytes(src, pos, n)))
    decreases n
  {
    if n > 0 {
      hide Has, Peek, LowBitsFirst;
      var data := StoredBytes(src, pos, n);
      BitsThere(src, pos, 8);
      DataThere(src, pos + 8, n - 1);
      assert data[1..] == StoredBytes(src, pos + 8, n - 1);
      HasAppend(src, pos, LowBitsFirst(data[0], 8), DataBits(data[1..]));
    }
  }

  lemma StoredIsBlock(src: seq<Byte>, pos: nat, out: seq<Byte>, cap: nat) returns (b: Block)
    requires |out| <= cap && Stored(src, pos, out, cap).Done?
    ensures b.StoredBlock? && b.Valid(pos, out) && Has(src, pos, b.Body(pos, out))
    ensures Stored(src, pos, out, cap) == Done(pos + |b.Body(pos, out)|, b.Append(pos, out))
  {
    hide Has, Peek, LowBitsFirst, DataBits, AlignUp, StoredBytes, Pow2;
    SixteenBits();
    var start := AlignUp(pos);
    var n := Peek(src, start, 16);
    var padding := LowBitsFirst(Peek(src, pos, start - pos), start - pos);
    b := StoredBlock(padding, StoredBytes(src, start + 32, n));
    BitsThere(src, pos, start - pos);
    BitsThere(src, start, 16);
    BitsThere(src, start + 16, 16);
    DataThere(src, start + 32, n);
    var low, inverted, bytes := LowBitsFirst(n, 16), LowBitsFirst(0xffff - n, 16), DataBits(b.data);
    HasAppend(src, start + 16, inverted, bytes);
    HasAppend(src, start, low, inverted + bytes);
    HasAppend(src, pos, padding, low + (inverted + bytes));
  }

  // ---------------------------------------------------------------------------------------
  // Dynamic headers.

  /** Code lengths that are read are spelled by operations, the last of which fills the table. */
  lemma {:induction false} LensAreOps(src: seq<Byte>, pos: nat, lb: seq<nat>, lens: seq<nat>, n: nat, size: nat)
    returns (ops: seq<Op>)
    requires |lb| == 19 && Lengths(lb) && |lens| <= size && n <= size && ReadLens(src, pos, lb, lens, n, size).Lens?
    ensures OpsValid(ops, lb) && Has(src, pos, OpsBits(ops, lb)) && Chained(ops, lens)
    ensures CutOff(ops, lens, n) == |ops|
    ensures ReadLens(src, pos, lb, lens, n, size) == Lens(pos + |OpsBits(ops, lb)|, ExpandOps(ops, lens))
    decreases if |lens| < n then n - |lens| else 0
  {
    hide Has, Op.Append, Op.Bits, Lengths, ReadLens;
    if |lens| >= n {
      FullTable(src, pos, lb, lens, n, size);
      HasNothing(src, pos);
      ops := [];
    } else {
      var op := StepIsOp(src, pos, lb, lens, n, size);
      var rest := LensAreOps(src, pos + |op.Bits(lb)|, lb, op.Append(lens), n, size);
      ops := [op] + rest;
      assert ops[1..] == rest;
      HasAppend(src, pos, op.Bits(lb), OpsBits(rest, lb));
    }
  }

  lemma StepIsOp(src: seq<Byte>, pos: nat, lb: seq<nat>, lens: seq<nat>, n: nat, size: nat) returns (op: Op)
    requires |lb| == 19 && Lengths(lb) && |lens| < n <= size && ReadLens(src, pos, lb, lens, n, size).Lens?
    ensures op.Valid(lb) && op.Follows(lens) && Has(src, pos, op.Bits(lb)) && |op.Append(lens)| <= size
    ensures ReadLens(src, pos, lb, lens, n, size) ==
            ReadLens(src, pos + |op.Bits(lb)|, lb, op.Append(lens), n, size)
  {
    hide Has, NextSymbol, CodeBits, Peek, RunBits, RunLeast, RunValue, LowBitsFirst, Lengths;
    var symbol := NextSymbol(src, pos, lb).value;
    CodeThere(src, pos, lb, symbol);
    if symbol < 16 {
      op := Op(symbol, 0);
      assert op.Bits(lb) == CodeBits(lb, symbol);
    } else {
      op := Op(symbol, Peek(src, pos + lb[symbol], RunBits(symbol)));
      BitsThere(src, pos + lb[symbol], RunBits(symbol));
      HasAppend(src, pos, CodeBits(lb, symbol), LowBitsFirst(op.extra, RunBits(symbol)));
    }
  }

  /** Operations of two tables, one after the other. */
  lemma {:induction false} OpsJoin(a: seq<Op>, b: seq<Op>, lb: seq<nat>, lens: seq<nat>, n: nat)
    requires |lb| == 19 && OpsValid(a, lb) && OpsValid(b, lb)
    requires CutOff(a, lens, n) == |a| && |ExpandOps(a, lens)| >= n
    ensures OpsValid(a + b, lb) && OpsBits(a + b, lb) == OpsBits(a, lb) + OpsBits(b, lb)
    ensures CutOff(a + b, lens, n) == |a|
    decreases |a|
  {
    if a == [] {
      assert a + b == b;
    } else {
      hide Op.Bits, Op.Append, Op.Valid;
      assert (a + b)[1..] == a[1..] + b;
      OpsJoin(a[1..], b, lb, a[0].Append(lens), n);
      assert a[0].Bits(lb) + (OpsBits(a[1..], lb) + OpsBits(b, lb))
          == (a[0].Bits(lb) + OpsBits(a[1..], lb)) + OpsBits(b, lb);
    }
  }

  lemma BorderEntry(src: seq<Byte>, pos: nat, nb: nat, i: nat)
    requires i < nb <= 19
    ensures ReadBorder(src, pos, nb)[BorderAt(i)] == Peek(src, pos + 3 * i, 3)
  {
    hide Peek;
    RankOfBorder();
  }

  lemma {:induction false} BorderThere(src: seq<Byte>, pos: nat, nb: nat, i: nat)
    requires i <= nb <= 19
    ensures Has(src, pos + 3 * i, BorderBits(ReadBorder(src, pos, nb), nb, i))
    decreases nb - i
  {
    hide Has, Peek, LowBitsFirst, ReadBorder, BorderAt;
    if i == nb {
      HasNothing(src, pos + 3 * i);
    } else {
      var lb := ReadBorder(src, pos, nb);
      BitsThere(src, pos + 3 * i, 3);
      BorderThere(src, pos, nb, i + 1);
      BorderEntry(src, pos, nb, i);
      HasAppend(src, pos + 3 * i, LowBitsFirst(lb[BorderAt(i)], 3), BorderBits(lb, nb, i + 1));
    }
  }

  /** The code-length code is a prefix code, and each table is filled without overrun. */
  predicate PlainHeader(src: seq<Byte>, pos: nat) {
    var nl := 257 + Peek(src, pos, 5);
    var nd := 1 + Peek(src, pos + 5, 5);
    var nb := 4 + Peek(src, pos + 10, 4);
    var lb := ReadBorder(src, pos + 14, nb);
    nl <= 286 && nd <= MAX_DIST_CODES && Huffman.Valid(lb) &&
    var literals := ReadLens(src, pos + 14 + 3 * nb, lb, [], nl, 288);
    literals.Lens? && |literals.lens| == nl &&
    var distances := ReadLens(src, literals.pos, lb, [], nd, 32);
    distances.Lens? && |distances.lens| == nd
  }

  /** The program reads it as RFC 1951 does. */
  predicate Readable(h: Header) {
    h.Valid() && h.Separates() && h.nd <= MAX_DIST_CODES
  }

  lemma HeaderIsPlain(src: seq<Byte>, pos: nat, h: Header)
    requires Readable(h) && Has(src, pos, h.Bits())
    ensures PlainHeader(src, pos)
  {
    hide Has, Peek, OpsBits, ReadLens, Op.Bits, Op.Append, ReadBorder, ExpandOps, BorderBits, Huffman.Valid, OpsValid;
    CountsAreRead(src, pos, h);
    var k := CutOff(h.ops, [], h.nl);
    var start := pos + 14 + 3 * h.nb;
    OpsSplit(h.ops, k, h.lb, []);
    HasAppend(src, start, OpsBits(h.ops[..k], h.lb), OpsBits(h.ops[k..], h.lb));
    ReadsOps(src, start, h.ops, h.lb, [], h.nl, 288);
    var middle := start + |OpsBits(h.ops[..k], h.lb)|;
    DistancesRead(src, middle, h, k);
    FullTable(src, middle, h.lb, ExpandOps(h.ops[..k], []), h.nl, 288);
  }

  /** A plain header is spelled by the counts, the lengths and the operations that were read. */
  lemma PlainIsHeader(src: seq<Byte>, pos: nat) returns (h: Header)
    requires PlainHeader(src, pos)
    ensures Readable(h) && Has(src, pos, h.Bits())
  {
    hide Has, Peek, OpsBits, ReadLens, ReadBorder, ExpandOps, BorderBits, Huffman.Valid, OpsValid, CutOff, LowBitsFirst;
    var nl, nd, nb := 257 + Peek(src, pos, 5), 1 + Peek(src, pos + 5, 5), 4 + Peek(src, pos + 10, 4);
    var lb := ReadBorder(src, pos + 14, nb);
    var start := pos + 14 + 3 * nb;
    var a := LensAreOps(src, start, lb, [], nl, 288);
    var b := LensAreOps(src, start + |OpsBits(a, lb)|, lb, [], nd, 32);
    h := Header(lb, nb, a + b, nl, nd);
    assert Pow2(5) == 32 && Pow2(4) == 16;
    BorderSmall(src, pos + 14, nb);
    OpsJoin(a, b, lb, [], nl);
    TablesJoin(a, b, lb);
    HasAppend(src, start, OpsBits(a, lb), OpsBits(b, lb));
    HeaderThere(src, pos, h);
  }

  lemma BorderSmall(src: seq<Byte>, pos: nat, nb: nat)
    ensures var lb := ReadBorder(src, pos, nb);
            RestUnused(lb, nb) && forall k :: 0 <= k < 19 ==> lb[k] < 8
  {
    hide Peek;
    assert Pow2(3) == 8;
  }

  lemma SomeOps(ops: seq<Op>)
    requires ExpandOps(ops, []) != []
    ensures ops != []
  {
  }

  /** Both tables, from the operations of each. */
  lemma TablesJoin(a: seq<Op>, b: seq<Op>, lb: seq<nat>)
    requires |lb| == 19 && OpsValid(a + b, lb) && Chained(a, []) && Chained(b, []) && ExpandOps(a, []) != []
    ensures (a + b)[..|a|] == a && (a + b)[|a|..] == b && Chained(a + b, [])
    ensures ExpandOps(a + b, []) == ExpandOps(a, []) + ExpandOps(b, [])
  {
    SomeOps(a);
    hide ExpandOps, OpsValid, OpsBits;
    assert (a + b)[..|a|] == a && (a + b)[|a|..] == b;
    OpsSplit(a + b, |a|, lb, []);
    ExpandAfter(b, ExpandOps(a, []), []);
    assert ExpandOps(a, []) + [] == ExpandOps(a, []);
  }

  lemma HeaderThere(src: seq<Byte>, pos: nat, h: Header)
    requires h.Coded() && h.nl == 257 + Peek(src, pos, 5) && h.nd == 1 + Peek(src, pos + 5, 5)
    requires h.nb == 4 + Peek(src, pos + 10, 4) && h.lb == ReadBorder(src, pos + 14, h.nb)
    requires Has(src, pos + 14 + 3 * h.nb, OpsBits(h.ops, h.lb))
    ensures Has(src, pos, h.Bits())
  {
    hide Has, Peek, BorderBits, OpsBits, OpsValid, LowBitsFirst, ReadBorder, Huffman.Valid, RestUnused;
    var a, b, c := LowBitsFirst(h.nl - 257, 5), LowBitsFirst(h.nd - 1, 5), LowBitsFirst(h.nb - 4, 4);
    var border, tail := BorderBits(h.lb, h.nb, 0), OpsBits(h.ops, h.lb);
    BitsThere(src, pos, 5);
    BitsThere(src, pos + 5, 5);
    BitsThere(src, pos + 10, 4);
    BorderThere(src, pos + 14, h.nb, 0);
    HasAppend(src, pos + 14, border, tail);
    HasAppend(src, pos + 10, c, border + tail);
    HasAppend(src, pos + 5, b, c + (border + tail));
    HasAppend(src, pos, a, b + (c + (border + tail)));
  }

  // ---------------------------------------------------------------------------------------
  // Blocks and streams.

  lemma BlockIsSpelled(src: seq<Byte>, pos: nat, kind: nat, out: seq<Byte>, cap: nat) returns (b: Block)
    requires |out| <= cap && InflateModel.Block(src, pos, kind, out, cap).Done? && (kind == 2 ==> PlainHeader(src, pos))
    ensures b.Kind() == kind && b.Valid(pos, out) && Has(src, pos, b.Body(pos, out))
    ensures InflateModel.Block(src, pos, kind, out, cap) == Done(pos + |b.Body(pos, out)|, b.Append(pos, out))
  {
    hide Has, Stored, Codes, ReadTables, TokenBits, Header.Bits, Header.Coded, Header.Separates, PlainHeader,
         FixedLiterals, Expand, Plays, Kraft;
    if kind == 0 {
      b := StoredIsBlock(src, pos, out, cap);
    } else if kind == 1 {
      FixedValid();
      var ts := CodesAreTokens(src, pos, FixedLiterals(), FixedDistances(), out, cap);
      b := FixedBlock(ts);
    } else {
      var h := PlainIsHeader(src, pos);
      HeaderSizes(h);
      HeaderRead(src, pos, h);
      var ts := CodesAreTokens(src, pos + |h.Bits()|, h.Literals(), h.Distances(), out, cap);
      b := DynamicBlock(h, ts);
      HasAppend(src, pos, h.Bits(), TokenBits(ts, h.Literals(), h.Distances(), out));
    }
  }

  /** Every dynamic header that inflate reads is plain. */
  predicate Plain(src: seq<Byte>, pos: nat, out: seq<Byte>, cap: nat)
    requires |out| <= cap
    decreases if pos < 8 * |src| then 8 * |src| - pos else 0
  {
    hide Peek, InflateModel.Block, PlainHeader;
    var kind := Peek(src, pos + 1, 2);
    (kind == 2 ==> PlainHeader(src, pos + 3)) &&
    match InflateModel.Block(src, pos + 3, kind, out, cap)
    case Done(next, bytes) =>
      if Peek(src, pos, 1) == 1 then true
      else
        assert pos < 8 * |src| by {
          if pos >= 8 * |src| { PastEnd(src, pos, out, cap); }
        }
        Plain(src, next, bytes, cap)
    case _ => true
  }

  /** The stream spells these blocks from pos to end, and they stand for this output. */
  predicate Spells(src: seq<Byte>, pos: nat, blocks: seq<Block>, out: seq<Byte>, end: nat, result: seq<Byte>) {
    && blocks != [] && StreamValid(blocks, pos, out) && Has(src, pos, StreamBits(blocks, pos, out))
    && end == pos + |StreamBits(blocks, pos, out)| && result == StreamOutput(blocks, pos, out)
  }

  /** Whatever inflate returns is the output of a block list that the input spells up to where inflate
      stops, exactly when every dynamic header that it read is plain. */
  lemma AcceptedStream(src: seq<Byte>, pos: nat, out: seq<Byte>, cap: nat)
    requires |out| <= cap && Inflate(src, pos, out, cap).Done?
    ensures var r := Inflate(src, pos, out, cap);
            (exists blocks :: Spells(src, pos, blocks, out, r.pos, r.out)) <==> Plain(src, pos, out, cap)
  {
    hide Inflate, Plain, Spells;
    var r := Inflate(src, pos, out, cap);
    if Plain(src, pos, out, cap) {
      var blocks := PlainIsSpelled(src, pos, out, cap);
    }
    if blocks :| Spells(src, pos, blocks, out, r.pos, r.out) {
      SpelledIsPlain(src, pos, blocks, out, cap);
    }
  }

  lemma {:induction false} PlainIsSpelled(src: seq<Byte>, pos: nat, out: seq<Byte>, cap: nat) returns (blocks: seq<Block>)
    requires |out| <= cap && Inflate(src, pos, out, cap).Done? && Plain(src, pos, out, cap)
    ensures var r := Inflate(src, pos, out, cap); Spells(src, pos, blocks, out, r.pos, r.out)
    decreases if pos < 8 * |src| then 8 * |src| - pos else 0
  {
    hide Has, Peek, Block.Valid, Block.Body, Block.Append, InflateModel.Block, PlainHeader;
    var b := BlockIsSpelled(src, pos + 3, Peek(src, pos + 1, 2), out, cap);
    var next, bytes := pos + 3 + |b.Body(pos + 3, out)|, b.Append(pos + 3, out);
    var rest := [];
    if Peek(src, pos, 1) == 1 {
      HasNothing(src, next);
    } else {
      if pos >= 8 * |src| { PastEnd(src, pos, out, cap); }
      rest := PlainIsSpelled(src, next, bytes, cap);
    }
    blocks := [b] + rest;
    assert blocks[1..] == rest;
    BlockJoins(src, pos, blocks, out);
    JoinedEnd(pos, blocks, out);
  }

  lemma JoinedEnd(pos: nat, blocks: seq<Block>, out: seq<Byte>)
    requires blocks != [] && StreamValid(blocks, pos, out)
    ensures var next := pos + 3 + |blocks[0].Body(pos + 3, out)|;
            var bytes := blocks[0].Append(pos + 3, out);
            && pos + |StreamBits(blocks, pos, out)| == next + |StreamBits(blocks[1..], next, bytes)|
            && StreamOutput(blocks, pos, out) == StreamOutput(blocks[1..], next, bytes)
  {
    hide Block.Valid, Block.Body, Block.Append, LowBitsFirst;
  }

  /** A block, with its flag and kind, and the blocks that follow it. */
  lemma BlockJoins(src: seq<Byte>, pos: nat, blocks: seq<Block>, out: seq<Byte>)
    requires blocks != [] && blocks[0].Valid(pos + 3, out) && Has(src, pos + 3, blocks[0].Body(pos + 3, out))
    requires blocks[0].Kind() == Peek(src, pos + 1, 2) && (Peek(src, pos, 1) == 1 <==> |blocks| == 1)
    requires var next := pos + 3 + |blocks[0].Body(pos + 3, out)|;
             var bytes := blocks[0].Append(pos + 3, out);
             StreamValid(blocks[1..], next, bytes) && Has(src, next, StreamBits(blocks[1..], next, bytes))
    ensures StreamValid(blocks, pos, out) && Has(src, pos, StreamBits(blocks, pos, out))
  {
    hide Has, Peek, LowBitsFirst, Block.Valid, Block.Body, Block.Append;
    var b, rest := blocks[0], blocks[1..];
    var flag: seq<Bit> := [if |blocks| == 1 then 1 else 0];
    var kind, body := LowBitsFirst(b.Kind(), 2), b.Body(pos + 3, out);
    var tail := StreamBits(rest, pos + 3 + |body|, b.Append(pos + 3, out));
    FlagThere(src, pos, flag[0]);
    BitsThere(src, pos + 1, 2);
    HasAppend(src, pos + 3, body, tail);
    HasAppend(src, pos + 1, kind, body + tail);
    HasAppend(src, pos, flag, kind + (body + tail));
  }

  lemma FlagThere(src: seq<Byte>, pos: nat, bit: Bit)
    requires (Peek(src, pos, 1) == 1) == (bit == 1)
    ensures Has(src, pos, [bit])
  {
    assert Pow2(1) == 2;
    assert LowFirst([bit]) == bit + 2 * LowFirst([]);
    HasOfPeek(src, pos, [bit]);
  }

  lemma {:induction false} SpelledIsPlain(src: seq<Byte>, pos: nat, blocks: seq<Block>, out: seq<Byte>, cap: nat)
    requires |out| <= cap && Inflate(src, pos, out, cap).Done?
    requires var r := Inflate(src, pos, out, cap); Spells(src, pos, blocks, out, r.pos, r.out)
    ensures Plain(src, pos, out, cap)
    decreases |blocks|
  {
    hide Has, Peek, LowBitsFirst, Block.Valid, Block.Body, Block.Append, InflateModel.Block, PlainHeader;
    var b, rest := blocks[0], blocks[1..];
    var flag: seq<Bit> := [if |blocks| == 1 then 1 else 0];
    var kind, body := LowBitsFirst(b.Kind(), 2), b.Body(pos + 3, out);
    var next, bytes := pos + 3 + |body|, b.Append(pos + 3, out);
    var tail := StreamBits(rest, next, bytes);
    HasAppend(src, pos, flag, kind + (body + tail));
    HasAppend(src, pos + 1, kind, body + tail);
    HasAppend(src, pos + 3, body, tail);
    OneBit(src, pos, flag[0]);
    assert Pow2(2) == 4;
    PeekOfValue(src, pos + 1, b.Kind(), 2);
    assert bytes <= StreamOutput(blocks, pos, out);
    BlockDecodes(src, pos + 3, b, out, cap);
    BlockIsPlain(src, pos + 3, b, out);
    if rest != [] {
      SpelledIsPlain(src, next, rest, bytes, cap);
    }
  }

  lemma BlockIsPlain(src: seq<Byte>, pos: nat, b: Block, out: seq<Byte>)
    requires b.Valid(pos, out) && Has(src, pos, b.Body(pos, out))
    ensures b.Kind() == 2 ==> PlainHeader(src, pos)
  {
    hide Has, PlainHeader, Header.Coded, Header.Separates, Header.Bits, Huffman.Valid, Plays, TokenBits;
    if b.DynamicBlock? {
      var h := b.header;
      HeaderSizes(h);
      HasAppend(src, pos, h.Bits(), TokenBits(b.tokens, h.Literals(), h.Distances(), out));
      HeaderIsPlain(src, pos, h);
    }
  }

  // ---------------------------------------------------------------------------------------
  // A stream that is accepted and that no block list spells.

  /** One distance length is announced; the last run gives x + 11. */
  function OverrunHeader(x: nat): Header {
    Header(SMALL_CODE, 19, OpsEnding(Op(18, x)), 257, 1)
  }

  function OverrunLiterals(): seq<nat> {
    Repeated(0, 256) + [2]
  }

  /** A last block that holds only the end-of-block symbol. */
  function OverrunBits(x: nat): seq<Bit>
    requires OverrunHeader(x).Coded()
  {
    [1] + (LowBitsFirst(2, 2) + (OverrunHeader(x).Bits() + CodeBits(OverrunLiterals(), END_OF_BLOCK)))
  }

  lemma OverrunCoded(x: nat)
    requires x < 128
    ensures OverrunHeader(x).Coded()
    ensures var ops := OpsEnding(Op(18, x));
            && ExpandOps(ops, []) == OverrunLiterals() + Repeated(0, x + 11)
            && CutOff(ops, [], 257) == 3 && ExpandOps(ops[..3], []) == OverrunLiterals()
  {
    hide Huffman.Valid, RestUnused, ExpandOps, CutOff, Repeated, Chained, OpsValid;
    SmallCode();
    OpsSpell(Op(18, x));
  }

  /** The program takes the header as long as the run fits the table of 32 entries, and drops the lengths too
      many. */
  lemma OverrunRead(src: seq<Byte>, pos: nat, x: nat)
    requires x < 128 && OverrunHeader(x).Coded() && Has(src, pos, OverrunHeader(x).Bits())
    ensures ReadTables(src, pos) ==
            if x + 11 <= 32 then Tables(pos + |OverrunHeader(x).Bits()|, OverrunLiterals(), [0]) else Unreadable
    ensures !PlainHeader(src, pos)
    ensures ReadLens(src, pos + 71, SMALL_CODE, [], 257, 288).Lens?
    ensures ReadLens(src, pos + 71, SMALL_CODE, [], 257, 288).lens == OverrunLiterals()
  {
    hide Has, Peek, OpsBits, ReadLens, Op.Bits, Op.Append, ReadBorder, ExpandOps, BorderBits, Huffman.Valid, OpsValid, CutOff;
    var h := OverrunHeader(x);
    OverrunCoded(x);
    CountsAreRead(src, pos, h);
    var start := pos + 14 + 3 * h.nb;
    var front, last := h.ops[..3], h.ops[3..];
    OpsSplit(h.ops, 3, h.lb, []);
    HasAppend(src, start, OpsBits(front, h.lb), OpsBits(last, h.lb));
    ReadsOps(src, start, h.ops, h.lb, [], 257, 288);
    var middle := start + |OpsBits(front, h.lb)|;
    FullTable(src, middle, h.lb, OverrunLiterals(), 257, 288);
    LastRun(last, x);
    ReadsOps(src, middle, last, h.lb, [], 1, 32);
    if x + 11 <= 32 {
      FullTable(src, middle + |OpsBits(last, h.lb)|, h.lb, Repeated(0, x + 11), 1, 32);
    }
    assert Repeated(0, x + 11)[..1] == [0];
  }

  /** When a header well-formed by RFC 1951 is read, and its first table without overrun, no run crosses. */
  lemma ExactSeparates(src: seq<Byte>, pos: nat, h: Header)
    requires h.Valid() && Has(src, pos, h.Bits()) && ReadTables(src, pos).Tables?
    requires var r := ReadLens(src, pos + 14 + 3 * h.nb, h.lb, [], h.nl, 288); r.Lens? && |r.lens| == h.nl
    ensures Readable(h)
  {
    hide Has, Peek, OpsBits, ReadLens, Op.Bits, Op.Append, ReadBorder, ExpandOps, BorderBits, Huffman.Valid, OpsValid;
    CountsAreRead(src, pos, h);
    var k := CutOff(h.ops, [], h.nl);
    var start := pos + 14 + 3 * h.nb;
    OpsSplit(h.ops, k, h.lb, []);
    HasAppend(src, start, OpsBits(h.ops[..k], h.lb), OpsBits(h.ops[k..], h.lb));
    ReadsOps(src, start, h.ops, h.lb, [], h.nl, 288);
    CutOffReaches(h.ops, [], h.nl);
    var middle, front := start + |OpsBits(h.ops[..k], h.lb)|, ExpandOps(h.ops[..k], []);
    FullTable(src, middle, h.lb, front, h.nl, 288);
    ReadsOps(src, middle, h.ops[k..], h.lb, [], h.nd, 32);
  }

  /** No header well-formed by RFC 1951 begins with these bits. */
  lemma OverrunIsNoHeader(src: seq<Byte>, pos: nat, h: Header, x: nat)
    requires x + 11 <= 32 && OverrunHeader(x).Coded() && Has(src, pos, OverrunHeader(x).Bits()) && h.Valid()
    ensures !Has(src, pos, h.Bits())
  {
    hide Has, ReadTables, ReadLens, PlainHeader, Header.Coded, Header.Separates, Header.Bits, Huffman.Valid, ReadBorder,
         OpsBits, OverrunLiterals;
    if Has(src, pos, h.Bits()) {
      OverrunRead(src, pos, x);
      CountsAreRead(src, pos, OverrunHeader(x));
      CountsAreRead(src, pos, h);
      assert |OverrunLiterals()| == 257 by { OverrunSize(); }
      ExactSeparates(src, pos, h);
      HeaderIsPlain(src, pos, h);
    }
  }

  lemma OverrunSize()
    ensures |OverrunLiterals()| == 257
  {
  }

  lemma LastRun(ops: seq<Op>, x: nat)
    requires ops == OpsEnding(Op(18, x))[3..]
    ensures Chained(ops, []) && CutOff(ops, [], 1) == 1 && ops[..1] == ops && ExpandOps(ops, []) == Repeated(0, x + 11)
  {
    assert ops == [Op(18, x)];
    assert [] + Repeated(0, x + 11) == Repeated(0, x + 11);
    assert ops[1..] == [];
  }

  lemma OverrunBlock(src: seq<Byte>, pos: nat, out: seq<Byte>, cap: nat, x: nat)
    requires x + 11 <= 32 && |out| <= cap && OverrunHeader(x).Coded()
    requires Has(src, pos, OverrunHeader(x).Bits() + CodeBits(OverrunLiterals(), END_OF_BLOCK))
    ensures InflateModel.Block(src, pos, 2, out, cap) ==
            Done(pos + |OverrunHeader(x).Bits() + CodeBits(OverrunLiterals(), END_OF_BLOCK)|, out)
    ensures !PlainHeader(src, pos)
  {
    hide Has, Peek, ReadTables, ReadLens, Header.Bits, Header.Coded, CodeBits, Huffman.Valid, PlainHeader, CodesTurn, Repeated;
    var bits, ll := OverrunHeader(x).Bits(), OverrunLiterals();
    HasAppend(src, pos, bits, CodeBits(ll, END_OF_BLOCK));
    OverrunRead(src, pos, x);
    RepeatedIs(0, 1, [0]);
    SmallTables(ll, [0]);
    EndOfBlock(src, pos + |bits|, ll, [0], out, cap);
  }

  lemma LastBlock(src: seq<Byte>, pos: nat, out: seq<Byte>, cap: nat, end: nat)
    requires |out| <= cap && Peek(src, pos, 1) == 1 && Peek(src, pos + 1, 2) == 2
    requires InflateModel.Block(src, pos + 3, 2, out, cap) == Done(end, out)
    ensures Inflate(src, pos, out, cap) == Done(end, out)
    ensures Plain(src, pos, out, cap) ==> PlainHeader(src, pos + 3)
  {
    hide Peek, InflateModel.Block, PlainHeader;
  }

  /** Wherever these bits stand, inflate accepts them; they announce a dynamic block, and no header that is
      well-formed by RFC 1951 follows.  So no block list spells what was accepted. */
  lemma OverrunAccepted(src: seq<Byte>, pos: nat, out: seq<Byte>, cap: nat, x: nat)
    requires x + 11 <= 32 && |out| <= cap
    ensures OverrunHeader(x).Coded()
    ensures Has(src, pos, OverrunBits(x)) ==>
            var end := pos + |OverrunBits(x)|;
            && Inflate(src, pos, out, cap) == Done(end, out)
            && Peek(src, pos + 1, 2) == 2 && (forall h: Header :: h.Valid() ==> !Has(src, pos + 3, h.Bits()))
            && forall blocks :: !Spells(src, pos, blocks, out, end, out)
  {
    hide Has, Peek, Header.Bits, Header.Coded, CodeBits, PlainHeader, Plain, Inflate, Spells, LowBitsFirst,
         InflateModel.Block, OverrunHeader, OverrunLiterals;
    OverrunCoded(x);
    if Has(src, pos, OverrunBits(x)) {
      var rest := OverrunHeader(x).Bits() + CodeBits(OverrunLiterals(), END_OF_BLOCK);
      HasAppend(src, pos, [1], LowBitsFirst(2, 2) + rest);
      HasAppend(src, pos + 1, LowBitsFirst(2, 2), rest);
      OneBit(src, pos, 1);
      assert Pow2(2) == 4;
      PeekOfValue(src, pos + 1, 2, 2);
      HasAppend(src, pos + 3, OverrunHeader(x).Bits(), CodeBits(OverrunLiterals(), END_OF_BLOCK));
      forall h: Header | h.Valid()
        ensures !Has(src, pos + 3, h.Bits())
      {
        OverrunIsNoHeader(src, pos + 3, h, x);
      }
      OverrunBlock(src, pos + 3, out, cap, x);
      LastBlock(src, pos, out, cap, pos + |OverrunBits(x)|);
      AcceptedStream(src, pos, out, cap);
    }
  }

  /** With a longer run the program writes past its table. */
  lemma OverrunTooFar(src: seq<Byte>, pos: nat, out: seq<Byte>, cap: nat, x: nat)
    requires 32 < x + 11 && x < 128 && |out| <= cap
    ensures OverrunHeader(x).Coded()
    ensures Has(src, pos, OverrunBits(x)) ==> Inflate(src, pos, out, cap) == Fault
  {
    hide Has, Peek, Header.Bits, Header.Coded, CodeBits, LowBitsFirst, ReadTables, ReadLens, PlainHeader,
         OverrunHeader, OverrunLiterals;
    OverrunCoded(x);
    if Has(src, pos, OverrunBits(x)) {
      var bits, code := OverrunHeader(x).Bits(), CodeBits(OverrunLiterals(), END_OF_BLOCK);
      HasAppend(src, pos, [1], LowBitsFirst(2, 2) + (bits + code));
      HasAppend(src, pos + 1, LowBitsFirst(2, 2), bits + code);
      HasAppend(src, pos + 3, bits, code);
      assert Pow2(2) == 4;
      PeekOfValue(src, pos + 1, 2, 2);
      OverrunRead(src, pos + 3, x);
    }
  }
}
