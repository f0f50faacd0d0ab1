/**
 Blocks and whole streams written forwards, and the main results about the gzip decoder: every
 encoding of a well-formed block list inflates to the bytes it stands for, and stops at its last bit.
 */
module InflateBlocks {
  import opened Bits
  import opened BitStream
  import opened Huffman
  import opened InflateModel
  import opened InflateFormat
  import opened InflateHeader

  function DataBits(data: seq<Byte>): (bits: seq<Bit>)
    ensures |bits| == 8 * |data|
  {
    if data == [] then [] else LowBitsFirst(data[0], 8) + DataBits(data[1..])
  }

  lemma {:induction false} DataIsRead(src: seq<Byte>, pos: nat, data: seq<Byte>)
    requires Has(src, pos, DataBits(data))
    ensures StoredBytes(src, pos, |data|) == data
    decreases |data|
  {
    hide Has, Peek, LowBitsFirst;
    if data != [] {
      assert Pow2(8) == 256 by { assert Pow2(4) == 16; }
      HasAppend(src, pos, LowBitsFirst(data[0], 8), DataBits(data[1..]));
      PeekOfValue(src, pos, data[0], 8);
      DataIsRead(src, pos + 8, data[1..]);
    }
  }

  /** A stored block carries the padding bits up to the byte boundary, whatever they are. */
  datatype Block =
    | StoredBlock(padding: seq<Bit>, data: seq<Byte>)
    | FixedBlock(tokens: seq<Token>)
    | DynamicBlock(header: Header, tokens: seq<Token>)
  {
    function Kind(): nat {
      if StoredBlock? then 0 else if FixedBlock? then 1 else 2
    }

    /** The code lengths in force. */
    function LiteralLengths(): seq<nat>
      requires FixedBlock? || (DynamicBlock? && header.Valid())
    {
      if FixedBlock? then FixedLiterals() else header.Literals()
    }

    function DistanceLengths(): seq<nat>
      requires FixedBlock? || (DynamicBlock? && header.Valid())
    {
      if FixedBlock? then FixedDistances() else header.Distances()
    }

    /** Well-formed at bit position pos (after the 3 block header bits) and after this output.
        For a dynamic block this asks that the program reads its header: no run crosses the two
        tables, and there are at most 30 distance lengths. */
    predicate Valid(pos: nat, out: seq<Byte>) {
      match this
      case StoredBlock(padding, data) => pos + |padding| == AlignUp(pos) && |data| <= 0xffff
      case FixedBlock(tokens) => Plays(tokens, FixedLiterals(), FixedDistances(), out)
      case DynamicBlock(header, tokens) =>
        && header.Valid() && header.Separates() && header.nd <= MAX_DIST_CODES
        && Huffman.Valid(header.Literals()) && Huffman.Valid(header.Distances())
        && header.Literals()[END_OF_BLOCK] > 0
        && Plays(tokens, header.Literals(), header.Distances(), out)
    }

    function Append(pos: nat, out: seq<Byte>): (r: seq<Byte>)
      requires Valid(pos, out)
      ensures out <= r
    {
      if StoredBlock? then out + data else Expand(tokens, LiteralLengths(), DistanceLengths(), out)
    }

    /** The bits after the 3 block header bits. */
    function Body(pos: nat, out: seq<Byte>): seq<Bit>
      requires Valid(pos, out)
    {
      match this
      case StoredBlock(padding, data) =>
        padding + (LowBitsFirst(|data|, 16) + (LowBitsFirst(0xffff - |data|, 16) + DataBits(data)))
      case FixedBlock(tokens) => TokenBits(tokens, FixedLiterals(), FixedDistances(), out)
      case DynamicBlock(header, tokens) =>
        header.Bits() + TokenBits(tokens, header.Literals(), header.Distances(), out)
    }
  }

  lemma SixteenBits()
    ensures Pow2(16) == 0x10000
  {
    assert Pow2(4) == 16;
    assert Pow2(8) == 256;
    assert Pow2(12) == 4096;
  }

  lemma StoredDecodes(src: seq<Byte>, pos: nat, b: Block, out: seq<Byte>, cap: nat)
    requires b.StoredBlock? && b.Valid(pos, out) && |b.Append(pos, out)| <= cap && Has(src, pos, b.Body(pos, out))
    ensures Stored(src, pos, out, cap) == Done(pos + |b.Body(pos, out)|, b.Append(pos, out))
  {
    hide Has, Peek, LowBitsFirst, DataBits, AlignUp, StoredBytes, Pow2;
    SixteenBits();
    var n := |b.data|;
    var low, inverted, bytes := LowBitsFirst(n, 16), LowBitsFirst(0xffff - n, 16), DataBits(b.data);
    HasAppend(src, pos, b.padding, low + (inverted + bytes));
    var start := pos + |b.padding|;
    HasAppend(src, start, low, inverted + bytes);
    HasAppend(src, start + 16, inverted, bytes);
    PeekOfValue(src, start, n, 16);
    PeekOfValue(src, start + 16, 0xffff - n, 16);
    DataIsRead(src, start + 32, b.data);
  }

  /** One block is decoded to its meaning and its end. */
  lemma BlockDecodes(src: seq<Byte>, pos: nat, b: Block, out: seq<Byte>, cap: nat)
    requires b.Valid(pos, out) && |b.Append(pos, out)| <= cap && Has(src, pos, b.Body(pos, out))
    ensures InflateModel.Block(src, pos, b.Kind(), out, cap) == Done(pos + |b.Body(pos, out)|, b.Append(pos, out))
  {
    hide Has, Stored, Codes, Huffman.Valid, ReadTables, TokenBits, Header.Coded, Header.Bits, Header.Separates,
         FixedLiterals, Expand, Plays;
    match b {
      case StoredBlock(_, _) => StoredDecodes(src, pos, b, out, cap);
      case FixedBlock(tokens) =>
        FixedValid();
        TokensDecode(src, pos, tokens, FixedLiterals(), FixedDistances(), out, cap);
      case DynamicBlock(h, tokens) =>
        HeaderSizes(h);
        HasAppend(src, pos, h.Bits(), TokenBits(tokens, h.Literals(), h.Distances(), out));
        HeaderRead(src, pos, h);
        TokensDecode(src, pos + |h.Bits()|, tokens, h.Literals(), h.Distances(), out, cap);
    }
  }

  lemma HeaderSizes(h: Header)
    requires h.Valid()
    ensures |h.Literals()| == h.nl > END_OF_BLOCK && |h.Distances()| == h.nd
  {
  }

  // ---------------------------------------------------------------------------------------
  // Streams.

  predicate StreamValid(blocks: seq<Block>, pos: nat, out: seq<Byte>)
    decreases |blocks|
  {
    blocks == [] ||
    (blocks[0].Valid(pos + 3, out) &&
     StreamValid(blocks[1..], pos + 3 + |blocks[0].Body(pos + 3, out)|, blocks[0].Append(pos + 3, out)))
  }

  /** The bytes a block list stands for. */
  function StreamOutput(blocks: seq<Block>, pos: nat, out: seq<Byte>): (r: seq<Byte>)
    requires StreamValid(blocks, pos, out)
    ensures out <= r
    decreases |blocks|
  {
    hide Block.Valid, Block.Body, Block.Append;
    if blocks == [] then out
    else StreamOutput(blocks[1..], pos + 3 + |blocks[0].Body(pos + 3, out)|, blocks[0].Append(pos + 3, out))
  }

  /** Its bits: each block after its final flag and its kind; only the last block has the flag set. */
  function StreamBits(blocks: seq<Block>, pos: nat, out: seq<Byte>): seq<Bit>
    requires StreamValid(blocks, pos, out)
    decreases |blocks|
  {
    hide Block.Valid, Block.Body, Block.Append;
    if blocks == [] then []
    else
      var body := blocks[0].Body(pos + 3, out);
      [if |blocks| == 1 then 1 else 0] + (LowBitsFirst(blocks[0].Kind(), 2) +
      (body + StreamBits(blocks[1..], pos + 3 + |body|, blocks[0].Append(pos + 3, out))))
  }

  /** Inflate preserves meaning: wherever the stream spells a well-formed block list, inflate yields
      exactly its output and stops just after its last bit. */
  lemma {:induction false} InflateDecodes(src: seq<Byte>, pos: nat, blocks: seq<Block>, out: seq<Byte>, cap: nat)
    requires blocks != [] && StreamValid(blocks, pos, out) && Has(src, pos, StreamBits(blocks, pos, out))
    requires |StreamOutput(blocks, pos, out)| <= cap
    ensures Inflate(src, pos, out, cap) ==
            Done(pos + |StreamBits(blocks, pos, out)|, StreamOutput(blocks, pos, out))
    decreases |blocks|
  {
    hide Has, Peek, LowBitsFirst, Block.Valid, Block.Body, Block.Append, InflateModel.Block;
    var b, rest := blocks[0], blocks[1..];
    var flag: seq<Bit> := [if |blocks| == 1 then 1 else 0];
    var kind, body := LowBitsFirst(b.Kind(), 2), b.Body(pos + 3, out);
    var next := pos + 3 + |body|;
    var tail := StreamBits(rest, next, b.Append(pos + 3, out));
    HasAppend(src, pos, flag, kind + (body + tail));
    HasAppend(src, pos + 1, kind, body + tail);
    HasAppend(src, pos + 3, body, tail);
    OneBit(src, pos, flag[0]);
    assert Pow2(2) == 4;
    PeekOfValue(src, pos + 1, b.Kind(), 2);
    BlockDecodes(src, pos + 3, b, out, cap);
    if rest != [] {
      InflateDecodes(src, next, rest, b.Append(pos + 3, out), cap);
    }
  }

  lemma OneBit(src: seq<Byte>, pos: nat, bit: Bit)
    requires Has(src, pos, [bit])
    ensures Peek(src, pos, 1) == bit
  {
    PeekOfHas(src, pos, [bit]);
    assert LowFirst([bit]) == bit + 2 * LowFirst([]);
  }

  // ---------------------------------------------------------------------------------------
  // Every bit string is spelled by some bytes.

  function Pack(bits: seq<Bit>): seq<Byte>
    decreases |bits|
  {
    if |bits| == 0 then []
    else
      var head := if |bits| < 8 then bits else bits[..8];
      PackedByte(head);
      [LowFirst(head)] + Pack(if |bits| < 8 then [] else bits[8..])
  }

  lemma {:induction false} LowFirstBound(bits: seq<Bit>)
    ensures LowFirst(bits) < Pow2(|bits|)
    decreases |bits|
  {
    if bits != [] {
      LowFirstBound(bits[1..]);
    }
  }

  lemma PackedByte(bits: seq<Bit>)
    requires |bits| <= 8
    ensures LowFirst(bits) < 256
  {
    LowFirstBound(bits);
    Pow2Monotone(|bits|, 8);
    assert Pow2(8) == 256 by { assert Pow2(4) == 16; }
  }

  lemma {:induction false} HasOfPeek(src: seq<Byte>, pos: nat, bits: seq<Bit>)
    requires Peek(src, pos, |bits|) == LowFirst(bits)
    ensures Has(src, pos, bits)
    decreases |bits|
  {
    if bits != [] {
      hide BitAt;
      HasOfPeek(src, pos + 1, bits[1..]);
    }
  }

  /** A packed byte spells the bits it was packed from. */
  lemma ByteSpells(src: seq<Byte>, i: nat, head: seq<Bit>)
    requires |head| <= 8 && ByteAt(src, i) == LowFirst(head)
    ensures Has(src, 8 * i, head)
  {
    hide Has, Peek, LowFirst, ByteAt, Pow2;
    PeekByte(src, i);
    LowFirstBound(head);
    PeekParts(src, 8 * i, |head|, 8 - |head|);
    SmallMod(LowFirst(head), Pow2(|head|));
    HasOfPeek(src, 8 * i, head);
  }

  lemma {:induction false} PackSpells(front: seq<Byte>, bits: seq<Bit>)
    ensures Has(front + Pack(bits), 8 * |front|, bits)
    decreases |bits|
  {
    hide Has, LowFirst, ByteAt;
    if bits != [] {
      var head := if |bits| < 8 then bits else bits[..8];
      var rest := if |bits| < 8 then [] else bits[8..];
      PackedByte(head);
      var byte: Byte := LowFirst(head);
      assert front + Pack(bits) == (front + [byte]) + Pack(rest);
      PackSpells(front + [byte], rest);
      ByteThere(front, byte, Pack(rest));
      ByteSpells(front + Pack(bits), |front|, head);
      SplitBits(front + Pack(bits), 8 * |front|, bits, head, rest);
      HasNothing(front + Pack(bits), 8 * |front| + |head|);
    } else {
      HasNothing(front + Pack(bits), 8 * |front|);
    }
  }

  lemma ByteThere(front: seq<Byte>, byte: Byte, tail: seq<Byte>)
    ensures ByteAt((front + [byte]) + tail, |front|) == byte
  {
  }

  lemma SplitBits(src: seq<Byte>, pos: nat, bits: seq<Bit>, head: seq<Bit>, rest: seq<Bit>)
    requires bits == head + rest
    ensures Has(src, pos, bits) <==> Has(src, pos, head) && Has(src, pos + |head|, rest)
  {
    HasAppend(src, pos, head, rest);
  }

  lemma HasNothing(src: seq<Byte>, pos: nat)
    ensures Has(src, pos, [])
  {
  }

  /** Round trip: the packed bits of a block list, after any header bytes, inflate to its output. */
  lemma InflateRoundTrip(front: seq<Byte>, blocks: seq<Block>, cap: nat)
    requires blocks != [] && StreamValid(blocks, 8 * |front|, [])
    requires |StreamOutput(blocks, 8 * |front|, [])| <= cap
    ensures var bits := StreamBits(blocks, 8 * |front|, []);
            Inflate(front + Pack(bits), 8 * |front|, [], cap) ==
            Done(8 * |front| + |bits|, StreamOutput(blocks, 8 * |front|, []))
  {
    hide StreamBits, StreamValid, StreamOutput, Pack, Has, Inflate;
    var bits := StreamBits(blocks, 8 * |front|, []);
    PackSpells(front, bits);
    InflateDecodes(front + Pack(bits), 8 * |front|, blocks, [], cap);
  }
}
