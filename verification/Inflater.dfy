/**
 The gzip decoder as the program runs it: bit buffer, tables and output updated in place.  `pos`
 counts the bits consumed; everything else is tied to it.
 */
module Inflater {
  import opened Wrappers
  import opened Bits
  import opened BitStream
  import opened Huffman
  import opened HuffmanTables
  import opened FastTables
  import opened InflateModel
  import opened Lz77

  /** Result of the inflate functions: 0, an error code, or undefined behaviour of the C code. */
  datatype Return = Ok | Error(code: nat) | Trap

  /** The shortest gzip header: inflate starts after it. */
  const HEADER := 10

  class Gunzip {
    const inbuf: seq<Byte>
    const outbuf: array<Byte>

    var inptr: nat
    var outptr: nat
    var bitbuf: nat
    var bufbits: nat
    ghost var pos: nat

    /** The bit buffer holds the bits after pos up to a byte boundary, and inptr stands at that byte,
        unless the input has run out: then zero bytes are read and inptr stays at the end. */
    ghost predicate Synced()
      reads this`inptr, this`bitbuf, this`bufbits, this`pos
    {
      && 8 * HEADER <= pos && HEADER <= |inbuf|
      && bufbits <= 23 && (pos + bufbits) % 8 == 0
      && bitbuf == Peek(inbuf, pos, bufbits)
      && inptr == if (pos + bufbits) / 8 <= |inbuf| then (pos + bufbits) / 8 else |inbuf|
    }

    ghost function Out(): seq<Byte>
      requires outptr <= outbuf.Length
      reads this`outptr, outbuf
    {
      outbuf[..outptr]
    }

    ghost predicate Valid()
      reads this`inptr, this`bitbuf, this`bufbits, this`pos, this`outptr
    {
      Synced() && outptr <= outbuf.Length
    }

    ghost function Result(r: Return): Outcome
      requires outptr <= outbuf.Length
      reads this`pos, this`outptr, outbuf
    {
      match r
      case Ok => Done(pos, Out())
      case Error(code) => Bad(code)
      case Trap => Fault
    }

    /** init_gunzip_struct, with the reader at a byte of the input. */
    constructor (inbuf: seq<Byte>, start: nat, outbuf: array<Byte>)
      requires HEADER <= start <= |inbuf|
      ensures this.inbuf == inbuf && this.outbuf == outbuf
      ensures Valid() && pos == 8 * start && outptr == 0
    {
      this.inbuf := inbuf;
      this.outbuf := outbuf;
      inptr, outptr, bitbuf, bufbits, pos := start, 0, 0, 0, 8 * start;
    }

    // -------------------------------------------------------------------------------------
    // Bit buffer.

    method GetUchar() returns (c: Byte)
      requires inptr <= |inbuf|
      modifies this`inptr
      ensures c == ByteAt(inbuf, old(inptr))
      ensures inptr == if old(inptr) < |inbuf| then old(inptr) + 1 else old(inptr)
    {
      if inptr < |inbuf| {
        c := inbuf[inptr];
        inptr := inptr + 1;
      } else {
        c := 0;
      }
    }

    /** The loop that peek_bits and get_bits share; the buffer stays below 2^24, so it cannot overflow. */
    method Fill(n: nat)
      requires Synced() && n <= 16
      modifies this`inptr, this`bitbuf, this`bufbits
      ensures Synced() && bufbits >= n
    {
      while bufbits < n
        invariant Synced()
        decreases n - bufbits
      {
        AppendUchar();
      }
    }

    method AppendUchar()
      requires Synced() && bufbits < 16
      modifies this`inptr, this`bitbuf, this`bufbits
      ensures Synced() && bufbits == old(bufbits) + 8
    {
      hide Peek, Or, ByteAt, Pow2;
      AppendByte(inbuf, pos, bufbits);
      var c := GetUchar();
      bitbuf := Or(bitbuf, c * Pow2(bufbits));
      bufbits := bufbits + 8;
    }

    static lemma AppendByte(src: seq<Byte>, pos: nat, n: nat)
      requires (pos + n) % 8 == 0
      ensures ByteAt(src, if (pos + n) / 8 <= |src| then (pos + n) / 8 else |src|) == ByteAt(src, (pos + n) / 8)
      ensures Or(Peek(src, pos, n), ByteAt(src, (pos + n) / 8) * Pow2(n)) == Peek(src, pos, n + 8)
    {
      hide Peek, Or, Pow2;
      PeekSplit(src, pos, n, 8);
      PeekByte(src, (pos + n) / 8);
      OrShifted(Peek(src, pos, n), ByteAt(src, (pos + n) / 8), n);
    }

    method PeekBits(n: nat) returns (r: nat)
      requires Synced() && n <= 16
      modifies this`inptr, this`bitbuf, this`bufbits
      ensures Synced() && bufbits >= n
      ensures r == Peek(inbuf, pos, n)
    {
      hide Peek;
      Fill(n);
      r := bitbuf % Pow2(n);
      PeekParts(inbuf, pos, n, bufbits - n);
    }

    method SkipBits(n: nat)
      requires Synced() && n <= bufbits
      modifies this`bitbuf, this`bufbits, this`pos
      ensures Synced() && pos == old(pos) + n
    {
      hide Peek;
      PeekParts(inbuf, pos, n, bufbits - n);
      bitbuf := bitbuf / Pow2(n);
      bufbits := bufbits - n;
      pos := pos + n;
    }

    method GetBits(n: nat) returns (r: nat)
      requires Synced() && n <= 16
      modifies this`inptr, this`bitbuf, this`bufbits, this`pos
      ensures Synced() && pos == old(pos) + n
      ensures r == Peek(inbuf, old(pos), n)
    {
      hide Peek;
      Fill(n);
      r := bitbuf % Pow2(n);
      PeekParts(inbuf, pos, n, bufbits - n);
      bitbuf := bitbuf / Pow2(n);
      bufbits := bufbits - n;
      pos := pos + n;
    }

    /** The end of inflate: whole bytes of look-ahead are given back.  inptr then is the first byte
        not touched by consumed bits exactly when the look-ahead had not passed the end of the input. */
    method Undo()
      requires Synced()
      modifies this`inptr, this`bufbits
      ensures bufbits == old(bufbits) % 8
      ensures inptr == (pos + 7) / 8 <==> (pos + old(bufbits)) / 8 <= |inbuf|
      ensures pos + 23 <= 8 * |inbuf| ==> inptr == (pos + 7) / 8
    {
      hide Peek;
      ghost var undone: nat := 0;
      while bufbits >= 8
        invariant bufbits + 8 * undone == old(bufbits)
        invariant inptr + undone == old(inptr)
      {
        bufbits := bufbits - 8;
        inptr := inptr - 1;
        undone := undone + 1;
      }
      Undone(pos, bufbits, undone);
    }

    static lemma Undone(pos: nat, rest: nat, k: nat)
      requires rest < 8 && (pos + rest + 8 * k) % 8 == 0
      ensures (pos + rest + 8 * k) / 8 == (pos + 7) / 8 + k
    {
      assert (pos + rest) % 8 == 0;
    }

    // -------------------------------------------------------------------------------------
    // Symbols.

    /** The slow path: 16 bits of look-ahead and the linear search. */
    method SlowSymbol(lens: seq<nat>, t: seq<nat>) returns (value: Option<nat>)
      requires Synced() && IsTable(lens, t) && Lengths(lens)
      modifies this`inptr, this`bitbuf, this`bufbits, this`pos
      ensures Synced()
      ensures value == NextSymbol(inbuf, old(pos), lens)
      ensures value.Some? ==> pos == old(pos) + lens[value.value] && lens[value.value] > 0
      ensures value.None? ==> pos == old(pos)
    {
      hide Peek, Symbol, IsTable;
      var code := PeekBits(16);
      var bits;
      value, bits := GetValue(lens, t, code);
      if value.Some? {
        SkipBits(bits);
      }
    }

    /** A literal or length symbol through the fast tables, looking at 8, then 11, then 16 bits. */
    method LiteralSymbol(ll: seq<nat>, tl: seq<nat>, ftl: array<nat>, ftlex: array<nat>, ghost owner: seq<nat>)
      returns (value: Option<nat>)
      requires Synced() && IsTable(ll, tl) && Lengths(ll)
      requires FirstOk(ll, ftl[..], owner) && SecondOk(ll, ftlex[..], owner)
      modifies this`inptr, this`bitbuf, this`bufbits, this`pos
      ensures Synced()
      ensures value.Some? ==> value.value < |ll| && pos == old(pos) + ll[value.value] && ll[value.value] > 0
      ensures pos >= old(pos)
      ensures Huffman.Valid(ll) ==> value == NextSymbol(inbuf, old(pos), ll)
    {
      hide Peek, Symbol, IsTable, EntryOk, ByteAt, Pow2, Or;
      ghost var window := Peek(inbuf, pos, 16);
      if Huffman.Valid(ll) {
        LookupRefinesSearch(ll, ftl[..], ftlex[..], owner, window);
      }
      Window8(inbuf, pos);
      var code := PeekBits(8);
      assert code == window % 256;
      assert FirstEntryOk(ll, ftl[..][code], code, owner);
      if ftl[code] < GROUP {
        EntrySize(ll, ftl[code], code, 1, 8);
        value := Some(ftl[code] % 512);
        SkipBits(ftl[code] / 512);
        return;
      }
      if ftl[code] != EMPTY {
        var n := ftl[code] % GROUP;
        var codex := PeekBits(11);
        codex := codex / 256;
        GroupEntry(ll, ftl[..], ftlex[..], owner, code, codex);
        if ftlex[n + codex] != EMPTY {
          value := Some(ftlex[n + codex] % 512);
          SkipBits(ftlex[n + codex] / 512);
          return;
        }
      }
      value := SlowSymbol(ll, tl);
    }

    static lemma Window8(src: seq<Byte>, pos: nat)
      ensures Peek(src, pos, 8) == Peek(src, pos, 16) % 256
      ensures Peek(src, pos, 11) == Peek(src, pos, 16) % 2048
      ensures Peek(src, pos, 11) % 256 == Peek(src, pos, 8)
      ensures Peek(src, pos, 11) / 256 < 8
    {
      hide Peek;
      Windows();
      PeekParts(src, pos, 8, 8);
      PeekParts(src, pos, 11, 5);
      PeekParts(src, pos, 8, 3);
    }

    static lemma EntrySize(lens: seq<nat>, e: nat, window: nat, minLength: nat, maxLength: nat)
      requires EntryOk(lens, e, window, minLength, maxLength)
      ensures e % 512 < |lens| && e / 512 == lens[e % 512] && minLength <= e / 512 <= maxLength
    {
    }

    static lemma GroupEntry(lens: seq<nat>, ftl: seq<nat>, ftlex: seq<nat>, owner: seq<nat>, code: nat, codex: nat)
      requires FirstOk(lens, ftl, owner) && SecondOk(lens, ftlex, owner)
      requires code < 256 && codex < 8 && GROUP <= ftl[code] != EMPTY
      ensures ftl[code] % GROUP == ftl[code] - GROUP && ftl[code] % GROUP + codex < 512
      ensures var e := ftlex[ftl[code] % GROUP + codex];
              e != EMPTY ==> e % 512 < |lens| && 9 <= e / 512 == lens[e % 512] <= 11
    {
      hide Matches;
      assert FirstEntryOk(lens, ftl[code], code, owner);
      var n := ftl[code] - GROUP + codex;
      assert n / 8 == (ftl[code] - GROUP) / 8 < |owner|;
      assert SecondEntryOk(lens, ftlex[n], n, owner);
    }

    /** A distance symbol: 8 bits of look-ahead through ftd, else 16 and the linear search. */
    method DistanceSymbol(ld: seq<nat>, td: seq<nat>, ftd: array<nat>) returns (value: Option<nat>)
      requires Synced() && IsTable(ld, td) && Lengths(ld) && FirstOk(ld, ftd[..], [])
      modifies this`inptr, this`bitbuf, this`bufbits, this`pos
      ensures Synced()
      ensures value.Some? ==> value.value < |ld| && pos == old(pos) + ld[value.value]
      ensures pos >= old(pos)
      ensures Huffman.Valid(ld) ==> value == NextSymbol(inbuf, old(pos), ld)
    {
      hide Peek, Symbol, IsTable, EntryOk, ByteAt, Pow2, Or;
      ghost var window := Peek(inbuf, pos, 16);
      Window8(inbuf, pos);
      var code := PeekBits(8);
      assert FirstEntryOk(ld, ftd[..][code], code, []);
      if ftd[code] != EMPTY {
        EntrySize(ld, ftd[code], code, 1, 8);
        if Huffman.Valid(ld) {
          Windows();
          EntryDecides(ld, ftd[code], window, code, 8, 1, 8);
        }
        value := Some(ftd[code] % 512);
        SkipBits(ftd[code] / 512);
        return;
      }
      value := SlowSymbol(ld, td);
    }

    /** The extra bits of a length, and the distance. */
    method LengthAndDistance(symbol: nat, ld: seq<nat>, td: seq<nat>, ftd: array<nat>)
      returns (found: bool, len: nat, dist: nat)
      requires Synced() && 256 < symbol < 286 && |ld| <= MAX_DIST_CODES
      requires IsTable(ld, td) && Lengths(ld) && FirstOk(ld, ftd[..], [])
      modifies this`inptr, this`bitbuf, this`bufbits, this`pos
      ensures Synced() && (found ==> len >= 3 && dist >= 1) && pos >= old(pos)
      ensures Huffman.Valid(ld) ==>
                DecodeMatch(inbuf, old(pos), symbol, ld) == if found then Found(pos, len, dist) else NoMatch(Bad(1))
    {
      hide Peek, Symbol, IsTable, EntryOk, FirstOk, Huffman.Valid;
      hide LengthBase, LengthExtra, DistanceBase, DistanceExtra;
      var code := GetBits(LengthExtra(symbol));
      len := LengthBase(symbol) + code;
      var value := DistanceSymbol(ld, td, ftd);
      if value.None? {
        return false, 0, 0;
      }
      code := GetBits(DistanceExtra(value.value));
      dist := DistanceBase(value.value) + code;
      found := true;
    }

    /** The copy loop, each byte read before the output index moves on. */
    method CopyMatch(len: nat, dist: nat)
      requires 1 <= dist <= outptr && outptr + len <= outbuf.Length
      modifies this`outptr, outbuf
      ensures outptr == old(outptr) + len
      ensures Out() == Copy(old(Out()), dist, len, outbuf.Length)
    {
      hide Copy;
      CopyNothing(Out(), dist, 0, outbuf.Length);
      for i := 0 to len
        invariant outptr == old(outptr) + i
        invariant Copy(old(Out()), dist, len, outbuf.Length) == Copy(Out(), dist, len - i, outbuf.Length)
      {
        ghost var was := Out();
        CopyStep(was, dist, len - i, outbuf.Length);
        outbuf[outptr] := outbuf[outptr - dist];
        outptr := outptr + 1;
        assert Out() == was + [was[|was| - dist]];
      }
      CopyNothing(Out(), dist, 0, outbuf.Length);
    }

    /** One turn of the main loop; None to go on. */
    method CodesStep(ll: seq<nat>, tl: seq<nat>, ftl: array<nat>, ftlex: array<nat>, ghost owner: seq<nat>,
                     ld: seq<nat>, td: seq<nat>, ftd: array<nat>) returns (r: Option<Return>)
      requires Valid() && |ll| <= 288 && |ld| <= MAX_DIST_CODES
      requires Lengths(ll) && Lengths(ld) && IsTable(ll, tl) && IsTable(ld, td)
      requires FirstOk(ll, ftl[..], owner) && SecondOk(ll, ftlex[..], owner) && FirstOk(ld, ftd[..], [])
      modifies this, outbuf
      ensures Valid() && (r.None? ==> outptr > old(outptr)) && pos >= old(pos) && (r == Some(Ok) ==> pos > old(pos))
      ensures (Huffman.Valid(ll) && Huffman.Valid(ld)) ==>
                CodesTurn(inbuf, old(pos), ll, ld, old(Out()), outbuf.Length) ==
                if r.Some? then InflateModel.Stop(Result(r.value)) else Go(pos, Out())
    {
      hide Peek, Symbol, IsTable, FirstOk, SecondOk, Huffman.Valid, DecodeMatch, Copy, ByteAt, Pow2, Or;
      var value := LiteralSymbol(ll, tl, ftl, ftlex, owner);
      if value.None? {
        return Some(Error(1));
      }
      if value.value < 256 {
        if outptr == outbuf.Length {
          return Some(Trap);
        }
        outbuf[outptr] := value.value;
        outptr := outptr + 1;
        assert Out() == old(Out()) + [value.value];
      } else if value.value > END_OF_BLOCK {
        if value.value >= 286 {
          return Some(Trap);
        }
        var found, len, dist := LengthAndDistance(value.value, ld, td, ftd);
        if !found {
          return Some(Error(1));
        }
        if dist > outptr || outptr + len > outbuf.Length {
          return Some(Trap);
        }
        CopyMatch(len, dist);
      } else {
        return Some(Ok);
      }
      return None;
    }

    method InflateCodes(ll: seq<nat>, tl: seq<nat>, ld: seq<nat>, td: seq<nat>) returns (r: Return)
      requires Valid() && |ll| <= 288 && |ld| <= MAX_DIST_CODES
      requires Lengths(ll) && Lengths(ld) && IsTable(ll, tl) && IsTable(ld, td)
      modifies this, outbuf
      ensures Valid() && (r.Ok? ==> pos > old(pos))
      ensures (Huffman.Valid(ll) && Huffman.Valid(ld)) ==>
                Result(r) == Codes(inbuf, old(pos), ll, ld, old(Out()), outbuf.Length)
    {
      hide Peek, Symbol, IsTable, FirstOk, SecondOk, Huffman.Valid, CodesTurn, ShortComplete;
      var ok, ftl, ftlex;
      ghost var owner;
      ok, ftl, ftlex, owner := BuildFast(ll, tl);
      if !ok {
        return Trap;
      }
      var ftd := BuildShort(ld, td);
      while true
        invariant Valid() && pos >= old(pos)
        invariant FirstOk(ll, ftl[..], owner) && SecondOk(ll, ftlex[..], owner) && FirstOk(ld, ftd[..], [])
        invariant (Huffman.Valid(ll) && Huffman.Valid(ld)) ==>
          Codes(inbuf, old(pos), ll, ld, old(Out()), outbuf.Length) == Codes(inbuf, pos, ll, ld, Out(), outbuf.Length)
        decreases outbuf.Length - outptr
      {
        var end := CodesStep(ll, tl, ftl, ftlex, owner, ld, td, ftd);
        if end.Some? {
          return end.value;
        }
      }
    }

    method InflateStored() returns (r: Return)
      requires Valid()
      modifies this, outbuf
      ensures Valid() && (r.Ok? ==> pos > old(pos))
      ensures Result(r) == Stored(inbuf, old(pos), old(Out()), outbuf.Length)
    {
      hide Peek, AlignUp, StoredBytes;
      var n := bufbits % 8;
      AlignStep(pos, bufbits);
      var dropped := GetBits(n);
      ghost var start := pos;
      n := GetBits(16);
      var complement := GetBits(16);
      PeekFits(inbuf, start + 16);
      if n != 0xffff - complement {
        return Error(1);
      }
      if outptr + n > outbuf.Length {
        return Trap;
      }
      CopyStored(n);
      return Ok;
    }

    /** The copy loop of inflate_stored. */
    method CopyStored(n: nat)
      requires Valid() && outptr + n <= outbuf.Length
      modifies this, outbuf
      ensures Valid() && pos == old(pos) + 8 * n
      ensures Out() == old(Out()) + StoredBytes(inbuf, old(pos), n)
    {
      hide Peek, StoredBytes;
      for i := 0 to n
        invariant Valid() && outptr == old(outptr) + i && pos == old(pos) + 8 * i
        invariant old(Out()) + StoredBytes(inbuf, old(pos), n) == Out() + StoredBytes(inbuf, pos, n - i)
      {
        ghost var was := Out();
        StoredStep(inbuf, pos, n - i);
        var c := GetBits(8);
        outbuf[outptr] := c;
        outptr := outptr + 1;
        assert Out() == was + [c];
      }
      StoredEnd(inbuf, pos);
    }

    method InflateFixed() returns (r: Return)
      requires Valid()
      modifies this, outbuf
      ensures Valid() && (r.Ok? ==> pos > old(pos))
      ensures Result(r) == Codes(inbuf, old(pos), FixedLiterals(), FixedDistances(), old(Out()), outbuf.Length)
    {
      hide Codes, IsTable, Huffman.Valid, Peek, FixedLiterals;
      var ll, ld := FixedLengths();
      var tl, td := new nat[288], new nat[32];
      FixedValid();
      BuildTable(ll[..], tl);
      BuildTable(ld[..30], td);
      r := InflateCodes(ll[..], tl[..288], ld[..30], td[..30]);
    }

    /** The code lengths of a fixed block, filled in range by range. */
    static method FixedLengths() returns (ll: array<nat>, ld: array<nat>)
      ensures fresh(ll) && fresh(ld) && ll.Length == 288 && ld.Length == 32
      ensures ll[..] == FixedLiterals() && ld[..30] == FixedDistances()
    {
      ll := new nat[288];
      for i := 0 to 144
        modifies ll
        invariant forall k :: 0 <= k < i ==> ll[k] == FixedLength(k)
      {
        ll[i] := 8;
      }
      for i := 144 to 256
        modifies ll
        invariant forall k :: 0 <= k < i ==> ll[k] == FixedLength(k)
      {
        ll[i] := 9;
      }
      for i := 256 to 280
        modifies ll
        invariant forall k :: 0 <= k < i ==> ll[k] == FixedLength(k)
      {
        ll[i] := 7;
      }
      for i := 280 to 288
        modifies ll
        invariant forall k :: 0 <= k < i ==> ll[k] == FixedLength(k)
      {
        ll[i] := 8;
      }
      ld := new nat[32];
      for i := 0 to 30
        modifies ld
        invariant forall k :: 0 <= k < i ==> ld[k] == 5
      {
        ld[i] := 5;
      }
    }

    // -------------------------------------------------------------------------------------
    // Dynamic headers.

    /** What build_bits_table did, against the lengths it should have read. */
    ghost predicate ReadAs(r: Return, lens: seq<nat>, a: LensAnswer)
      reads this`pos
    {
      match a
      case Lens(next, read) => r == Ok && pos == next && read <= lens
      case BadLens => r == Error(1)
      case FaultLens => r == Trap
    }

    /** One symbol of a code-length table; None to go on. */
    method BitsStep(lb: seq<nat>, tb: seq<nat>, ll: array<nat>, i: nat, ghost nl: nat) returns (r: Option<Return>, next: nat)
      requires Synced() && IsTable(lb, tb) && Lengths(lb) && |lb| == 19 && i < nl <= ll.Length
      modifies this`inptr, this`bitbuf, this`bufbits, this`pos, ll
      ensures Synced() && pos >= old(pos) && i <= next <= ll.Length
      ensures r.None? ==> i < next
      ensures ReadLens(inbuf, old(pos), lb, old(ll[..i]), nl, ll.Length) ==
              if r.None? then ReadLens(inbuf, pos, lb, ll[..next], nl, ll.Length)
              else if r.value == Trap then FaultLens else BadLens
      ensures r.Some? ==> r.value == Trap || r.value == Error(1)
    {
      hide Peek, Symbol, IsTable, ReadLens, Pow2, Or, ByteAt, RunBits, RunLeast, RunValue;
      next := i;
      ReadLensStep(inbuf, pos, lb, ll[..i], nl, ll.Length);
      var value := SlowSymbol(lb, tb);
      if value.None? {
        return Some(Error(1)), i;
      }
      var symbol := value.value;
      if symbol < 16 {
        StoreLength(ll, i, symbol);
        return None, i + 1;
      }
      RunBitsSmall(symbol);
      var count := GetBits(RunBits(symbol));
      count := count + RunLeast(symbol);
      if (symbol == 16 && i == 0) || i + count > ll.Length {
        return Some(Trap), i;
      }
      FillRun(ll, i, symbol, count);
      return None, i + count;
    }

    static method StoreLength(ll: array<nat>, i: nat, length: nat)
      requires i < ll.Length
      modifies ll
      ensures ll[..i + 1] == old(ll[..i]) + [length]
    {
      ll[i] := length;
    }

    static method FillRun(ll: array<nat>, start: nat, symbol: nat, count: nat)
      requires start + count <= ll.Length && symbol >= 16 && (symbol == 16 ==> start > 0)
      modifies ll
      ensures ll[..start + count] == old(ll[..start]) + Repeated(RunValue(symbol, old(ll[..start])), count)
    {
      if symbol == 16 {
        RepeatLast(ll, start, count);
      } else {
        Zeros(ll, start, count);
      }
    }

    method BuildBitsTable(lb: seq<nat>, tb: seq<nat>, ll: array<nat>, nl: nat) returns (r: Return)
      requires Synced() && IsTable(lb, tb) && Lengths(lb) && |lb| == 19 && nl <= ll.Length
      modifies this`inptr, this`bitbuf, this`bufbits, this`pos, ll
      ensures Synced() && pos >= old(pos)
      ensures ReadAs(r, ll[..], ReadLens(inbuf, old(pos), lb, [], nl, ll.Length))
    {
      hide Peek, Symbol, IsTable, ReadLens;
      var i: nat := 0;
      while i < nl
        invariant Synced() && i <= ll.Length && pos >= old(pos)
        invariant ReadLens(inbuf, old(pos), lb, [], nl, ll.Length)
               == ReadLens(inbuf, pos, lb, ll[..i], nl, ll.Length)
        decreases nl - i
      {
        var end;
        end, i := BitsStep(lb, tb, ll, i, nl);
        if end.Some? {
          return end.value;
        }
      }
      ReadLensEnd(inbuf, pos, lb, ll[..i], nl, ll.Length);
      r := Ok;
    }

    static method RepeatLast(ll: array<nat>, start: nat, count: nat)
      requires 0 < start && start + count <= ll.Length
      modifies ll
      ensures ll[..start + count] == old(ll[..start]) + Repeated(old(ll[start - 1]), count)
    {
      for i := start to start + count
        invariant forall k :: 0 <= k < i ==> ll[k] == if k < start then old(ll[k]) else old(ll[start - 1])
      {
        ll[i] := ll[i - 1];
      }
    }

    static method Zeros(ll: array<nat>, start: nat, count: nat)
      requires start + count <= ll.Length
      modifies ll
      ensures ll[..start + count] == old(ll[..start]) + Repeated(0, count)
    {
      for i := start to start + count
        invariant forall k :: 0 <= k < i ==> ll[k] == if k < start then old(ll[k]) else 0
      {
        ll[i] := 0;
      }
    }

    /** The code-length code: nb lengths of 3 bits, stored in the order of BORDER. */
    method ReadCodeLengths(nb: nat) returns (lb: array<nat>)
      requires Synced() && nb <= 19
      modifies this`inptr, this`bitbuf, this`bufbits, this`pos
      ensures Synced() && pos == old(pos) + 3 * nb
      ensures fresh(lb) && lb[..] == ReadBorder(inbuf, old(pos), nb)
    {
      hide Peek;
      RankOfBorder();
      lb := ReadInOrder(BORDER, RANK, nb);
    }

    method ReadInOrder(border: seq<nat>, ghost rank: seq<nat>, nb: nat) returns (lb: array<nat>)
      requires Synced() && nb <= 19 && |border| == |rank| == 19
      requires forall i :: 0 <= i < 19 ==> border[i] < 19 && rank[border[i]] == i
      requires forall k :: 0 <= k < 19 ==> rank[k] < 19 && border[rank[k]] == k
      modifies this`inptr, this`bitbuf, this`bufbits, this`pos
      ensures Synced() && pos == old(pos) + 3 * nb && fresh(lb) && lb.Length == 19
      ensures forall k :: 0 <= k < 19 ==> lb[k] == if rank[k] < nb then Peek(inbuf, old(pos) + 3 * rank[k], 3) else 0
    {
      hide Peek, Synced;
      lb := new nat[19];
      for i := 0 to nb
        invariant Synced() && pos == old(pos) + 3 * i && fresh(lb)
        invariant forall k :: 0 <= k < 19 && rank[k] < i ==> lb[k] == Peek(inbuf, old(pos) + 3 * rank[k], 3)
      {
        var length := GetBits(3);
        lb[border[i]] := length;
      }
      for i := nb to 19
        modifies lb
        invariant forall k :: 0 <= k < 19 && rank[k] < nb ==> lb[k] == Peek(inbuf, old(pos) + 3 * rank[k], 3)
        invariant forall k :: 0 <= k < 19 && nb <= rank[k] < i ==> lb[k] == 0
      {
        lb[border[i]] := 0;
      }
    }

    /** The header of a dynamic block.  The program does not look at the results of build_bits_table:
        after an error it would go on with undefined tables. */
    method DynamicTables() returns (r: Return, ll: seq<nat>, tl: seq<nat>, ld: seq<nat>, td: seq<nat>)
      requires Synced()
      modifies this`inptr, this`bitbuf, this`bufbits, this`pos
      ensures Synced()
      ensures ReadTables(inbuf, old(pos)) ==
              if r == Ok then Tables(pos, ll, ld) else if r == Trap then Unreadable else BadCounts
      ensures r == Ok || r == Trap || r == Error(1)
      ensures r == Ok ==> IsTable(ll, tl) && IsTable(ld, td)
    {
      hide Peek, IsTable, ReadLens, ReadBorder, ByteAt, Pow2, Or;
      ll, tl, ld, td := [], [], [], [];
      DynamicCounts(inbuf, pos);
      var nl := GetBits(5);
      nl := 257 + nl;
      var nd := GetBits(5);
      nd := 1 + nd;
      var nb := GetBits(4);
      nb := 4 + nb;
      if nl > 286 || nd > MAX_DIST_CODES {
        r := Error(1);
        return;
      }
      var lb := ReadCodeLengths(nb);
      var tb := new nat[19];
      BuildTable(lb[..], tb);
      var table := new nat[288];
      r, ll, tl := OneTable(lb[..], tb[..19], table, nl);
      if r != Ok {
        r := Trap;
        return;
      }
      table := new nat[32];
      r, ld, td := OneTable(lb[..], tb[..19], table, nd);
      if r != Ok {
        r := Trap;
      }
    }

    /** build_bits_table followed by huft_build_table. */
    method OneTable(lb: seq<nat>, tb: seq<nat>, bits: array<nat>, n: nat) returns (r: Return, lens: seq<nat>, t: seq<nat>)
      requires Synced() && IsTable(lb, tb) && Lengths(lb) && |lb| == 19 && n <= bits.Length
      modifies this`inptr, this`bitbuf, this`bufbits, this`pos, bits
      ensures Synced()
      ensures var a := ReadLens(inbuf, old(pos), lb, [], n, bits.Length);
              if a.Lens? then r == Ok && pos == a.pos && lens == a.lens[..n] && IsTable(lens, t) else r != Ok
    {
      hide Peek, IsTable, ReadLens;
      ghost var a := ReadLens(inbuf, pos, lb, [], n, bits.Length);
      r := BuildBitsTable(lb, tb, bits, n);
      lens, t := [], [];
      if r == Ok {
        lens := bits[..n];
        assert lens == a.lens[..n];
        var table := new nat[n];
        BuildTable(lens, table);
        t := table[..n];
      }
    }

    method InflateDynamic() returns (r: Return)
      requires Valid()
      modifies this, outbuf
      ensures Valid() && (r.Ok? ==> pos > old(pos))
      ensures var spec := Dynamic(inbuf, old(pos), old(Out()), outbuf.Length);
              !spec.Fault? ==> Result(r) == spec
    {
      hide Peek, Codes, IsTable, Huffman.Valid, ReadTables;
      var ll, tl, ld, td;
      ghost var before := Out();
      r, ll, tl, ld, td := DynamicTables();
      assert Out() == before;
      if r == Ok {
        ghost var start := pos;
        r := InflateCodes(ll, tl, ld, td);
        assert (Huffman.Valid(ll) && Huffman.Valid(ld)) ==>
            Result(r) == Codes(inbuf, start, ll, ld, before, outbuf.Length);
      }
    }

    // -------------------------------------------------------------------------------------
    // Blocks.

    method InflateBlock() returns (r: Return, last: nat)
      requires Valid()
      modifies this, outbuf
      ensures Valid() && (r.Ok? ==> pos > old(pos))
      ensures last == Peek(inbuf, old(pos), 1)
      ensures var spec := Block(inbuf, old(pos) + 3, Peek(inbuf, old(pos) + 1, 2), old(Out()), outbuf.Length);
              !spec.Fault? ==> Result(r) == spec
    {
      hide Peek, Codes, Stored, Dynamic;
      last := GetBits(1);
      var kind := GetBits(2);
      if kind == 0 {
        r := InflateStored();
      } else if kind == 1 {
        r := InflateFixed();
      } else if kind == 2 {
        r := InflateDynamic();
      } else {
        r := Error(2);
      }
    }

    /** inflate: blocks up to the last one, then the look-ahead is undone. */
    method InflateAll() returns (r: Return)
      requires Valid()
      modifies this, outbuf
      ensures outptr <= outbuf.Length
      ensures var spec := Inflate(inbuf, old(pos), old(Out()), outbuf.Length);
              !spec.Fault? ==> Result(r) == spec
      ensures r.Ok? && pos + 23 <= 8 * |inbuf| ==> inptr == (pos + 7) / 8
    {
      hide Peek, Block;
      var last := 0;
      while last == 0
        invariant Valid()
        invariant var spec := Inflate(inbuf, old(pos), old(Out()), outbuf.Length);
          !spec.Fault? ==>
            spec == if last == 0 then Inflate(inbuf, pos, Out(), outbuf.Length) else Done(pos, Out())
        decreases last == 0, 8 * |inbuf| - pos
      {
        if pos >= 8 * |inbuf| {
          PastEnd(inbuf, pos, Out(), outbuf.Length);
        }
        r, last := InflateBlock();
        if r != Ok {
          return;
        }
      }
      Undo();
      r := Ok;
    }
  }

  lemma RunBitsSmall(symbol: nat)
    ensures RunBits(symbol) <= 16 && RunLeast(symbol) > 0
  {
  }

  lemma ReadLensStep(src: seq<Byte>, pos: nat, lb: seq<nat>, lens: seq<nat>, n: nat, size: nat)
    requires |lb| == 19 && |lens| < n <= size
    ensures ReadLens(src, pos, lb, lens, n, size) ==
            match NextSymbol(src, pos, lb)
            case None => BadLens
            case Some(symbol) =>
              if symbol < 16 then ReadLens(src, pos + lb[symbol], lb, lens + [symbol], n, size)
              else
                var count := Peek(src, pos + lb[symbol], RunBits(symbol)) + RunLeast(symbol);
                if (symbol == 16 && lens == []) || |lens| + count > size then FaultLens
                else
                  ReadLens(src, pos + lb[symbol] + RunBits(symbol), lb,
                           lens + Repeated(RunValue(symbol, lens), count), n, size)
  {
    hide Peek, NextSymbol, RunBits, RunLeast, RunValue;
  }

  lemma ReadLensEnd(src: seq<Byte>, pos: nat, lb: seq<nat>, lens: seq<nat>, n: nat, size: nat)
    requires |lb| == 19 && n <= |lens| <= size
    ensures ReadLens(src, pos, lb, lens, n, size) == Lens(pos, lens)
  {
  }

  lemma DynamicCounts(src: seq<Byte>, pos: nat)
    ensures Peek(src, pos + 10, 4) < 16
  {
    assert Pow2(4) == 16;
  }

  lemma AlignStep(pos: nat, bufbits: nat)
    requires (pos + bufbits) % 8 == 0
    ensures pos + bufbits % 8 == AlignUp(pos)
  {
  }

  lemma StoredStep(src: seq<Byte>, pos: nat, n: nat)
    requires n > 0
    ensures Peek(src, pos, 8) < 256
    ensures StoredBytes(src, pos, n) == [Peek(src, pos, 8)] + StoredBytes(src, pos + 8, n - 1)
  {
    PeekFits(src, pos);
  }

  lemma StoredEnd(src: seq<Byte>, pos: nat)
    ensures StoredBytes(src, pos, 0) == []
  {
  }
}
