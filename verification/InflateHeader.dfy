/**
 The header of a dynamic block (RFC 1951, section 3.2.7).  RFC 1951 lets a run of equal code lengths
 cross from the literal/length lengths into the distance lengths; the program reads the two tables
 separately.  RFC 1951 counts 1 to 32 distance lengths; the program takes at most 30.  It reads a header
 correctly exactly when neither happens.
 */
module InflateHeader {
  import opened Bits
  import opened BitStream
  import opened Huffman
  import opened InflateModel
  import opened InflateFormat

  // ---------------------------------------------------------------------------------------
  // Code lengths.

  /** One symbol of the code-length alphabet with its extra bits. */
  datatype Op = Op(symbol: nat, extra: nat) {
    predicate Valid(lb: seq<nat>)
      requires |lb| == 19
    {
      symbol < 19 && lb[symbol] > 0 && (symbol >= 16 ==> extra < Pow2(RunBits(symbol)))
    }

    function Bits(lb: seq<nat>): seq<Bit>
      requires |lb| == 19 && symbol < 19
    {
      CodeBits(lb, symbol) + if symbol < 16 then [] else LowBitsFirst(extra, RunBits(symbol))
    }

    function Count(): (n: nat)
      ensures n > 0
    {
      if symbol < 16 then 1 else extra + RunLeast(symbol)
    }

    /** Repeating the previous length needs one. */
    predicate Follows(lens: seq<nat>) { symbol == 16 ==> lens != [] }

    function Append(lens: seq<nat>): (r: seq<nat>)
      ensures |r| == |lens| + Count() && lens <= r
    {
      lens + if symbol < 16 then [symbol] else Repeated(RunValue(symbol, lens), Count())
    }
  }

  predicate OpsValid(ops: seq<Op>, lb: seq<nat>)
    requires |lb| == 19
    decreases |ops|
  {
    ops == [] || (ops[0].Valid(lb) && OpsValid(ops[1..], lb))
  }

  function OpsBits(ops: seq<Op>, lb: seq<nat>): seq<Bit>
    requires |lb| == 19 && OpsValid(ops, lb)
    decreases |ops|
  {
    if ops == [] then [] else ops[0].Bits(lb) + OpsBits(ops[1..], lb)
  }

  /** All the lengths the symbols stand for, after `lens`. */
  function ExpandOps(ops: seq<Op>, lens: seq<nat>): (r: seq<nat>)
    ensures lens <= r && |r| >= |lens| + |ops|
    decreases |ops|
  {
    if ops == [] then lens else ExpandOps(ops[1..], ops[0].Append(lens))
  }

  /** No run is read before there is a length to repeat. */
  predicate Chained(ops: seq<Op>, lens: seq<nat>) {
    ops == [] || ops[0].Follows(lens)
  }

  lemma {:induction false} OpsSplit(ops: seq<Op>, k: nat, lb: seq<nat>, lens: seq<nat>)
    requires |lb| == 19 && OpsValid(ops, lb) && k <= |ops|
    ensures OpsValid(ops[..k], lb) && OpsValid(ops[k..], lb)
    ensures OpsBits(ops, lb) == OpsBits(ops[..k], lb) + OpsBits(ops[k..], lb)
    ensures ExpandOps(ops, lens) == ExpandOps(ops[k..], ExpandOps(ops[..k], lens))
    decreases k
  {
    if k == 0 {
      assert ops[..0] == [] && ops[0..] == ops;
    } else {
      hide Op.Bits, Op.Append, CodeBits;
      var rest := ops[1..];
      OpsSplit(rest, k - 1, lb, ops[0].Append(lens));
      assert ops[..k][1..] == rest[..k - 1] && rest[k - 1..] == ops[k..];
      assert ops[0].Bits(lb) + (OpsBits(rest[..k - 1], lb) + OpsBits(ops[k..], lb))
          == (ops[0].Bits(lb) + OpsBits(rest[..k - 1], lb)) + OpsBits(ops[k..], lb);
    }
  }

  /** Lengths already there do not matter, except to a leading repeat. */
  lemma {:induction false} ExpandAfter(ops: seq<Op>, a: seq<nat>, b: seq<nat>)
    requires Chained(ops, b)
    ensures ExpandOps(ops, a + b) == a + ExpandOps(ops, b)
    decreases |ops|
  {
    if ops != [] {
      assert ops[0].Append(a + b) == a + ops[0].Append(b);
      ExpandAfter(ops[1..], a, ops[0].Append(b));
    }
  }

  /** An operation in the stream is one step of build_bits_table. */
  lemma OpIsStep(src: seq<Byte>, pos: nat, op: Op, lb: seq<nat>, lens: seq<nat>, n: nat, size: nat)
    requires |lb| == 19 && Huffman.Valid(lb) && op.Valid(lb) && Has(src, pos, op.Bits(lb))
    requires |lens| < n <= size
    ensures ReadLens(src, pos, lb, lens, n, size) ==
            if op.Follows(lens) && |op.Append(lens)| <= size
            then ReadLens(src, pos + |op.Bits(lb)|, lb, op.Append(lens), n, size) else FaultLens
  {
    hide Has, NextSymbol, CodeBits, Huffman.Valid, Peek, RunBits, RunLeast, RunValue, LowBitsFirst;
    CodeLength(lb, op.symbol);
    if op.symbol < 16 {
      assert op.Bits(lb) == CodeBits(lb, op.symbol);
      CodeIsNext(src, pos, lb, op.symbol);
    } else {
      HasAppend(src, pos, CodeBits(lb, op.symbol), LowBitsFirst(op.extra, RunBits(op.symbol)));
      CodeIsNext(src, pos, lb, op.symbol);
      PeekOfValue(src, pos + lb[op.symbol], op.extra, RunBits(op.symbol));
    }
  }

  /** How many operations are read until at least n lengths are there. */
  function CutOff(ops: seq<Op>, lens: seq<nat>, n: nat): (k: nat)
    ensures k <= |ops|
    decreases |ops|
  {
    if |lens| >= n || ops == [] then 0 else 1 + CutOff(ops[1..], ops[0].Append(lens), n)
  }

  lemma {:induction false} CutOffReaches(ops: seq<Op>, lens: seq<nat>, n: nat)
    ensures var k := CutOff(ops, lens, n);
            (|ExpandOps(ops, lens)| >= n ==> |ExpandOps(ops[..k], lens)| >= n)
            && (|ExpandOps(ops, lens)| <= n ==> k == |ops|)
    decreases |ops|
  {
    if |lens| < n && ops != [] {
      var k := CutOff(ops[1..], ops[0].Append(lens), n);
      CutOffReaches(ops[1..], ops[0].Append(lens), n);
      assert ops[..k + 1][1..] == ops[1..][..k];
    }
  }

  /** build_bits_table follows the operations up to the cut-off. */
  lemma {:induction false} ReadsOps(src: seq<Byte>, pos: nat, ops: seq<Op>, lb: seq<nat>, lens: seq<nat>, n: nat, size: nat)
    requires |lb| == 19 && Huffman.Valid(lb) && OpsValid(ops, lb) && Has(src, pos, OpsBits(ops, lb))
    requires |lens| <= size && n <= size
    ensures var k := CutOff(ops, lens, n);
            OpsValid(ops[..k], lb) &&
            var all := ExpandOps(ops[..k], lens);
            ReadLens(src, pos, lb, lens, n, size) ==
            if (k > 0 && !Chained(ops, lens)) || |all| > size then FaultLens
            else ReadLens(src, pos + |OpsBits(ops[..k], lb)|, lb, all, n, size)
    decreases |ops|
  {
    hide Has, NextSymbol, CodeBits, Huffman.Valid, Peek, ReadLens, Op.Bits, Op.Append;
    if |lens| < n && ops != [] {
      var rest := ops[1..];
      var next := ops[0].Append(lens);
      var k := CutOff(rest, next, n);
      assert ops[..k + 1][0] == ops[0] && ops[..k + 1][1..] == rest[..k];
      HasAppend(src, pos, ops[0].Bits(lb), OpsBits(rest, lb));
      OpIsStep(src, pos, ops[0], lb, lens, n, size);
      if ops[0].Follows(lens) && |next| <= size {
        ReadsOps(src, pos + |ops[0].Bits(lb)|, rest, lb, next, n, size);
      } else {
        OpsSplit(rest, k, lb, next);
      }
    } else {
      assert ops[..0] == [];
    }
  }

  // ---------------------------------------------------------------------------------------
  // Headers.

  /** The symbols that come after the first nb of BORDER have no code. */
  predicate RestUnused(lb: seq<nat>, nb: nat)
    requires |lb| == 19
  {
    forall k :: 0 <= k < 19 && RANK[k] >= nb ==> lb[k] == 0
  }

  /** nl literal/length lengths and nd distance lengths, spelled by ops in the code given by lb. */
  datatype Header = Header(lb: seq<nat>, nb: nat, ops: seq<Op>, nl: nat, nd: nat) {
    /** It can be written down. */
    predicate Coded() {
      && |lb| == 19 && (forall k :: 0 <= k < 19 ==> lb[k] < 8) && Huffman.Valid(lb)
      && 4 <= nb <= 19 && RestUnused(lb, nb)
      && 257 <= nl <= 286 && 1 <= nd <= 32 && OpsValid(ops, lb)
    }

    /** Well-formed by RFC 1951: the operations give exactly nl + nd lengths. */
    predicate Valid() {
      Coded() && Chained(ops, []) && |ExpandOps(ops, [])| == nl + nd
    }

    function Literals(): seq<nat>
      requires Valid()
    {
      ExpandOps(ops, [])[..nl]
    }

    function Distances(): seq<nat>
      requires Valid()
    {
      ExpandOps(ops, [])[nl..]
    }

    /** No run crosses from the literal/length lengths into the distance lengths. */
    predicate Separates()
      requires Valid()
    {
      var k := CutOff(ops, [], nl);
      |ExpandOps(ops[..k], [])| == nl && Chained(ops[k..], [])
    }

    function Bits(): seq<Bit>
      requires Coded()
    {
      LowBitsFirst(nl - 257, 5) + (LowBitsFirst(nd - 1, 5) + (LowBitsFirst(nb - 4, 4) +
      (BorderBits(lb, nb, 0) + OpsBits(ops, lb))))
    }
  }

  /** The symbol whose length comes at place i. */
  function BorderAt(i: nat): (k: nat)
    requires i < 19
    ensures k < 19
  {
    BORDER[i]
  }

  /** Lengths of the code-length code, in the order of BORDER from i on. */
  function BorderBits(lb: seq<nat>, nb: nat, i: nat): (bits: seq<Bit>)
    requires |lb| == 19 && i <= nb <= 19
    ensures |bits| == 3 * (nb - i)
    decreases nb - i
  {
    if i == nb then [] else LowBitsFirst(lb[BorderAt(i)], 3) + BorderBits(lb, nb, i + 1)
  }

  lemma {:induction false} BorderRead(src: seq<Byte>, pos: nat, lb: seq<nat>, nb: nat, i: nat, j: nat)
    requires |lb| == 19 && i <= j < nb <= 19 && (forall k :: 0 <= k < 19 ==> lb[k] < 8)
    requires Has(src, pos + 3 * i, BorderBits(lb, nb, i))
    ensures Peek(src, pos + 3 * j, 3) == lb[BorderAt(j)]
    decreases j - i
  {
    hide Has, Peek, LowBitsFirst, BorderAt;
    assert Pow2(3) == 8;
    HasAppend(src, pos + 3 * i, LowBitsFirst(lb[BorderAt(i)], 3), BorderBits(lb, nb, i + 1));
    if i == j {
      PeekOfValue(src, pos + 3 * i, lb[BorderAt(i)], 3);
    } else {
      BorderRead(src, pos, lb, nb, i + 1, j);
    }
  }

  /** The code lengths of the code-length code are read back. */
  lemma BorderIsRead(src: seq<Byte>, pos: nat, h: Header)
    requires h.Coded() && Has(src, pos, BorderBits(h.lb, h.nb, 0))
    ensures ReadBorder(src, pos, h.nb) == h.lb
  {
    hide Has, Peek, BorderBits, OpsValid, ExpandOps, Huffman.Valid;
    RankOfBorder();
    forall k | 0 <= k < 19
      ensures ReadBorder(src, pos, h.nb)[k] == h.lb[k]
    {
      if RANK[k] < h.nb {
        BorderRead(src, pos, h.lb, h.nb, 0, RANK[k]);
      }
    }
  }

  /** Everything before the code-length symbols. */
  lemma CountsAreRead(src: seq<Byte>, pos: nat, h: Header)
    requires h.Coded() && Has(src, pos, h.Bits())
    ensures Peek(src, pos, 5) == h.nl - 257 && Peek(src, pos + 5, 5) == h.nd - 1 && Peek(src, pos + 10, 4) == h.nb - 4
    ensures ReadBorder(src, pos + 14, h.nb) == h.lb
    ensures Has(src, pos + 14 + 3 * h.nb, OpsBits(h.ops, h.lb))
    ensures |h.Bits()| == 14 + 3 * h.nb + |OpsBits(h.ops, h.lb)|
  {
    hide Has, Peek, BorderBits, OpsBits, OpsValid, ExpandOps, LowBitsFirst, ReadBorder;
    assert Pow2(5) == 32 && Pow2(4) == 16;
    var a, b, c := LowBitsFirst(h.nl - 257, 5), LowBitsFirst(h.nd - 1, 5), LowBitsFirst(h.nb - 4, 4);
    var border, tail := BorderBits(h.lb, h.nb, 0), OpsBits(h.ops, h.lb);
    HasAppend(src, pos, a, b + (c + (border + tail)));
    HasAppend(src, pos + 5, b, c + (border + tail));
    HasAppend(src, pos + 10, c, border + tail);
    HasAppend(src, pos + 14, border, tail);
    PeekOfValue(src, pos, h.nl - 257, 5);
    PeekOfValue(src, pos + 5, h.nd - 1, 5);
    PeekOfValue(src, pos + 10, h.nb - 4, 4);
    BorderIsRead(src, pos + 14, h);
  }

  /** Reading on with too few lengths consumes at least one more bit. */
  lemma ReadsOn(src: seq<Byte>, pos: nat, lb: seq<nat>, lens: seq<nat>, n: nat, size: nat)
    requires |lb| == 19 && |lens| < n <= size
    ensures ReadLens(src, pos, lb, lens, n, size).Lens? ==> ReadLens(src, pos, lb, lens, n, size).pos > pos
  {
    hide Peek, RunBits, RunLeast, RunValue, Symbol;
  }

  /** The distance lengths, once the literal/length lengths have been read. */
  lemma DistancesRead(src: seq<Byte>, pos: nat, h: Header, k: nat)
    requires h.Valid() && k == CutOff(h.ops, [], h.nl)
    requires OpsValid(h.ops[k..], h.lb) && Has(src, pos, OpsBits(h.ops[k..], h.lb))
    ensures ExpandOps(h.ops, []) == ExpandOps(h.ops[k..], ExpandOps(h.ops[..k], []))
    ensures |ExpandOps(h.ops[..k], [])| >= h.nl
    ensures var r := ReadLens(src, pos, h.lb, [], h.nd, 32);
            var end := pos + |OpsBits(h.ops[k..], h.lb)|;
            if h.Separates() then r == Lens(end, h.Distances()) else r.Lens? ==> r.pos > end
  {
    hide Has, Peek, OpsBits, ReadLens, Op.Bits, Op.Append, ExpandOps, OpsValid, Huffman.Valid;
    var rest, front := h.ops[k..], ExpandOps(h.ops[..k], []);
    OpsSplit(h.ops, k, h.lb, []);
    CutOffReaches(h.ops, [], h.nl);
    ReadsOps(src, pos, rest, h.lb, [], h.nd, 32);
    if Chained(rest, []) {
      ExpandAfter(rest, front, []);
      assert front + [] == front;
      CutOffReaches(rest, [], h.nd);
      assert rest[..|rest|] == rest;
      var end := pos + |OpsBits(rest, h.lb)|;
      var all := ExpandOps(rest, []);
      assert |all| == h.nl + h.nd - |front|;
      if |front| == h.nl {
        FullTable(src, end, h.lb, all, h.nd, 32);
      } else {
        ReadsOn(src, end, h.lb, all, h.nd, 32);
      }
    }
  }

  lemma FullTable(src: seq<Byte>, pos: nat, lb: seq<nat>, lens: seq<nat>, n: nat, size: nat)
    requires |lb| == 19 && n <= |lens| <= size
    ensures ReadLens(src, pos, lb, lens, n, size) == Lens(pos, lens)
  {
  }

  /** The program reads a header to its end, and with it the lengths RFC 1951 assigns, exactly when no
      run crosses the two tables and there are at most 30 distance lengths.  It rejects 31 and 32 of them,
      which the 5-bit count allows; where a run crosses, it stops early or reads too far. */
  lemma HeaderRead(src: seq<Byte>, pos: nat, h: Header)
    requires h.Valid() && Has(src, pos, h.Bits())
    ensures var r := ReadTables(src, pos);
            var end := pos + |h.Bits()|;
            && (h.Separates() && h.nd <= MAX_DIST_CODES <==> r == Tables(end, h.Literals(), h.Distances()))
            && (h.nd > MAX_DIST_CODES <==> r == BadCounts)
            && (h.nd <= MAX_DIST_CODES && !h.Separates() ==> r == Unreadable || (r.Tables? && r.pos > end))
  {
    hide Has, Peek, OpsBits, ReadLens, Op.Bits, Op.Append, ReadBorder, ExpandOps, BorderBits, Huffman.Valid, OpsValid;
    CountsAreRead(src, pos, h);
    var k := CutOff(h.ops, [], h.nl);
    var start := pos + 14 + 3 * h.nb;
    OpsSplit(h.ops, k, h.lb, []);
    HasAppend(src, start, OpsBits(h.ops[..k], h.lb), OpsBits(h.ops[k..], h.lb));
    ReadsOps(src, start, h.ops, h.lb, [], h.nl, 288);
    var middle := start + |OpsBits(h.ops[..k], h.lb)|;
    DistancesRead(src, middle, h, k);
    var front := ExpandOps(h.ops[..k], []);
    if |front| <= 288 {
      FullTable(src, middle, h.lb, front, h.nl, 288);
      assert h.Separates() ==> front == h.Literals();
    }
  }

  // ---------------------------------------------------------------------------------------
  // Headers that the program does not read.

  /** Code lengths for the symbols 2, 16 and 18. */
  const SMALL_CODE: seq<nat> := [0, 0, 2, 0, 0, 0, 0, 0, 0, 0, 0, 0, 0, 0, 0, 0, 2, 0, 1]

  /** 256 unused literals, the end-of-block symbol with length 2, and one more operation. */
  function OpsEnding(last: Op): seq<Op> {
    [Op(18, 127), Op(18, 107), Op(2, 0), last]
  }

  /** A run of three distance lengths that repeats the length of the end-of-block symbol. */
  function CrossingHeader(): Header {
    Header(SMALL_CODE, 19, OpsEnding(Op(16, 0)), 257, 3)
  }

  /** 31 distance lengths, none of them used. */
  function WideHeader(): Header {
    Header(SMALL_CODE, 19, OpsEnding(Op(18, 20)), 257, 31)
  }

  /** RFC 1951 allows this header, with two usable codes; the program misreads it. */
  lemma CrossingHeaderMisread(src: seq<Byte>, pos: nat)
    ensures var h := CrossingHeader();
            && h.Valid() && Huffman.Valid(h.Literals()) && Huffman.Valid(h.Distances())
            && (Has(src, pos, h.Bits()) ==> ReadTables(src, pos) != Tables(pos + |h.Bits()|, h.Literals(), h.Distances()))
  {
    hide Has, ReadTables, Huffman.Valid, Header.Bits, Header.Coded, Header.Separates, ExpandOps;
    CrossingHeaderValid();
    if Has(src, pos, CrossingHeader().Bits()) {
      HeaderRead(src, pos, CrossingHeader());
    }
  }

  /** RFC 1951 allows this header, which has no crossing run; the program rejects it. */
  lemma WideHeaderRejected(src: seq<Byte>, pos: nat)
    ensures var h := WideHeader();
            && h.Valid() && h.Separates() && Huffman.Valid(h.Literals()) && Huffman.Valid(h.Distances())
            && (Has(src, pos, h.Bits()) ==> ReadTables(src, pos) == BadCounts)
  {
    hide Has, ReadTables, Huffman.Valid, Header.Bits, Header.Coded, Header.Separates, ExpandOps;
    WideHeaderValid();
    if Has(src, pos, WideHeader().Bits()) {
      HeaderRead(src, pos, WideHeader());
    }
  }

  lemma SmallCode()
    ensures Huffman.Valid(SMALL_CODE) && RestUnused(SMALL_CODE, 19)
  {
    hide Kraft, Weight;
    RankOfBorder();
    SomeWeights();
    var lb := SMALL_CODE;
    KraftNone(lb);
    KraftRepeated(lb, 0, 2, 0);
    KraftRepeated(lb, 2, 3, 2);
    KraftRepeated(lb, 3, 16, 0);
    KraftRepeated(lb, 16, 17, 2);
    KraftRepeated(lb, 17, 18, 0);
    KraftRepeated(lb, 18, 19, 1);
  }

  lemma SmallTables(ll: seq<nat>, ld: seq<nat>)
    requires ll == Repeated(0, 256) + [2] && (ld == [2, 2, 2] || ld == Repeated(0, |ld|))
    ensures Huffman.Valid(ll) && Huffman.Valid(ld)
  {
    hide Kraft, Weight;
    SomeWeights();
    KraftNone(ll);
    KraftRepeated(ll, 0, 256, 0);
    KraftRepeated(ll, 256, 257, 2);
    KraftNone(ld);
    if ld == [2, 2, 2] {
      KraftRepeated(ld, 0, 3, 2);
    } else {
      KraftRepeated(ld, 0, |ld|, 0);
    }
  }

  lemma CrossingHeaderValid()
    ensures CrossingHeader().Valid() && !CrossingHeader().Separates()
    ensures Huffman.Valid(CrossingHeader().Literals()) && Huffman.Valid(CrossingHeader().Distances())
  {
    hide Huffman.Valid, RestUnused, ExpandOps, CutOff, Repeated, Chained, OpsValid;
    SmallCode();
    OpsSpell(Op(16, 0));
    var h := CrossingHeader();
    assert h.Valid();
    RepeatedIs(2, 3, [2, 2, 2]);
    assert h.Literals() == Repeated(0, 256) + [2] && h.Distances() == [2, 2, 2];
    SmallTables(h.Literals(), h.Distances());
  }

  lemma WideHeaderValid()
    ensures WideHeader().Valid() && WideHeader().Separates()
    ensures Huffman.Valid(WideHeader().Literals()) && Huffman.Valid(WideHeader().Distances())
  {
    hide Huffman.Valid, RestUnused, ExpandOps, CutOff, Repeated, Chained, OpsValid;
    SmallCode();
    OpsSpell(Op(18, 20));
    var h := WideHeader();
    assert h.Valid();
    assert h.Literals() == Repeated(0, 256) + [2] && h.Distances() == Repeated(0, 31);
    SmallTables(h.Literals(), h.Distances());
  }

  lemma RepeatedIs(v: nat, n: nat, s: seq<nat>)
    requires |s| == n && forall i :: 0 <= i < n ==> s[i] == v
    ensures Repeated(v, n) == s
  {
  }

  /** What the operations spell, and where the first table is full. */
  lemma OpsSpell(last: Op)
    requires last == Op(16, 0) || (last.symbol == 18 && last.extra < 128)
    ensures var ops := OpsEnding(last);
            var run := if last.symbol == 16 then Repeated(2, 3) else Repeated(0, last.extra + 11);
            && OpsValid(ops, SMALL_CODE)
            && ExpandOps(ops, []) == Repeated(0, 256) + [2] + run
            && CutOff(ops, [], 257) == 3
            && ExpandOps(ops[..3], []) == Repeated(0, 256) + [2]
            && (Chained(ops[3..], []) <==> last.symbol == 18) && Chained(ops, [])
  {
    hide Repeated, Pow2, ExpandOps, CutOff, OpsValid;
    var ops := OpsEnding(last);
    var a, b := ops[0].Append([]), ops[1].Append(ops[0].Append([]));
    RunPowers();
    Zeros(138, 118);
    assert b == Repeated(0, 256);
    var c := ops[2].Append(b);
    assert c == b + [2];
    var d := ops[3].Append(c);
    FourOps(ops, a, b, c, d);
  }

  lemma RunPowers()
    ensures Pow2(7) == 128 && Pow2(2) == 4
  {
    assert Pow2(4) == 16;
  }

  lemma Zeros(m: nat, n: nat)
    ensures [] + Repeated(0, m) == Repeated(0, m) && Repeated(0, m) + Repeated(0, n) == Repeated(0, m + n)
  {
  }

  lemma FourOps(ops: seq<Op>, a: seq<nat>, b: seq<nat>, c: seq<nat>, d: seq<nat>)
    requires |ops| == 4 && a == ops[0].Append([]) && b == ops[1].Append(a) && c == ops[2].Append(b) && d == ops[3].Append(c)
    requires |b| == 256 && |c| == 257 && forall i :: 0 <= i < 4 ==> ops[i].Valid(SMALL_CODE)
    ensures ExpandOps(ops, []) == d && CutOff(ops, [], 257) == 3 && ExpandOps(ops[..3], []) == c
    ensures ops[3..] == [ops[3]]
    ensures OpsValid(ops, SMALL_CODE)
  {
    hide Op.Append, Op.Valid;
    assert ops[1..][0] == ops[1] && ops[2..][0] == ops[2] && ops[3..][0] == ops[3];
    assert ops[1..][1..] == ops[2..] && ops[2..][1..] == ops[3..] && ops[3..][1..] == [];
    assert ExpandOps(ops[3..], c) == ExpandOps([], d) == d;
    assert ExpandOps(ops[2..], b) == d;
    assert ExpandOps(ops[1..], a) == d;
    assert CutOff(ops[3..], c, 257) == 0;
    assert CutOff(ops[2..], b, 257) == 1;
    assert CutOff(ops[1..], a, 257) == 2;
    assert OpsValid(ops[3..], SMALL_CODE) && OpsValid(ops[2..], SMALL_CODE) && OpsValid(ops[1..], SMALL_CODE);
    var front := ops[..3];
    assert front[1..][0] == ops[1] && front[1..][1..][0] == ops[2] && front[1..][1..][1..] == [];
    assert ExpandOps(front[1..][1..], b) == ExpandOps([], c) == c;
    assert ExpandOps(front[1..], a) == c;
  }
}
