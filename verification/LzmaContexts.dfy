/**
 Which probability each bit of a packet uses, by what it stands for: contexts that differ never share
 one, and the choices of every packet are those of its contexts.
 */
module LzmaContexts {
  import opened Wrappers
  import opened Bits
  import opened RangeCoder
  import opened LzmaModel
  import opened LzmaCoding
  import opened LzmaStream

  /** Bit trees; `rep` tells the length coder of repeats from that of matches, `part` is 0 for a plain
      literal, 1 and 2 for bits that are compared with a 0 and with a 1 of the match byte. */
  datatype Tree =
    | SlotTree(lenState: nat)
    | SpecialTree(slot: nat)
    | AlignTree
    | LowTree(rep: bool, posState: nat)
    | MidTree(rep: bool, posState: nat)
    | HighTree(rep: bool)
    | ByteTree(coder: nat, part: nat)
  {
    predicate Valid(coders: nat) {
      match this
      case SlotTree(l) => l < 4
      case SpecialTree(s) => 4 <= s < 14
      case AlignTree => true
      case LowTree(_, p) => p < 16
      case MidTree(_, p) => p < 16
      case HighTree(_) => true
      case ByteTree(c, p) => c < coders && p < 3
    }

    /** Its nodes are 1 .. Nodes() - 1, the root being 1. */
    function Nodes(): nat {
      match this
      case SlotTree(_) => 64
      case SpecialTree(s) => SlotWidth(s)
      case AlignTree => 16
      case LowTree(_, _) => 8
      case MidTree(_, _) => 8
      case HighTree(_) => 256
      case ByteTree(_, _) => 256
    }
  }

  /** What a probability is for. */
  datatype Context =
    | IsMatch(state: nat, posState: nat)
    | IsRep(state: nat)
    | IsRepG0(state: nat)
    | IsRepG1(state: nat)
    | IsRepG2(state: nat)
    | IsRep0Long(state: nat, posState: nat)
    | LenLong(rep: bool)
    | LenLonger(rep: bool)
    | InTree(tree: Tree, node: nat)
  {
    predicate Valid(coders: nat) {
      match this
      case IsMatch(s, p) => s < 12 && p < 16
      case IsRep(s) => s < 12
      case IsRepG0(s) => s < 12
      case IsRepG1(s) => s < 12
      case IsRepG2(s) => s < 12
      case IsRep0Long(s, p) => s < 12 && p < 16
      case LenLong(_) => true
      case LenLonger(_) => true
      case InTree(t, n) => t.Valid(coders) && 1 <= n < t.Nodes()
    }
  }

  function LenBase(rep: bool): nat { if rep then REP_LEN_CODER else LEN_CODER }

  /** The place before a tree's root. */
  function Root(t: Tree): int {
    match t
    case SlotTree(l) => POS_SLOT + 64 * l
    case SpecialTree(s) => SPEC_POS + SlotBase(s) - s - 1
    case AlignTree => ALIGN
    case LowTree(rep, p) => LenBase(rep) + LEN_LOW + 8 * p
    case MidTree(rep, p) => LenBase(rep) + LEN_MID + 8 * p
    case HighTree(rep) => LenBase(rep) + LEN_HIGH
    case ByteTree(c, p) => LITERAL + 768 * c + 256 * p
  }

  /** Where the probability is in the array. */
  function Index(c: Context): int {
    match c
    case IsMatch(s, p) => 16 * s + p
    case IsRep(s) => IS_REP + s
    case IsRepG0(s) => IS_REP_G0 + s
    case IsRepG1(s) => IS_REP_G1 + s
    case IsRepG2(s) => IS_REP_G2 + s
    case IsRep0Long(s, p) => IS_REP0_LONG + 16 * s + p
    case LenLong(rep) => LenBase(rep)
    case LenLonger(rep) => LenBase(rep) + 1
    case InTree(t, n) => Root(t) + n
  }

  /** The kinds in the order of the array, and where each begins. */
  function Rank(c: Context): (r: nat)
    ensures r < 20
  {
    match c
    case IsMatch(_, _) => 0
    case IsRep(_) => 1
    case IsRepG0(_) => 2
    case IsRepG1(_) => 3
    case IsRepG2(_) => 4
    case IsRep0Long(_, _) => 5
    case LenLong(rep) => if rep then 14 else 9
    case LenLonger(rep) => if rep then 15 else 10
    case InTree(t, _) =>
      match t
      case SlotTree(_) => 6
      case SpecialTree(_) => 7
      case AlignTree => 8
      case LowTree(rep, _) => if rep then 16 else 11
      case MidTree(rep, _) => if rep then 17 else 12
      case HighTree(rep) => if rep then 18 else 13
      case ByteTree(_, _) => 19
  }

  const BEGINS: seq<nat> :=
    [0, 192, 204, 216, 228, 240, 432, 688, 802, 818, 819, 820, 948, 1076, 1332, 1333, 1334, 1462, 1590, 1846]

  lemma SpecialRegion(slot: nat, node: nat)
    requires 4 <= slot < 14 && 1 <= node < SlotWidth(slot)
    ensures 688 <= SPEC_POS + SlotBase(slot) - slot - 1 + node < 802
  {
    Powers();
  }

  lemma InRegion(c: Context, coders: nat)
    requires c.Valid(coders)
    ensures BEGINS[Rank(c)] <= Index(c) && (Rank(c) < 19 ==> Index(c) < BEGINS[Rank(c) + 1])
  {
    hide SlotWidth, SlotBase;
    if c.InTree? && c.tree.SpecialTree? {
      SpecialRegion(c.tree.slot, c.node);
    }
  }

  lemma {:induction false} RegionsApart(i: nat, j: nat)
    requires i < j < 20
    ensures BEGINS[i] < BEGINS[j]
    decreases j
  {
    if i + 1 < j {
      RegionsApart(i, j - 1);
    }
  }

  lemma KindsApart(c: Context, d: Context, coders: nat)
    requires c.Valid(coders) && d.Valid(coders) && Rank(c) < Rank(d)
    ensures Index(c) < Index(d)
  {
    hide Context.Valid, Index, Rank;
    InRegion(c, coders);
    InRegion(d, coders);
    if Rank(c) + 1 < Rank(d) {
      RegionsApart(Rank(c) + 1, Rank(d));
    }
  }

  lemma SpecialApart(s: nat, n: nat, t: nat, m: nat)
    requires 4 <= s < 14 && 1 <= n < SlotWidth(s) && 4 <= t < 14 && 1 <= m < SlotWidth(t)
    requires Root(SpecialTree(s)) + n == Root(SpecialTree(t)) + m
    ensures s == t && n == m
  {
    hide SlotWidth, SlotBase;
    if s < t {
      SpecTreesDisjoint(s, t);
    } else if t < s {
      SpecTreesDisjoint(t, s);
    }
  }

  lemma TreesApart(t: Tree, n: nat, u: Tree, m: nat, coders: nat)
    requires t.Valid(coders) && u.Valid(coders) && 1 <= n < t.Nodes() && 1 <= m < u.Nodes()
    requires Rank(InTree(t, n)) == Rank(InTree(u, m)) && Root(t) + n == Root(u) + m
    ensures t == u && n == m
  {
    hide SlotWidth, SlotBase;
    if t.SpecialTree? {
      SpecialApart(t.slot, n, u.slot, m);
    }
  }

  /** Two different contexts never use one probability. */
  lemma ContextsApart(c: Context, d: Context, coders: nat)
    requires c.Valid(coders) && d.Valid(coders) && Index(c) == Index(d)
    ensures c == d
  {
    hide Root, Tree.Nodes, Tree.Valid;
    if Rank(c) < Rank(d) {
      KindsApart(c, d, coders);
    } else if Rank(d) < Rank(c) {
      KindsApart(d, c, coders);
    } else if c.InTree? {
      TreesApart(c.tree, c.node, d.tree, d.node, coders);
    }
  }

  /** Every context has its probability in the array. */
  lemma ContextFits(c: Context, props: Props)
    requires props.Valid() && c.Valid(Pow2(props.lc + props.lp))
    ensures 0 <= Index(c) < NumProbs(props.lc, props.lp)
  {
    hide Pow2, SlotWidth, SlotBase;
    InRegion(c, Pow2(props.lc + props.lp));
    if Rank(c) == 19 {
      MulMonotone(c.tree.coder + 1, Pow2(props.lc + props.lp), 768);
    } else if Rank(c) < 18 {
      RegionsApart(Rank(c) + 1, 19);
    }
  }

  // ---------------------------------------------------------------------------------------
  // The contexts of a packet.

  /** A bit in a context, or a bit without one. */
  datatype Act = In(context: Context, bit: Bit) | Fair(bit: Bit)

  predicate Placed(acts: seq<Act>) {
    forall a <- acts :: a.In? ==> Index(a.context) >= 0
  }

  function Spelled(acts: seq<Act>): (cs: seq<Choice>)
    requires Placed(acts)
    decreases |acts|
  {
    if acts == [] then []
    else
      var a := acts[0];
      [if a.In? then Adaptive(Index(a.context), a.bit) else Direct(a.bit)] + Spelled(acts[1..])
  }

  lemma {:induction false} SpelledAppend(a: seq<Act>, b: seq<Act>)
    requires Placed(a) && Placed(b)
    ensures Placed(a + b) && Spelled(a + b) == Spelled(a) + Spelled(b)
    decreases |a|
  {
    hide Index;
    if a == [] {
      assert a + b == b;
    } else {
      assert (a + b)[1..] == a[1..] + b;
      SpelledAppend(a[1..], b);
    }
  }

  /** One act in front. */
  lemma SpelledCons(a: Act, b: seq<Act>)
    requires Placed(b) && (a.In? ==> Index(a.context) >= 0)
    ensures Placed([a] + b)
    ensures Spelled([a] + b) == [if a.In? then Adaptive(Index(a.context), a.bit) else Direct(a.bit)] + Spelled(b)
  {
    hide Index;
    assert ([a] + b)[1..] == b;
  }

  lemma NothingSpelled()
    ensures Placed([]) && Spelled([]) == []
  {
  }

  /** Down a bit tree from node m, along these bits. */
  function TreeActs(t: Tree, m: nat, bits: seq<Bit>): seq<Act>
    decreases |bits|
  {
    if bits == [] then [] else [In(InTree(t, m), bits[0])] + TreeActs(t, 2 * m + bits[0], bits[1..])
  }

  lemma {:induction false} TreeSpelled(t: Tree, m: nat, bits: seq<Bit>)
    requires Root(t) >= 0
    ensures Placed(TreeActs(t, m, bits)) && Spelled(TreeActs(t, m, bits)) == TreeChoices(Root(t), m, bits)
    decreases |bits|
  {
    hide Root;
    if bits != [] {
      TreeSpelled(t, 2 * m + bits[0], bits[1..]);
      SpelledCons(In(InTree(t, m), bits[0]), TreeActs(t, 2 * m + bits[0], bits[1..]));
    }
  }

  /** A length: 0..7 and 8..15 by position, 16..271 in one tree. */
  function LengthActs(rep: bool, posState: nat, length: nat): seq<Act>
    requires length < 272
  {
    if length < 8 then [In(LenLong(rep), 0)] + TreeActs(LowTree(rep, posState), 1, HighBitsFirst(length, 3))
    else if length < 16 then
      [In(LenLong(rep), 1)] +
      ([In(LenLonger(rep), 0)] + TreeActs(MidTree(rep, posState), 1, HighBitsFirst(length - 8, 3)))
    else
      [In(LenLong(rep), 1)] + ([In(LenLonger(rep), 1)] + TreeActs(HighTree(rep), 1, HighBitsFirst(length - 16, 8)))
  }

  lemma LengthSpelled(rep: bool, posState: nat, length: nat)
    requires length < 272
    ensures Placed(LengthActs(rep, posState, length))
    ensures Spelled(LengthActs(rep, posState, length)) == LengthChoices(LenBase(rep), posState, length)
  {
    hide TreeActs, TreeChoices, HighBitsFirst, Placed, Spelled;
    if length < 8 {
      var low := TreeActs(LowTree(rep, posState), 1, HighBitsFirst(length, 3));
      TreeSpelled(LowTree(rep, posState), 1, HighBitsFirst(length, 3));
      SpelledCons(In(LenLong(rep), 0), low);
    } else if length < 16 {
      var mid := TreeActs(MidTree(rep, posState), 1, HighBitsFirst(length - 8, 3));
      TreeSpelled(MidTree(rep, posState), 1, HighBitsFirst(length - 8, 3));
      SpelledCons(In(LenLonger(rep), 0), mid);
      SpelledCons(In(LenLong(rep), 1), [In(LenLonger(rep), 0)] + mid);
    } else {
      var high := TreeActs(HighTree(rep), 1, HighBitsFirst(length - 16, 8));
      TreeSpelled(HighTree(rep), 1, HighBitsFirst(length - 16, 8));
      SpelledCons(In(LenLonger(rep), 1), high);
      SpelledCons(In(LenLong(rep), 1), [In(LenLonger(rep), 1)] + high);
    }
  }

  function FairActs(bits: seq<Bit>): seq<Act> {
    if bits == [] then [] else [Fair(bits[0])] + FairActs(bits[1..])
  }

  lemma {:induction false} FairSpelled(bits: seq<Bit>)
    ensures Placed(FairActs(bits)) && Spelled(FairActs(bits)) == DirectChoices(bits)
    decreases |bits|
  {
    if bits != [] {
      FairSpelled(bits[1..]);
      SpelledCons(Fair(bits[0]), FairActs(bits[1..]));
    }
  }

  /** What follows a slot. */
  function FooterActs(slot: nat, rest: nat): seq<Act> {
    if slot < 4 then []
    else if slot < 14 then TreeActs(SpecialTree(slot), 1, LowBitsFirst(rest, slot / 2 - 1))
    else FairActs(HighBitsFirst(rest / 16, slot / 2 - 5)) + TreeActs(AlignTree, 1, LowBitsFirst(rest % 16, 4))
  }

  lemma FooterSpelled(slot: nat, rest: nat)
    ensures Placed(FooterActs(slot, rest)) && Spelled(FooterActs(slot, rest)) == FooterChoices(slot, rest)
  {
    hide TreeActs, TreeChoices, HighBitsFirst, LowBitsFirst, FairActs, DirectChoices, SlotBase;
    if 4 <= slot < 14 {
      SlotBaseSmall(slot);
      TreeSpelled(SpecialTree(slot), 1, LowBitsFirst(rest, slot / 2 - 1));
    } else if slot >= 14 {
      FairSpelled(HighBitsFirst(rest / 16, slot / 2 - 5));
      TreeSpelled(AlignTree, 1, LowBitsFirst(rest % 16, 4));
      SpelledAppend(FairActs(HighBitsFirst(rest / 16, slot / 2 - 5)), TreeActs(AlignTree, 1, LowBitsFirst(rest % 16, 4)));
    }
  }

  function DistanceActs(lenState: nat, distance: nat): seq<Act>
    requires distance <= END_DISTANCE
  {
    var slot := SlotOf(distance);
    TreeActs(SlotTree(lenState), 1, HighBitsFirst(slot, 6)) + FooterActs(slot, distance - SlotBase(slot))
  }

  lemma DistanceSpelled(lenState: nat, distance: nat)
    requires distance <= END_DISTANCE
    ensures Placed(DistanceActs(lenState, distance))
    ensures Spelled(DistanceActs(lenState, distance)) == DistanceChoices(lenState, distance)
  {
    hide TreeActs, TreeChoices, HighBitsFirst, FooterActs, FooterChoices, SlotBase;
    var slot := SlotOf(distance);
    FooterSpelled(slot, distance - SlotBase(slot));
    TreeSpelled(SlotTree(lenState), 1, HighBitsFirst(slot, 6));
    SpelledAppend(TreeActs(SlotTree(lenState), 1, HighBitsFirst(slot, 6)), FooterActs(slot, distance - SlotBase(slot)));
  }

  /** A literal after a match: bit k in the tree for the match byte's bit k, as long as all bits agreed. */
  function ComparedActs(coder: nat, others: seq<Bit>, m: nat, bits: seq<Bit>): seq<Act>
    requires |others| == |bits|
    decreases |bits|
  {
    if bits == [] then []
    else
      [In(InTree(ByteTree(coder, if others[0] == 0 then 1 else 2), m), bits[0])] +
      if bits[0] == others[0] then ComparedActs(coder, others[1..], 2 * m + bits[0], bits[1..])
      else TreeActs(ByteTree(coder, 0), 2 * m + bits[0], bits[1..])
  }

  lemma {:induction false} FirstHigh(v: nat, n: nat)
    requires n > 0
    ensures HighBitsFirst(v, n)[0] == v / Pow2(n - 1) % 2
    ensures HighBitsFirst(v, n)[1..] == HighBitsFirst(v, n - 1)
    decreases n
  {
    if n > 1 {
      FirstHigh(v / 2, n - 1);
      HalfOf(v, Pow2(n - 2));
    }
  }

  lemma HalfOf(v: nat, p: nat)
    requires p > 0
    ensures v / 2 / p == v / (2 * p)
  {
    DivisionTheorem(v / 2, p);
    var q: nat, r: nat := v / 2 / p, v / 2 % p;
    MulDouble(q, p);
    DivModUnique(2 * p, q, 2 * r + v % 2);
  }

  /** The doubled match byte shows its next bit. */
  lemma ShiftedBits(v: nat, n: nat)
    requires 0 < n <= 8
    ensures NextBit(v) == HighBitsFirst(v, 8)[0]
    ensures HighBitsFirst(v, 8)[..n][1..] == HighBitsFirst(v * 2, 8)[..n - 1]
  {
    hide HighBitsFirst, Pow2;
    Powers();
    FirstHigh(v, 8);
    DoubledBits(v, 7);
    SameHalf(v);
  }

  lemma SameHalf(v: nat)
    ensures v * 2 / 256 == v / 128
  {
  }

  lemma DoubledBits(v: nat, n: nat)
    ensures HighBitsFirst(v * 2, n + 1) == HighBitsFirst(v, n) + [0]
  {
  }

  lemma {:induction false} ComparedSpelled(coder: nat, v: nat, m: nat, bits: seq<Bit>)
    requires |bits| <= 8
    ensures Placed(ComparedActs(coder, HighBitsFirst(v, 8)[..|bits|], m, bits))
    ensures Spelled(ComparedActs(coder, HighBitsFirst(v, 8)[..|bits|], m, bits)) ==
            MatchedChoices(LITERAL + 768 * coder, v, m, bits)
    decreases |bits|
  {
    hide HighBitsFirst, NextBit, TreeActs, TreeChoices, Placed, Spelled;
    NothingSpelled();
    if bits != [] {
      var others := HighBitsFirst(v, 8)[..|bits|];
      ShiftedBits(v, |bits|);
      var next := 2 * m + bits[0];
      var rest := if bits[0] == others[0] then ComparedActs(coder, others[1..], next, bits[1..])
                  else TreeActs(ByteTree(coder, 0), next, bits[1..]);
      ComparedSpelled(coder, v * 2, next, bits[1..]);
      TreeSpelled(ByteTree(coder, 0), next, bits[1..]);
      SpelledCons(In(InTree(ByteTree(coder, if others[0] == 0 then 1 else 2), m), bits[0]), rest);
    }
  }

  /** The literal coder: by the low lp bits of the position and the high lc bits of the previous byte. */
  function Coder(props: Props, out: seq<Byte>): nat
    requires props.Valid()
  {
    hide Pow2;
    var previous := if out == [] then 0 else out[|out| - 1];
    DivisionTheorem(previous, Pow2(8 - props.lc));
    Pow2(props.lc) * (|out| % Pow2(props.lp)) + previous / Pow2(8 - props.lc)
  }

  function LiteralActs(props: Props, lz: Lz, byte: Byte): seq<Act>
    requires props.Valid() && lz.Valid()
  {
    var bits := HighBitsFirst(byte, 8);
    if lz.state < 7 then TreeActs(ByteTree(Coder(props, lz.out), 0), 1, bits)
    else ComparedActs(Coder(props, lz.out), HighBitsFirst(lz.out[|lz.out| - lz.rep0], 8), 1, bits)
  }

  lemma LiteralSpelled(props: Props, lz: Lz, byte: Byte)
    requires props.Valid() && lz.Valid()
    ensures Placed(LiteralActs(props, lz, byte))
    ensures Spelled(LiteralActs(props, lz, byte)) == LiteralChoices(props, lz, byte)
  {
    hide HighBitsFirst, TreeActs, TreeChoices, ComparedActs, MatchedChoices, Pow2;
    var bits := HighBitsFirst(byte, 8);
    assert lz.LiteralBase(props) == LITERAL + 768 * Coder(props, lz.out);
    if lz.state < 7 {
      TreeSpelled(ByteTree(Coder(props, lz.out), 0), 1, bits);
    } else {
      var v := lz.out[|lz.out| - lz.rep0];
      ComparedSpelled(Coder(props, lz.out), v, 1, bits);
      assert HighBitsFirst(v, 8)[..8] == HighBitsFirst(v, 8);
    }
  }

  function WhichActs(state: nat, posState: nat, which: nat): seq<Act> {
    if which == SHORT then [In(IsRepG0(state), 0)] + [In(IsRep0Long(state, posState), 0)]
    else if which == 0 then [In(IsRepG0(state), 0)] + [In(IsRep0Long(state, posState), 1)]
    else if which == 1 then [In(IsRepG0(state), 1)] + [In(IsRepG1(state), 0)]
    else [In(IsRepG0(state), 1)] + ([In(IsRepG1(state), 1)] + [In(IsRepG2(state), if which == 2 then 0 else 1)])
  }

  lemma SpelledOne(a: Act)
    requires a.In? ==> Index(a.context) >= 0
    ensures Placed([a])
    ensures Spelled([a]) == [if a.In? then Adaptive(Index(a.context), a.bit) else Direct(a.bit)]
  {
    SpelledCons(a, []);
    assert [a] + [] == [a];
  }

  lemma WhichSpelled(state: nat, posState: nat, which: nat)
    ensures Placed(WhichActs(state, posState, which))
    ensures Spelled(WhichActs(state, posState, which)) == WhichChoices(state, posState, which)
  {
    hide Placed, Spelled;
    var long := In(IsRep0Long(state, posState), if which == SHORT then 0 else 1);
    var second := In(IsRepG1(state), if which == 1 then 0 else 1);
    var third := In(IsRepG2(state), if which == 2 then 0 else 1);
    SpelledOne(long);
    SpelledOne(second);
    SpelledOne(third);
    SpelledCons(In(IsRepG0(state), 0), [long]);
    SpelledCons(In(IsRepG0(state), 1), [second]);
    SpelledCons(second, [third]);
    SpelledCons(In(IsRepG0(state), 1), [second] + [third]);
  }

  /** A packet: literals by state and position, repeats by state, lengths by position, slots by the length
      up to 3, all positions by their low pb bits. */
  function PacketActs(props: Props, lz: Lz, p: Packet): seq<Act>
    requires props.Valid() && lz.Valid() && p.Valid()
  {
    var position := |lz.out| % Pow2(props.pb);
    match p
    case Literal(b) => [In(IsMatch(lz.state, position), 0)] + LiteralActs(props, lz, b)
    case Match(d, n) =>
      [In(IsMatch(lz.state, position), 1)] +
      ([In(IsRep(lz.state), 0)] + (LengthActs(false, position, n) + DistanceActs(if n < 3 then n else 3, d)))
    case ShortRep =>
      [In(IsMatch(lz.state, position), 1)] + ([In(IsRep(lz.state), 1)] + WhichActs(lz.state, position, SHORT))
    case Rep(w, n) =>
      [In(IsMatch(lz.state, position), 1)] +
      ([In(IsRep(lz.state), 1)] + (WhichActs(lz.state, position, w) + LengthActs(true, position, n)))
  }

  /** The choices of every packet are those of its contexts. */
  lemma PacketSpelled(props: Props, lz: Lz, p: Packet)
    requires props.Valid() && lz.Valid() && p.Valid()
    ensures Placed(PacketActs(props, lz, p)) && Spelled(PacketActs(props, lz, p)) == PacketChoices(props, lz, p)
  {
    hide LiteralActs, LengthActs, DistanceActs, WhichActs, LiteralChoices, LengthChoices, DistanceChoices, WhichChoices;
    hide Placed, Spelled, Pow2;
    var position := |lz.out| % Pow2(props.pb);
    match p {
      case Literal(b) =>
        LiteralSpelled(props, lz, b);
        SpelledCons(In(IsMatch(lz.state, position), 0), LiteralActs(props, lz, b));
      case Match(d, n) =>
        var length, distance := LengthActs(false, position, n), DistanceActs(if n < 3 then n else 3, d);
        LengthSpelled(false, position, n);
        DistanceSpelled(if n < 3 then n else 3, d);
        SpelledAppend(length, distance);
        SpelledCons(In(IsRep(lz.state), 0), length + distance);
        SpelledCons(In(IsMatch(lz.state, position), 1), [In(IsRep(lz.state), 0)] + (length + distance));
      case ShortRep =>
        var which := WhichActs(lz.state, position, SHORT);
        WhichSpelled(lz.state, position, SHORT);
        SpelledCons(In(IsRep(lz.state), 1), which);
        SpelledCons(In(IsMatch(lz.state, position), 1), [In(IsRep(lz.state), 1)] + which);
      case Rep(w, n) =>
        var which, length := WhichActs(lz.state, position, w), LengthActs(true, position, n);
        WhichSpelled(lz.state, position, w);
        LengthSpelled(true, position, n);
        SpelledAppend(which, length);
        SpelledCons(In(IsRep(lz.state), 1), which + length);
        SpelledCons(In(IsMatch(lz.state, position), 1), [In(IsRep(lz.state), 1)] + (which + length));
    }
  }

  // ---------------------------------------------------------------------------------------
  // They are contexts of the array, and which of them are shared.

  predicate AllValid(acts: seq<Act>, coders: nat) {
    forall a <- acts :: a.In? ==> a.context.Valid(coders)
  }

  lemma {:induction false} TreeValid(t: Tree, m: nat, bits: seq<Bit>, coders: nat)
    requires t.Valid(coders) && m >= 1 && First(m + 1, |bits|) <= 2 * t.Nodes()
    ensures AllValid(TreeActs(t, m, bits), coders)
    decreases |bits|
  {
    hide First, Tree.Valid, Tree.Nodes;
    if bits != [] {
      Descend(m, |bits|, bits[0]);
      TreeValid(t, 2 * m + bits[0], bits[1..], coders);
    }
  }

  lemma {:induction false} ComparedValid(coder: nat, others: seq<Bit>, m: nat, bits: seq<Bit>, coders: nat)
    requires coder < coders && |others| == |bits| && m >= 1 && First(m + 1, |bits|) <= 512
    ensures AllValid(ComparedActs(coder, others, m, bits), coders)
    decreases |bits|
  {
    hide First, TreeActs;
    if bits != [] {
      Descend(m, |bits|, bits[0]);
      ComparedValid(coder, others[1..], 2 * m + bits[0], bits[1..], coders);
      TreeValid(ByteTree(coder, 0), 2 * m + bits[0], bits[1..], coders);
    }
  }

  lemma CoderFits(props: Props, out: seq<Byte>)
    requires props.Valid()
    ensures Coder(props, out) < Pow2(props.lc + props.lp)
  {
    hide Pow2;
    var previous := if out == [] then 0 else out[|out| - 1];
    LowBits(|out|, props.lp, props.lc);
    HighBits(previous, props.lc);
    MulSum(|out| % Pow2(props.lp), 1, Pow2(props.lc));
  }

  lemma LengthValid(rep: bool, posState: nat, length: nat, coders: nat)
    requires length < 272 && posState < 16
    ensures AllValid(LengthActs(rep, posState, length), coders)
  {
    hide TreeActs, HighBitsFirst, First, Pow2;
    Powers();
    FirstIsProduct(2, 3);
    FirstIsProduct(2, 8);
    if length < 8 {
      TreeValid(LowTree(rep, posState), 1, HighBitsFirst(length, 3), coders);
    } else if length < 16 {
      TreeValid(MidTree(rep, posState), 1, HighBitsFirst(length - 8, 3), coders);
    } else {
      TreeValid(HighTree(rep), 1, HighBitsFirst(length - 16, 8), coders);
    }
  }

  lemma {:induction false} FairValid(bits: seq<Bit>, coders: nat)
    ensures AllValid(FairActs(bits), coders)
    decreases |bits|
  {
    if bits != [] {
      FairValid(bits[1..], coders);
    }
  }

  lemma DistanceValid(lenState: nat, distance: nat, coders: nat)
    requires lenState < 4 && distance <= END_DISTANCE
    ensures AllValid(DistanceActs(lenState, distance), coders)
  {
    hide TreeActs, HighBitsFirst, LowBitsFirst, FairActs, First, SlotOf, SlotBase, Pow2;
    Powers();
    FirstIsProduct(2, 6);
    FirstIsProduct(2, 4);
    var slot := SlotOf(distance);
    var rest := distance - SlotBase(slot);
    TreeValid(SlotTree(lenState), 1, HighBitsFirst(slot, 6), coders);
    if 4 <= slot < 14 {
      FirstIsProduct(2, slot / 2 - 1);
      TreeValid(SpecialTree(slot), 1, LowBitsFirst(rest, slot / 2 - 1), coders);
    } else if slot >= 14 {
      FairValid(HighBitsFirst(rest / 16, slot / 2 - 5), coders);
      TreeValid(AlignTree, 1, LowBitsFirst(rest % 16, 4), coders);
    }
  }

  /** Every bit of a packet is in a context of the array, or fair. */
  lemma PacketValid(props: Props, lz: Lz, p: Packet)
    requires props.Valid() && lz.Valid() && p.Valid()
    ensures AllValid(PacketActs(props, lz, p), Pow2(props.lc + props.lp))
  {
    hide TreeActs, ComparedActs, LengthActs, DistanceActs, HighBitsFirst, First, Pow2, Coder;
    var position, coders := |lz.out| % Pow2(props.pb), Pow2(props.lc + props.lp);
    PosStateSmall(lz, props);
    match p {
      case Literal(b) =>
        var bits := HighBitsFirst(b, 8);
        Powers();
        FirstIsProduct(2, 8);
        CoderFits(props, lz.out);
        if lz.state < 7 {
          TreeValid(ByteTree(Coder(props, lz.out), 0), 1, bits, coders);
        } else {
          ComparedValid(Coder(props, lz.out), HighBitsFirst(lz.out[|lz.out| - lz.rep0], 8), 1, bits, coders);
        }
      case Match(d, n) =>
        LengthValid(false, position, n, coders);
        DistanceValid(if n < 3 then n else 3, d, coders);
      case ShortRep =>
      case Rep(w, n) => LengthValid(true, position, n, coders);
    }
  }

  /** Lengths share a slot tree exactly when they are equal or both code at least 3, which is 5 bytes. */
  lemma SharedSlots(a: nat, b: nat)
    ensures LenState(a) == LenState(b) <==> a == b || (a >= 3 && b >= 3)
  {
  }

  /** Literals share a coder exactly when the low lp bits of their positions and the high lc bits of the bytes
      before them agree. */
  lemma SharedCoders(props: Props, a: seq<Byte>, b: seq<Byte>)
    requires props.Valid() && a != [] && b != []
    ensures Coder(props, a) == Coder(props, b) <==>
            && |a| % Pow2(props.lp) == |b| % Pow2(props.lp)
            && a[|a| - 1] / Pow2(8 - props.lc) == b[|b| - 1] / Pow2(8 - props.lc)
  {
    hide Pow2;
    HighBits(a[|a| - 1], props.lc);
    HighBits(b[|b| - 1], props.lc);
    DivisionTheorem(a[|a| - 1], Pow2(8 - props.lc));
    DivisionTheorem(b[|b| - 1], Pow2(8 - props.lc));
    var x: nat, y: nat := a[|a| - 1] / Pow2(8 - props.lc), b[|b| - 1] / Pow2(8 - props.lc);
    DivModUnique(Pow2(props.lc), |a| % Pow2(props.lp), x);
    DivModUnique(Pow2(props.lc), |b| % Pow2(props.lp), y);
  }
}
