/**
 An input of LzmaDecode on which Code reaches Range: a literal, two matches, and the direct bits of a
 third match.  No encoder writes it, since it is in no interval after that bit.
 */
module LzmaEdge {
  import opened Wrappers
  import opened Bits
  import opened RangeCoder
  import opened LzmaModel
  import opened LzmaCoding
  import opened LzmaStream
  import opened Lz77

  const PROPS := Props(0, 0, 0)

  /** The input after the 5 property bytes. */
  const INPUT: seq<Byte> := [0, 0, 66, 2, 216, 69, 69, 124, 43, 255]

  /** The choices of a zero byte after nothing. */
  const ZERO_BYTE: seq<Choice> :=
    [Adaptive(0, 0), Adaptive(1847, 0), Adaptive(1848, 0), Adaptive(1850, 0), Adaptive(1854, 0),
     Adaptive(1862, 0), Adaptive(1878, 0), Adaptive(1910, 0), Adaptive(1974, 0)]

  /** The choices of a match of length 2 in this state up to the slot, for slot 0 and for slot 15. */
  function NearMatch(state: nat): seq<Choice> {
    [Adaptive(16 * state, 1), Adaptive(IS_REP + state, 0), Adaptive(818, 0), Adaptive(821, 0), Adaptive(822, 0),
     Adaptive(824, 0), Adaptive(433, 0), Adaptive(434, 0), Adaptive(436, 0), Adaptive(440, 0), Adaptive(448, 0),
     Adaptive(464, 0)]
  }

  function FarMatch(state: nat): seq<Choice> {
    [Adaptive(16 * state, 1), Adaptive(IS_REP + state, 0), Adaptive(818, 0), Adaptive(821, 0), Adaptive(822, 0),
     Adaptive(824, 0), Adaptive(433, 0), Adaptive(434, 0), Adaptive(436, 1), Adaptive(441, 1), Adaptive(451, 1),
     Adaptive(471, 1)]
  }

  /** The probabilities they meet. */
  const BYTE_PROBS: seq<Prob> := [1024, 1024, 1024, 1024, 1024, 1024, 1024, 1024, 1024]
  const FIRST_PROBS: seq<Prob> := [1056, 1024, 1024, 1024, 1024, 1024, 1024, 1024, 1024, 1024, 1024, 1024]
  const SECOND_PROBS: seq<Prob> := [1024, 1024, 1056, 1056, 1056, 1056, 1056, 1056, 1056, 1056, 1056, 1056]
  const THIRD_PROBS: seq<Prob> := [1024, 1024, 1087, 1087, 1087, 1087, 1087, 1087, 1087, 1024, 1024, 1024]

  // ---------------------------------------------------------------------------------------
  // Intervals without probabilities.

  datatype Span = Span(low: nat, range: nat, shifts: nat)

  /** One adaptive choice with probability p. */
  function Cut(s: Span, p: Prob, bit: Bit): Span {
    var w := if s.range >= TOP then s else Span(s.low * 256, s.range * 256, s.shifts + 1);
    var bound := Bound(w.range, p);
    if bit == 0 then w.(range := bound)
    else if bound <= w.range then w.(low := w.low + bound, range := w.range - bound)
    else w
  }

  function CutAll(s: Span, cs: seq<Choice>, ps: seq<Prob>): Span
    requires |cs| == |ps|
    decreases |cs|
  {
    if cs == [] then s else CutAll(Cut(s, ps[0], cs[0].bit), cs[1..], ps[1..])
  }

  predicate Different(cs: seq<Choice>) {
    && (forall c <- cs :: c.Adaptive?)
    && forall i, j :: 0 <= i < j < |cs| ==> cs[i].Adaptive? && cs[j].Adaptive? && cs[i].index != cs[j].index
  }

  function Trained(p: Prob, bit: Bit): Prob {
    if bit == 0 then ProbUp(p) else ProbDown(p)
  }

  /** Choices that use different probabilities cut the interval by the probabilities found before them,
      train each once, and no other. */
  lemma {:induction false} SpanOfChoices(e: Interval, cs: seq<Choice>, ps: seq<Prob>)
    requires e.Valid() && Different(cs) && |ps| == |cs|
    requires forall k :: 0 <= k < |cs| ==> cs[k].index < |e.probs| && e.probs[cs[k].index] == ps[k]
    ensures InRange(cs, |e.probs|)
    ensures var f := Encode(e, cs);
            && Span(f.low, f.range, f.shifts) == CutAll(Span(e.low, e.range, e.shifts), cs, ps)
            && (forall k :: 0 <= k < |cs| ==> f.probs[cs[k].index] == Trained(ps[k], cs[k].bit))
            && (forall j :: 0 <= j < |e.probs| && (forall c <- cs :: c.index != j) ==> f.probs[j] == e.probs[j])
    decreases |cs|
  {
    if cs != [] {
      var e1 := EncodeChoice(e, cs[0]);
      CutIs(e, cs[0]);
      SpanOfChoices(e1, cs[1..], ps[1..]);
    }
  }

  lemma CutIs(e: Interval, c: Choice)
    requires e.Valid() && c.Adaptive? && c.index < |e.probs|
    ensures var f := EncodeChoice(e, c);
            && Span(f.low, f.range, f.shifts) == Cut(Span(e.low, e.range, e.shifts), e.probs[c.index], c.bit)
            && f.probs == e.probs[c.index := Trained(e.probs[c.index], c.bit)]
  {
  }

  /** From choice k on. */
  function CutFrom(s: Span, cs: seq<Choice>, ps: seq<Prob>, k: nat): Span
    requires k <= |cs| == |ps|
  {
    CutAll(s, cs[k..], ps[k..])
  }

  lemma Step(s: Span, cs: seq<Choice>, ps: seq<Prob>, k: nat, p: Prob, bit: Bit, bound: nat) returns (t: Span)
    requires k < |cs| == |ps| && ps[k] == p && cs[k].bit == bit
    requires s.range >= TOP && s.range / MODEL_TOTAL * p == bound <= s.range
    ensures t == if bit == 0 then s.(range := bound) else s.(low := s.low + bound, range := s.range - bound)
    ensures CutFrom(s, cs, ps, k) == CutFrom(t, cs, ps, k + 1)
  {
    assert cs[k..][1..] == cs[k + 1..] && ps[k..][1..] == ps[k + 1..];
    t := Cut(s, p, bit);
  }

  /** The same when the range is short. */
  lemma Refill(s: Span, cs: seq<Choice>, ps: seq<Prob>, k: nat, p: Prob, bit: Bit, bound: nat) returns (t: Span)
    requires k < |cs| == |ps| && ps[k] == p && cs[k].bit == bit
    requires s.range < TOP && s.range * 256 / MODEL_TOTAL * p == bound <= s.range * 256
    ensures t == if bit == 0 then Span(s.low * 256, bound, s.shifts + 1)
                 else Span(s.low * 256 + bound, s.range * 256 - bound, s.shifts + 1)
    ensures CutFrom(s, cs, ps, k) == CutFrom(t, cs, ps, k + 1)
  {
    assert cs[k..][1..] == cs[k + 1..] && ps[k..][1..] == ps[k + 1..];
    t := Cut(s, p, bit);
  }

  lemma FromStartToEnd(s: Span, cs: seq<Choice>, ps: seq<Prob>)
    requires |cs| == |ps|
    ensures CutFrom(s, cs, ps, 0) == CutAll(s, cs, ps) && CutFrom(s, cs, ps, |cs|) == s
  {
    assert cs[0..] == cs && ps[0..] == ps && cs[|cs|..] == [];
  }

  lemma ByteSpan()
    ensures CutAll(Span(0, 4294967295, 0), ZERO_BYTE, BYTE_PROBS) == Span(0, 2147352576, 1)
  {
    hide CutAll, CutFrom;
    var cs, ps := ZERO_BYTE, BYTE_PROBS;
    var s := Span(0, 4294967295, 0);
    FromStartToEnd(s, cs, ps);
    s := Step(s, cs, ps, 0, 1024, 0, 2147482624);
    s := Step(s, cs, ps, 1, 1024, 0, 1073740800);
    s := Step(s, cs, ps, 2, 1024, 0, 536869888);
    s := Step(s, cs, ps, 3, 1024, 0, 268434432);
    s := Step(s, cs, ps, 4, 1024, 0, 134216704);
    s := Step(s, cs, ps, 5, 1024, 0, 67107840);
    s := Step(s, cs, ps, 6, 1024, 0, 33553408);
    s := Step(s, cs, ps, 7, 1024, 0, 16776192);
    s := Refill(s, cs, ps, 8, 1024, 0, 2147352576);
    FromStartToEnd(s, cs, ps);
  }

  lemma FirstSpan()
    ensures CutAll(Span(0, 2147352576, 1), NearMatch(0), FIRST_PROBS) == Span(283450540032, 130015232, 2)
  {
    hide CutAll, CutFrom;
    var cs, ps := NearMatch(0), FIRST_PROBS;
    var s := Span(0, 2147352576, 1);
    FromStartToEnd(s, cs, ps);
    s := Step(s, cs, ps, 0, 1056, 1, 1107228672);
    s := Step(s, cs, ps, 1, 1024, 0, 520061952);
    s := Step(s, cs, ps, 2, 1024, 0, 260030464);
    s := Step(s, cs, ps, 3, 1024, 0, 130015232);
    s := Step(s, cs, ps, 4, 1024, 0, 65007616);
    s := Step(s, cs, ps, 5, 1024, 0, 32503808);
    s := Step(s, cs, ps, 6, 1024, 0, 16251904);
    s := Refill(s, cs, ps, 7, 1024, 0, 2080243712);
    s := Step(s, cs, ps, 8, 1024, 0, 1040121856);
    s := Step(s, cs, ps, 9, 1024, 0, 520060928);
    s := Step(s, cs, ps, 10, 1024, 0, 260030464);
    s := Step(s, cs, ps, 11, 1024, 0, 130015232);
    FromStartToEnd(s, cs, ps);
  }

  lemma SecondSpan()
    ensures CutAll(Span(283450540032, 130015232, 2), NearMatch(7), SECOND_PROBS) == Span(72579980197888, 11053152, 3)
  {
    hide CutAll, CutFrom;
    var cs, ps := NearMatch(7), SECOND_PROBS;
    var s := Span(283450540032, 130015232, 2);
    FromStartToEnd(s, cs, ps);
    s := Step(s, cs, ps, 0, 1024, 1, 65007616);
    s := Step(s, cs, ps, 1, 1024, 0, 32503808);
    s := Step(s, cs, ps, 2, 1056, 0, 16759776);
    s := Refill(s, cs, ps, 3, 1056, 0, 2212290432);
    s := Step(s, cs, ps, 4, 1056, 0, 1140711264);
    s := Step(s, cs, ps, 5, 1056, 0, 588178272);
    s := Step(s, cs, ps, 6, 1056, 0, 303278976);
    s := Step(s, cs, ps, 7, 1056, 0, 156377760);
    s := Step(s, cs, ps, 8, 1056, 0, 80631936);
    s := Step(s, cs, ps, 9, 1056, 0, 41575776);
    s := Step(s, cs, ps, 10, 1056, 0, 21436800);
    s := Step(s, cs, ps, 11, 1056, 0, 11053152);
    FromStartToEnd(s, cs, ps);
  }

  lemma ThirdSpan()
    ensures CutAll(Span(72579980197888, 11053152, 3), FarMatch(10), THIRD_PROBS) == Span(4756601948249321403, 237452357, 5)
  {
    hide CutAll, CutFrom;
    var cs, ps := FarMatch(10), THIRD_PROBS;
    var s := Span(72579980197888, 11053152, 3);
    FromStartToEnd(s, cs, ps);
    s := Refill(s, cs, ps, 0, 1024, 1, 1414803456);
    s := Step(s, cs, ps, 1, 1024, 0, 707401728);
    s := Step(s, cs, ps, 2, 1087, 0, 375461757);
    s := Step(s, cs, ps, 3, 1087, 0, 199279710);
    s := Step(s, cs, ps, 4, 1087, 0, 105769448);
    s := Step(s, cs, ps, 5, 1087, 0, 56138115);
    s := Step(s, cs, ps, 6, 1087, 0, 29795757);
    s := Step(s, cs, ps, 7, 1087, 0, 15813676);
    s := Refill(s, cs, ps, 8, 1087, 1, 2148682683);
    s := Step(s, cs, ps, 9, 1024, 1, 949809152);
    s := Step(s, cs, ps, 10, 1024, 1, 474904576);
    s := Step(s, cs, ps, 11, 1024, 1, 237452288);
    FromStartToEnd(s, cs, ps);
  }

  // ---------------------------------------------------------------------------------------
  // The whole run.

  function EdgeChoices(): seq<Choice> {
    ZERO_BYTE + (NearMatch(0) + (NearMatch(7) + FarMatch(10)))
  }

  /** The probabilities of the length and of slot 0. */
  const COMMON: seq<nat> := [818, 821, 822, 824, 433, 434, 436, 440, 448, 464]

  predicate Common(probs: seq<Prob>, p: Prob) {
    |probs| == 2614 && forall k :: 0 <= k < 10 ==> COMMON[k] < 2614 && probs[COMMON[k]] == p
  }

  lemma CommonPart(state: nat, k: nat)
    requires k < 10
    ensures |NearMatch(state)| == 12 && NearMatch(state)[k + 2] == Adaptive(COMMON[k], 0) && COMMON[k] < 2614
  {
  }

  predicate Meets(probs: seq<Prob>, cs: seq<Choice>, ps: seq<Prob>) {
    |ps| == |cs| && forall k :: 0 <= k < |cs| ==> cs[k].Adaptive? && cs[k].index < |probs| && probs[cs[k].index] == ps[k]
  }

  lemma CommonMeets(probs: seq<Prob>, p: Prob)
    requires Common(probs, p)
    ensures probs[818] == p && probs[821] == p && probs[822] == p && probs[824] == p && probs[433] == p
    ensures probs[434] == p && probs[436] == p && probs[440] == p && probs[448] == p && probs[464] == p
  {
    assert COMMON[0] == 818 && COMMON[1] == 821 && COMMON[2] == 822 && COMMON[3] == 824 && COMMON[4] == 433;
    assert COMMON[5] == 434 && COMMON[6] == 436 && COMMON[7] == 440 && COMMON[8] == 448 && COMMON[9] == 464;
  }

  lemma ByteMeets(probs: seq<Prob>)
    requires |probs| == 2614 && forall j :: 0 <= j < 2614 ==> probs[j] == 1024
    ensures Meets(probs, ZERO_BYTE, BYTE_PROBS)
  {
  }

  lemma FirstMeets(probs: seq<Prob>)
    requires Common(probs, 1024) && probs[0] == 1056 && probs[192] == 1024
    ensures Meets(probs, NearMatch(0), FIRST_PROBS)
  {
    CommonMeets(probs, 1024);
  }

  lemma SecondMeets(probs: seq<Prob>)
    requires Common(probs, 1056) && probs[112] == 1024 && probs[199] == 1024
    ensures Meets(probs, NearMatch(7), SECOND_PROBS)
  {
    CommonMeets(probs, 1056);
  }

  lemma ThirdMeets(probs: seq<Prob>)
    requires Common(probs, 1087) && probs[160] == 1024 && probs[202] == 1024
    requires probs[441] == 1024 && probs[451] == 1024 && probs[471] == 1024
    ensures Meets(probs, FarMatch(10), THIRD_PROBS)
  {
    CommonMeets(probs, 1087);
  }

  lemma AllDifferent()
    ensures Different(ZERO_BYTE) && Different(NearMatch(0)) && Different(NearMatch(7)) && Different(FarMatch(10))
  {
  }

  lemma Using(e: Interval, cs: seq<Choice>, ps: seq<Prob>, k: nat)
    requires e.Valid() && Different(cs) && Meets(e.probs, cs, ps) && k < |cs|
    ensures InRange(cs, |e.probs|) && cs[k].Adaptive? && cs[k].index < |e.probs|
    ensures Encode(e, cs).probs[cs[k].index] == Trained(e.probs[cs[k].index], cs[k].bit)
  {
    hide Encode, InRange;
    SpanOfChoices(e, cs, ps);
  }

  lemma Passing(e: Interval, cs: seq<Choice>, ps: seq<Prob>, i: nat)
    requires e.Valid() && Different(cs) && Meets(e.probs, cs, ps) && i < |e.probs|
    requires forall k :: 0 <= k < |cs| ==> cs[k].index != i
    ensures InRange(cs, |e.probs|) && Encode(e, cs).probs[i] == e.probs[i]
  {
    hide Encode, InRange;
    SpanOfChoices(e, cs, ps);
  }

  /** A match with slot 0 trains the probabilities of its length and slot. */
  lemma NearTrains(e: Interval, state: nat, ps: seq<Prob>, p: Prob)
    requires e.Valid() && (state == 0 || state == 7) && Meets(e.probs, NearMatch(state), ps) && Common(e.probs, p)
    ensures InRange(NearMatch(state), 2614) && Common(Encode(e, NearMatch(state)).probs, ProbUp(p))
  {
    hide Encode, InRange, Different, Meets, ProbUp, ProbDown, NearMatch;
    AllDifferent();
    CommonPart(state, 0);
    Using(e, NearMatch(state), ps, 0);
    forall k | 0 <= k < 10
      ensures COMMON[k] < 2614 && Encode(e, NearMatch(state)).probs[COMMON[k]] == ProbUp(p)
    {
      CommonPart(state, k);
      Using(e, NearMatch(state), ps, k + 2);
    }
  }

  lemma ByteStays(e: Interval, i: nat)
    requires e.Valid() && |e.probs| == 2614 && (forall j :: 0 <= j < 2614 ==> e.probs[j] == 1024) && 0 < i < 1846
    ensures InRange(ZERO_BYTE, 2614) && Encode(e, ZERO_BYTE).probs[i] == 1024 && Encode(e, ZERO_BYTE).probs[0] == 1056
  {
    hide Encode, InRange, Different;
    AllDifferent();
    ByteMeets(e.probs);
    assert ZERO_BYTE[0] == Adaptive(0, 0);
    Using(e, ZERO_BYTE, BYTE_PROBS, 0);
    Passing(e, ZERO_BYTE, BYTE_PROBS, i);
  }

  lemma SpanIs(e: Interval, cs: seq<Choice>, ps: seq<Prob>)
    requires e.Valid() && Different(cs) && Meets(e.probs, cs, ps)
    ensures InRange(cs, |e.probs|)
    ensures var f := Encode(e, cs);
            Span(f.low, f.range, f.shifts) == CutAll(Span(e.low, e.range, e.shifts), cs, ps)
  {
    hide Encode, InRange, CutAll;
    SpanOfChoices(e, cs, ps);
  }

  predicate Fresh(probs: seq<Prob>, indices: seq<nat>) {
    forall i <- indices :: i < |probs| && probs[i] == 1024
  }

  lemma AfterByte(e: Interval)
    requires e.low == 0 && e.range == 0xFFFF_FFFF && e.shifts == 0 && |e.probs| == 2614
    requires forall j :: 0 <= j < 2614 ==> e.probs[j] == 1024
    ensures e.Valid() && InRange(ZERO_BYTE, 2614)
    ensures var f := Encode(e, ZERO_BYTE);
            && Span(f.low, f.range, f.shifts) == Span(0, 2147352576, 1)
            && |f.probs| == 2614 && Common(f.probs, 1024) && f.probs[0] == 1056
            && Fresh(f.probs, [192, 112, 199, 160, 202, 441, 451, 471])
  {
    hide Encode, InRange, CutAll, Different, Meets;
    AllDifferent();
    ByteMeets(e.probs);
    SpanIs(e, ZERO_BYTE, BYTE_PROBS);
    ByteSpan();
    forall i | 0 < i < 1846
      ensures Encode(e, ZERO_BYTE).probs[i] == 1024 && Encode(e, ZERO_BYTE).probs[0] == 1056
    {
      ByteStays(e, i);
    }
    ByteStays(e, 1);
  }

  lemma AfterFirst(e: Interval)
    requires e.Valid() && Span(e.low, e.range, e.shifts) == Span(0, 2147352576, 1)
    requires |e.probs| == 2614 && Common(e.probs, 1024) && e.probs[0] == 1056
    requires Fresh(e.probs, [192, 112, 199, 160, 202, 441, 451, 471])
    ensures InRange(NearMatch(0), 2614)
    ensures var f := Encode(e, NearMatch(0));
            && Span(f.low, f.range, f.shifts) == Span(283450540032, 130015232, 2)
            && |f.probs| == 2614 && Common(f.probs, 1056) && Fresh(f.probs, [112, 199, 160, 202, 441, 451, 471])
  {
    hide Encode, InRange, CutAll, Different, Meets, Common;
    AllDifferent();
    assert e.probs[[192][0]] == 1024;
    FirstMeets(e.probs);
    SpanIs(e, NearMatch(0), FIRST_PROBS);
    FirstSpan();
    NearTrains(e, 0, FIRST_PROBS, 1024);
    forall i <- [112, 199, 160, 202, 441, 451, 471]
      ensures Encode(e, NearMatch(0)).probs[i] == 1024
    {
      Passing(e, NearMatch(0), FIRST_PROBS, i);
    }
  }

  lemma AfterSecond(e: Interval)
    requires e.Valid() && Span(e.low, e.range, e.shifts) == Span(283450540032, 130015232, 2)
    requires |e.probs| == 2614 && Common(e.probs, 1056) && Fresh(e.probs, [112, 199, 160, 202, 441, 451, 471])
    ensures InRange(NearMatch(7), 2614)
    ensures var f := Encode(e, NearMatch(7));
            && Span(f.low, f.range, f.shifts) == Span(72579980197888, 11053152, 3)
            && |f.probs| == 2614 && Common(f.probs, 1087) && Fresh(f.probs, [160, 202, 441, 451, 471])
  {
    hide Encode, InRange, CutAll, Different, Meets, Common;
    AllDifferent();
    SecondMeets(e.probs);
    SpanIs(e, NearMatch(7), SECOND_PROBS);
    SecondSpan();
    NearTrains(e, 7, SECOND_PROBS, 1056);
    forall i <- [160, 202, 441, 451, 471]
      ensures Encode(e, NearMatch(7)).probs[i] == 1024
    {
      Passing(e, NearMatch(7), SECOND_PROBS, i);
    }
  }

  lemma AfterThird(e: Interval)
    requires e.Valid() && Span(e.low, e.range, e.shifts) == Span(72579980197888, 11053152, 3)
    requires |e.probs| == 2614 && Common(e.probs, 1087) && Fresh(e.probs, [160, 202, 441, 451, 471])
    ensures InRange(FarMatch(10), 2614)
    ensures var f := Encode(e, FarMatch(10));
            Span(f.low, f.range, f.shifts) == Span(4756601948249321403, 237452357, 5)
  {
    hide Encode, InRange, CutAll, Different, Meets, Common;
    AllDifferent();
    ThirdMeets(e.probs);
    SpanIs(e, FarMatch(10), THIRD_PROBS);
    ThirdSpan();
  }

  lemma EdgeInterval(probs: seq<Prob>)
    requires |probs| == 2614 && forall j :: 0 <= j < 2614 ==> probs[j] == 1024
    ensures InRange(EdgeChoices(), 2614)
    ensures var f := Encode(Whole(probs), EdgeChoices());
            Span(f.low, f.range, f.shifts) == Span(4756601948249321403, 237452357, 5)
  {
    hide Encode, InRange, Common, Fresh, Interval.Valid, NearMatch, FarMatch;
    var e := Whole(probs);
    AfterByte(e);
    var e1 := Encode(e, ZERO_BYTE);
    AfterFirst(e1);
    var e2 := Encode(e1, NearMatch(0));
    AfterSecond(e2);
    var e3 := Encode(e2, NearMatch(7));
    AfterThird(e3);
    EncodeAppend(e2, NearMatch(7), FarMatch(10));
    EncodeAppend(e1, NearMatch(0), NearMatch(7) + FarMatch(10));
    EncodeAppend(e, ZERO_BYTE, NearMatch(0) + (NearMatch(7) + FarMatch(10)));
  }

  // ---------------------------------------------------------------------------------------
  // The packets, and the input.

  lemma InputDigits()
    ensures Digits(4756601948486773759, 9) == INPUT[1..]
  {
  }

  lemma {:induction false} TreeAppend(base: nat, m: nat, a: seq<Bit>, b: seq<Bit>)
    ensures TreeChoices(base, m, a + b) == TreeChoices(base, m, a) + TreeChoices(base, Node(m, a), b)
    decreases |a|
  {
    if a == [] {
      assert a + b == b;
    } else {
      assert (a + b)[1..] == a[1..] + b;
      TreeAppend(base, 2 * m + a[0], a[1..], b);
    }
  }

  lemma TwoBits(base: nat, m: nat, a: Bit, b: Bit)
    ensures TreeChoices(base, m, [a, b]) == [Adaptive(base + m, a), Adaptive(base + 2 * m + a, b)]
    ensures Node(m, [a, b]) == 4 * m + 2 * a + b
  {
    assert [a, b][1..] == [b] && [b][1..] == [];
    assert TreeChoices(base, 2 * m + a, [b]) == [Adaptive(base + 2 * m + a, b)] + [];
    assert Node(2 * m + a, [b]) == Node(4 * m + 2 * a + b, []);
  }

  lemma SixBits(base: nat, m: nat, a: Bit, b: Bit, c: Bit, d: Bit, e: Bit, f: Bit)
    ensures var n, k := 4 * m + 2 * a + b, 4 * (4 * m + 2 * a + b) + 2 * c + d;
            && TreeChoices(base, m, [a, b, c, d, e, f]) ==
               [Adaptive(base + m, a), Adaptive(base + 2 * m + a, b), Adaptive(base + n, c), Adaptive(base + 2 * n + c, d),
                Adaptive(base + k, e), Adaptive(base + 2 * k + e, f)]
            && Node(m, [a, b, c, d, e, f]) == 4 * k + 2 * e + f
  {
    hide TreeChoices, Node;
    var n, k := 4 * m + 2 * a + b, 4 * (4 * m + 2 * a + b) + 2 * c + d;
    TwoBits(base, m, a, b);
    TwoBits(base, n, c, d);
    TwoBits(base, k, e, f);
    TreeAppend(base, n, [c, d], [e, f]);
    TreeAppend(base, m, [a, b], [c, d] + [e, f]);
    NodeAppend(n, [c, d], [e, f]);
    NodeAppend(m, [a, b], [c, d] + [e, f]);
    assert [a, b] + ([c, d] + [e, f]) == [a, b, c, d, e, f];
  }

  lemma {:induction false} NodeAppend(m: nat, a: seq<Bit>, b: seq<Bit>)
    ensures Node(m, a + b) == Node(Node(m, a), b)
    decreases |a|
  {
    if a == [] {
      assert a + b == b;
    } else {
      assert (a + b)[1..] == a[1..] + b;
      NodeAppend(2 * m + a[0], a[1..], b);
    }
  }

  lemma SymbolBits()
    ensures HighBitsFirst(0, 3) == [0, 0] + [0]
    ensures HighBitsFirst(0, 6) == [0, 0, 0, 0, 0, 0] && HighBitsFirst(15, 6) == [0, 0, 1, 1, 1, 1]
    ensures HighBitsFirst(0, 8) == [0, 0, 0, 0, 0, 0] + [0, 0]
    ensures HighBitsFirst(2, 2) == [1] + [0]
  {
  }

  lemma ByteTreeIs()
    ensures [Adaptive(0, 0)] + TreeChoices(LITERAL, 1, HighBitsFirst(0, 8)) == ZERO_BYTE
  {
    hide TreeChoices, Node, HighBitsFirst;
    SymbolBits();
    SixBits(LITERAL, 1, 0, 0, 0, 0, 0, 0);
    TwoBits(LITERAL, 64, 0, 0);
    TreeAppend(LITERAL, 1, [0, 0, 0, 0, 0, 0], [0, 0]);
  }

  lemma LengthIs()
    ensures LengthChoices(LEN_CODER, 0, 0) == [Adaptive(818, 0), Adaptive(821, 0), Adaptive(822, 0), Adaptive(824, 0)]
  {
    hide TreeChoices, Node, HighBitsFirst;
    SymbolBits();
    TwoBits(820, 1, 0, 0);
    OneLast(820, 4, 0);
    TreeAppend(820, 1, [0, 0], [0]);
  }

  lemma OneLast(base: nat, m: nat, a: Bit)
    ensures TreeChoices(base, m, [a]) == [Adaptive(base + m, a)]
  {
    assert TreeChoices(base, m, [a]) == [Adaptive(base + m, a)] + [];
  }

  lemma SlotsAre()
    ensures SymbolChoices(POS_SLOT, 6, 0) ==
            [Adaptive(433, 0), Adaptive(434, 0), Adaptive(436, 0), Adaptive(440, 0), Adaptive(448, 0), Adaptive(464, 0)]
    ensures SymbolChoices(POS_SLOT, 6, 15) ==
            [Adaptive(433, 0), Adaptive(434, 0), Adaptive(436, 1), Adaptive(441, 1), Adaptive(451, 1), Adaptive(471, 1)]
  {
    hide TreeChoices, Node, HighBitsFirst;
    SymbolBits();
    SixBits(POS_SLOT, 1, 0, 0, 0, 0, 0, 0);
    SixBits(POS_SLOT, 1, 0, 0, 1, 1, 1, 1);
  }

  lemma MatchSlots()
    ensures SlotOf(0) == 0 && SlotOf(224) == 15 && SlotBase(15) == 192 && SlotBase(0) == 0
    ensures FooterChoices(0, 0) == []
    ensures [Direct(1)] <= FooterChoices(15, 32)
  {
    hide SlotOf, TreeChoices, LowBitsFirst, HighBitsFirst;
    Powers();
    SymbolBits();
    SlotUnique(0, 0);
    SlotUnique(224, 15);
    assert DirectChoices([1] + [0])[0] == Direct(1);
  }

  /** The machine after the byte and after each match. */
  const AFTER_BYTE := Lz(0, 1, 1, 1, 1, [0])
  const AFTER_FIRST := Lz(7, 1, 1, 1, 1, [0, 0, 0])
  const AFTER_SECOND := Lz(10, 1, 1, 1, 1, [0, 0, 0, 0, 0])

  lemma FirstBase()
    ensures INITIAL.LiteralBase(PROPS) == LITERAL && INITIAL.PosState(PROPS) == 0
  {
    Powers();
    assert Pow2(0) == 1;
  }

  lemma ByteIs()
    ensures PacketChoices(PROPS, INITIAL, Literal(0)) == ZERO_BYTE
  {
    hide TreeChoices, HighBitsFirst, Pow2, Lz.LiteralBase;
    ByteTreeIs();
    FirstBase();
  }

  lemma NearIs(lz: Lz)
    requires lz == AFTER_BYTE || lz == AFTER_FIRST
    ensures PacketChoices(PROPS, lz, Match(0, 0)) == NearMatch(lz.state)
  {
    hide SlotOf, SymbolChoices, FooterChoices, LengthChoices;
    LengthIs();
    SlotsAre();
    MatchSlots();
    assert Pow2(0) == 1;
  }

  lemma FarIs()
    ensures FarMatch(10) + [Direct(1)] <= PacketChoices(PROPS, AFTER_SECOND, Match(224, 0))
  {
    hide SlotOf, SymbolChoices, FooterChoices, LengthChoices;
    LengthIs();
    SlotsAre();
    MatchSlots();
    assert Pow2(0) == 1;
  }

  lemma CopyZeros(out: seq<Byte>, limit: nat)
    requires out == [0] || out == [0, 0, 0]
    requires |out| + 2 <= limit
    ensures Copy(out, 1, 2, limit) == out + [0, 0]
  {
    assert out + [0] + [0] == out + [0, 0];
    assert Copy(out + [0] + [0], 1, 0, limit) == out + [0] + [0];
    assert Copy(out + [0], 1, 1, limit) == out + [0] + [0];
  }

  /** The choices are those of a literal, two matches and the beginning of a third, whose next choice is a
      direct bit. */
  lemma EdgeIsLzma(limit: nat)
    requires limit > 5
    ensures Apply(INITIAL, Literal(0), limit) == Some(AFTER_BYTE)
    ensures Apply(AFTER_BYTE, Match(0, 0), limit) == Some(AFTER_FIRST)
    ensures Apply(AFTER_FIRST, Match(0, 0), limit) == Some(AFTER_SECOND)
    ensures EdgeChoices() ==
            PacketChoices(PROPS, INITIAL, Literal(0)) +
            (PacketChoices(PROPS, AFTER_BYTE, Match(0, 0)) + (PacketChoices(PROPS, AFTER_FIRST, Match(0, 0)) + FarMatch(10)))
    ensures FarMatch(10) + [Direct(1)] <= PacketChoices(PROPS, AFTER_SECOND, Match(224, 0))
  {
    hide PacketChoices, NearMatch, FarMatch, Copy;
    ByteIs();
    NearIs(AFTER_BYTE);
    NearIs(AFTER_FIRST);
    FarIs();
    CopyZeros([0], limit);
    CopyZeros([0, 0, 0], limit);
    assert INITIAL.out + [0] == [0] && [0] + [0, 0] == [0, 0, 0] && [0, 0, 0] + [0, 0] == [0, 0, 0, 0, 0];
  }

  /** On this input LzmaDecode follows those choices with Code below Range, and the direct bit leaves Code
      equal to Range. */
  lemma CodeReachesRange()
    ensures var probs := InitialProbs(PROPS);
            && Start(INPUT, probs).Some? && StaysBelow(INPUT, Start(INPUT, probs).value, EdgeChoices())
            && Replay(INPUT, Start(INPUT, probs).value, EdgeChoices()).Some?
            && var a := DecodeDirect(INPUT, Replay(INPUT, Start(INPUT, probs).value, EdgeChoices()).value);
               a.Answer? && a.value == 1 && a.rc.code == a.rc.range
  {
    hide Encode, Replay, StaysBelow, DecodeDirect, Start, Digits, EdgeChoices, Number;
    var probs := InitialProbs(PROPS);
    assert Pow2(0) == 1;
    EdgeInterval(probs);
    OddRangeLoses(probs, EdgeChoices());
    InputDigits();
    assert [0] + INPUT[1..] == INPUT;
  }
}
