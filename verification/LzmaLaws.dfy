/**
 What the decoder's state, distances and contexts mean, said without the functions that compute them:
 the encoder uses the same functions, so the round trips alone do not fix them.
 */
module LzmaLaws {
  import opened Wrappers
  import opened Bits
  import opened RangeCoder
  import opened LzmaModel
  import opened LzmaCoding
  import opened LzmaStream
  import opened Lz77

  // ---------------------------------------------------------------------------------------
  // The state: the kinds of the latest packets.

  /** How many literals the packets end with. */
  function Trailing(ps: seq<Packet>): (t: nat)
    ensures t <= |ps|
    decreases |ps|
  {
    if ps == [] || !ps[|ps| - 1].Literal? then 0 else 1 + Trailing(ps[..|ps| - 1])
  }

  /** The packets come to a packet that is no literal, right after another such packet. */
  predicate Again(ps: seq<Packet>) {
    |ps| >= 2 && !ps[|ps| - 1].Literal? && !ps[|ps| - 2].Literal?
  }

  /** The state that the last packet that is no literal stands for, and the literals after it. */
  function Meaning(ps: seq<Packet>): nat {
    var t := Trailing(ps);
    var front := ps[..|ps| - t];
    if front == [] || t >= 3 then 0
    else
      var p, again := front[|front| - 1], Again(front);
      match t
      case 0 => if p.Match? then (if again then 10 else 7) else if again then 11 else if p.ShortRep? then 9 else 8
      case 1 => if p.Match? then 4 else if p.ShortRep? && !again then 6 else 5
      case _ => if p.Match? then 1 else if p.ShortRep? && !again then 3 else 2
  }

  lemma TrailingStep(ps: seq<Packet>, p: Packet)
    ensures Trailing(ps + [p]) == if p.Literal? then 1 + Trailing(ps) else 0
    ensures (ps + [p])[..|ps + [p]| - Trailing(ps + [p])] == if p.Literal? then ps[..|ps| - Trailing(ps)] else ps + [p]
  {
    assert (ps + [p])[..|ps|] == ps;
  }

  /** The front never ends with a literal. */
  lemma {:induction false} FrontEnds(ps: seq<Packet>)
    ensures var front := ps[..|ps| - Trailing(ps)]; front != [] ==> !front[|front| - 1].Literal?
    ensures Trailing(ps) == 0 <==> ps == [] || !ps[|ps| - 1].Literal?
    decreases |ps|
  {
    if ps != [] && ps[|ps| - 1].Literal? {
      var rest := ps[..|ps| - 1];
      FrontEnds(rest);
      assert ps[..|ps| - Trailing(ps)] == rest[..|rest| - Trailing(rest)];
    }
  }

  lemma MeaningStep(lz: Lz, ps: seq<Packet>, p: Packet, limit: nat)
    requires lz.Valid() && p.Valid() && !p.IsEnd() && |lz.out| < limit && Apply(lz, p, limit).Some?
    requires lz.state == Meaning(ps)
    ensures Apply(lz, p, limit).value.state == Meaning(ps + [p])
  {
    hide Copy, Rotate;
    TrailingStep(ps, p);
    FrontEnds(ps);
    if !p.Literal? && ps != [] {
      assert (ps + [p])[|ps| - 1] == ps[|ps| - 1];
    }
  }

  lemma {:induction false} StateFrom(lz: Lz, done: seq<Packet>, ps: seq<Packet>, limit: nat)
    requires lz.Valid() && lz.state == Meaning(done) && Plays(lz, ps, limit)
    ensures Expand(lz, ps, limit).state == Meaning(done + ps)
    decreases |ps|
  {
    hide Apply, Meaning;
    if ps == [] {
      assert done + ps == done;
    } else {
      MeaningStep(lz, done, ps[0], limit);
      StateFrom(Apply(lz, ps[0], limit).value, done + [ps[0]], ps[1..], limit);
      assert done + [ps[0]] + ps[1..] == done + ps;
    }
  }

  /** After any packets from the start, the state tells the last packet that is no literal, whether it
      followed another, and how many literals came after it, up to three. */
  lemma StateMeans(ps: seq<Packet>, limit: nat)
    requires Plays(INITIAL, ps, limit)
    ensures Expand(INITIAL, ps, limit).state == Meaning(ps)
  {
    hide Meaning;
    MeaningOfNothing();
    StateFrom(INITIAL, [], ps, limit);
    assert [] + ps == ps;
  }

  lemma MeaningOfNothing()
    ensures Meaning([]) == 0
  {
  }

  // ---------------------------------------------------------------------------------------
  // What a packet does to the output and the repeat distances.

  function Reps(lz: Lz): seq<nat> { [lz.rep0, lz.rep1, lz.rep2, lz.rep3] }

  /** The distance a copying packet uses. */
  function Used(lz: Lz, p: Packet): nat
    requires p.Valid() && !p.Literal?
  {
    match p
    case ShortRep => Reps(lz)[0]
    case Rep(w, _) => Reps(lz)[w]
    case Match(d, _) => d + 1
  }

  /** From place n on, every byte is the one `distance` before it. */
  predicate Repeats(out: seq<Byte>, n: nat, distance: nat) {
    distance <= n && forall i :: n <= i < |out| ==> out[i] == out[i - distance]
  }

  lemma CopyIs(out: seq<Byte>, distance: nat, n: nat, limit: nat)
    requires 1 <= distance <= |out|
    ensures Repeats(Copy(out, distance, n, limit), |out|, distance)
  {
    hide Copy;
    CopyRepeats(out, distance, n, limit);
  }

  lemma ShortIs(out: seq<Byte>, distance: nat)
    requires 1 <= distance <= |out|
    ensures Repeats(out + [out[|out| - distance]], |out|, distance)
  {
  }

  /** A packet is refused exactly when it copies from before the output.  A literal appends its byte; a copy
      appends its coded length plus 2 bytes, a short one 1 byte, cut at the limit, each equal to the byte one
      distance before it. */
  lemma OutputMeans(lz: Lz, p: Packet, limit: nat)
    requires lz.Valid() && p.Valid() && !p.IsEnd() && |lz.out| < limit
    ensures Apply(lz, p, limit) == None <==> !p.Literal? && (lz.out == [] || Used(lz, p) > |lz.out|)
    ensures p.Literal? ==> Apply(lz, p, limit).value.out == lz.out + [p.byte]
    ensures !p.Literal? && Apply(lz, p, limit).Some? ==>
              var out := Apply(lz, p, limit).value.out;
              var n := if p.ShortRep? then 1 else p.length + 2;
              && lz.out <= out && |out| == (if |lz.out| + n <= limit then |lz.out| + n else limit)
              && Repeats(out, |lz.out|, Used(lz, p))
  {
    hide Copy, Repeats;
    if !p.Literal? && Apply(lz, p, limit).Some? {
      if p.ShortRep? {
        ShortIs(lz.out, lz.rep0);
      } else {
        CopyIs(lz.out, Used(lz, p), p.length + 2, limit);
      }
    }
  }

  /** A match puts its distance in front and drops the last one; a repeat moves the chosen distance to the
      front, those before it keep their order behind it, and those after it stay. */
  lemma RepsMean(lz: Lz, p: Packet, limit: nat)
    requires lz.Valid() && p.Valid() && !p.IsEnd() && |lz.out| < limit && Apply(lz, p, limit).Some?
    ensures var was, now := Reps(lz), Reps(Apply(lz, p, limit).value);
            match p
            case Match(d, _) => now == [d + 1] + was[..3]
            case Rep(w, _) => now == [was[w]] + was[..w] + was[w + 1..]
            case _ => now == was
  {
    hide Copy;
  }

  // ---------------------------------------------------------------------------------------
  // Slots.

  /** A slot is twice the place of the distance's highest bit, plus the bit below it. */
  lemma SlotMeans(distance: nat, k: nat, second: Bit)
    requires k >= 1 && distance <= END_DISTANCE
    requires (2 + second) * Pow2(k - 1) <= distance < (2 + second) * Pow2(k - 1) + Pow2(k - 1)
    ensures SlotOf(distance) == 2 * k + second
  {
    hide SlotOf, Pow2;
    Powers();
    SlotAt(k, second);
    SlotUnique(distance, 2 * k + second);
  }

  lemma SlotAt(k: nat, second: Bit)
    requires k >= 1
    ensures SlotBase(2 * k + second) == (2 + second) * Pow2(k - 1) && SlotWidth(2 * k + second) == Pow2(k - 1)
  {
    assert (2 * k + second) / 2 == k && (2 * k + second) % 2 == second;
    assert Pow2(0) == 1;
  }

  /** Distances 0 and 1 are their own slots, and every other one has a highest bit. */
  lemma SlotOfAny(distance: nat) returns (k: nat, second: Bit)
    requires distance <= END_DISTANCE
    ensures distance < 2 ==> SlotOf(distance) == distance
    ensures distance >= 2 ==> k >= 1 && SlotOf(distance) == 2 * k + second
    ensures distance >= 2 ==> (2 + second) * Pow2(k - 1) <= distance < (2 + second) * Pow2(k - 1) + Pow2(k - 1)
  {
    hide SlotOf, Pow2;
    k, second := 0, 0;
    if distance < 2 {
      SlotUnique(distance, distance);
    } else {
      var top := HighestBit(distance);
      k := top;
      second := if distance < 3 * Pow2(k - 1) then 0 else 1;
      SlotMeans(distance, k, second);
    }
  }

  lemma {:induction false} HighestBit(n: nat) returns (k: nat)
    requires n >= 2
    ensures k >= 1 && 2 * Pow2(k - 1) <= n < 4 * Pow2(k - 1)
    decreases n
  {
    if n < 4 {
      k := 1;
      assert Pow2(0) == 1;
    } else {
      var h := HighestBit(n / 2);
      k := h + 1;
      assert Pow2(h) == 2 * Pow2(h - 1);
    }
  }
}
