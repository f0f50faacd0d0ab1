/**
 Canonical Huffman codes (RFC 1951, section 3.2.2): the assignment by next_code, the counting form
 the program uses, and why a set of lengths that is not over-subscribed decodes without ambiguity.
 */
module Huffman {
  import opened Wrappers
  import opened Bits

  const MAX_BITS := 15

  predicate Lengths(lens: seq<nat>) {
    forall i :: 0 <= i < |lens| ==> lens[i] <= MAX_BITS
  }

  // ---------------------------------------------------------------------------------------
  // The code of RFC 1951.

  /** bl_count: how many of the first n symbols have length l; length 0 is not counted. */
  function Count(lens: seq<nat>, l: nat, n: nat): nat
    requires n <= |lens|
  {
    if n == 0 then 0 else Count(lens, l, n - 1) + if lens[n - 1] == l && l > 0 then 1 else 0
  }

  function NextCode(lens: seq<nat>, l: nat): nat {
    if l == 0 then 0 else 2 * (NextCode(lens, l - 1) + Count(lens, l - 1, |lens|))
  }

  /** The codeword of symbol k, as the number its bits spell most significant first. */
  function Code(lens: seq<nat>, k: nat): nat
    requires k < |lens|
  {
    NextCode(lens, lens[k]) + Count(lens, lens[k], k)
  }

  // ---------------------------------------------------------------------------------------
  // The counting form.

  /** What the first n symbols add to a code of length l: 2^(l - length) for every shorter one. */
  function Shorter(lens: seq<nat>, l: nat, n: nat): nat
    requires n <= |lens|
  {
    if n == 0 then 0
    else Shorter(lens, l, n - 1) + if 0 < lens[n - 1] < l then Pow2(l - lens[n - 1]) else 0
  }

  lemma {:induction false} ShorterStep(lens: seq<nat>, l: nat, n: nat)
    requires l > 0 && n <= |lens|
    ensures Shorter(lens, l, n) == 2 * (Shorter(lens, l - 1, n) + Count(lens, l - 1, n))
  {
    if n > 0 {
      ShorterStep(lens, l, n - 1);
    }
  }

  lemma {:induction false} ShorterIsNextCode(lens: seq<nat>, l: nat)
    ensures Shorter(lens, l, |lens|) == NextCode(lens, l)
  {
    if l == 0 {
      NothingShorter(lens, |lens|);
    } else {
      ShorterStep(lens, l, |lens|);
      ShorterIsNextCode(lens, l - 1);
    }
  }

  lemma {:induction false} NothingShorter(lens: seq<nat>, n: nat)
    requires n <= |lens|
    ensures Shorter(lens, 0, n) == 0
  {
    if n > 0 {
      NothingShorter(lens, n - 1);
    }
  }

  // ---------------------------------------------------------------------------------------
  // Codewords as intervals of 15-bit strings.

  /** How many 15-bit strings begin with a codeword of this length. */
  function Weight(length: nat): nat {
    if 0 < length <= MAX_BITS then Pow2(MAX_BITS - length) else 0
  }

  /** Canonical order: by length, then by symbol. */
  predicate Precedes(lens: seq<nat>, j: nat, k: nat)
    requires j < |lens| && k < |lens|
  {
    0 < lens[j] && (lens[j] < lens[k] || (lens[j] == lens[k] && j < k))
  }

  /** Total weight of the symbols among the first n that precede k. */
  function Before(lens: seq<nat>, k: nat, n: nat): nat
    requires n <= |lens| && k < |lens|
  {
    if n == 0 then 0
    else Before(lens, k, n - 1) + if Precedes(lens, n - 1, k) then Weight(lens[n - 1]) else 0
  }

  function Kraft(lens: seq<nat>, n: nat): nat
    requires n <= |lens|
  {
    if n == 0 then 0 else Kraft(lens, n - 1) + Weight(lens[n - 1])
  }

  /** Lengths that some prefix code has: not over-subscribed. */
  predicate Valid(lens: seq<nat>) {
    Lengths(lens) && Kraft(lens, |lens|) <= Pow2(MAX_BITS)
  }

  lemma {:induction false} KraftRepeated(lens: seq<nat>, lo: nat, hi: nat, l: nat)
    requires lo <= hi <= |lens| && forall i :: lo <= i < hi ==> lens[i] == l
    ensures Kraft(lens, hi) == Kraft(lens, lo) + (hi - lo) * Weight(l)
    decreases hi
  {
    if lo < hi {
      KraftRepeated(lens, lo, hi - 1, l);
      MulSum(hi - 1 - lo, 1, Weight(l));
    }
  }

  lemma KraftNone(lens: seq<nat>)
    ensures Kraft(lens, 0) == 0
  {
  }

  lemma SomeWeights()
    ensures Weight(0) == 0 && Weight(1) == 16384 && Weight(2) == 8192 && Weight(5) == 1024
    ensures Weight(7) == 256 && Weight(8) == 128 && Weight(9) == 64 && Pow2(MAX_BITS) == 32768
  {
    assert Pow2(6) == 64;
    assert Pow2(10) == 1024;
    assert Pow2(13) == 8192;
  }

  lemma {:induction false} BeforeIsCode(lens: seq<nat>, k: nat, n: nat)
    requires Lengths(lens) && k < |lens| && n <= |lens| && lens[k] > 0
    ensures Before(lens, k, n) ==
            (Shorter(lens, lens[k], n) + Count(lens, lens[k], if n <= k then n else k)) * Weight(lens[k])
  {
    if n > 0 {
      hide Pow2, Weight;
      BeforeIsCode(lens, k, n - 1);
      var l, m := lens[k], lens[n - 1];
      var shorter, count := Shorter(lens, l, n - 1), Count(lens, l, if n <= k then n - 1 else k);
      if 0 < m < l {
        WeightOfShorter(m, l);
        Distribute(shorter, count, Pow2(l - m), Weight(l));
      } else {
        Distribute(shorter, count, 1, Weight(l));
      }
    }
  }

  lemma WeightOfShorter(m: nat, l: nat)
    requires 0 < m < l <= MAX_BITS
    ensures Weight(m) == Pow2(l - m) * Weight(l)
  {
    Pow2Add(l - m, MAX_BITS - l);
  }

  lemma Distribute(a: nat, b: nat, c: nat, w: nat)
    ensures (a + b + c) * w == (a + b) * w + c * w
  {
  }

  lemma StartOfCode(lens: seq<nat>, k: nat)
    requires Lengths(lens) && k < |lens| && lens[k] > 0
    ensures Before(lens, k, |lens|) == Code(lens, k) * Weight(lens[k])
  {
    BeforeIsCode(lens, k, |lens|);
    ShorterIsNextCode(lens, lens[k]);
  }

  lemma {:induction false} BeforeNested(lens: seq<nat>, j: nat, k: nat, n: nat)
    requires Lengths(lens) && j < |lens| && k < |lens| && n <= |lens| && Precedes(lens, j, k)
    ensures Before(lens, j, n) + (if j < n then Weight(lens[j]) else 0) <= Before(lens, k, n)
  {
    if n > 0 {
      BeforeNested(lens, j, k, n - 1);
    }
  }

  lemma {:induction false} BeforeBounded(lens: seq<nat>, k: nat, n: nat)
    requires Lengths(lens) && k < |lens| && n <= |lens| && lens[k] > 0
    ensures Before(lens, k, n) + (if k < n then Weight(lens[k]) else 0) <= Kraft(lens, n)
  {
    if n > 0 {
      BeforeBounded(lens, k, n - 1);
    }
  }

  /** A 15-bit string, read most significant bit first, that begins with the codeword of k. */
  predicate Covers(lens: seq<nat>, k: nat, v: nat)
    requires k < |lens|
  {
    lens[k] > 0 && Before(lens, k, |lens|) <= v < Before(lens, k, |lens|) + Weight(lens[k])
  }

  lemma CoverUnique(lens: seq<nat>, j: nat, k: nat, v: nat)
    requires Lengths(lens) && j < |lens| && k < |lens| && Covers(lens, j, v) && Covers(lens, k, v)
    ensures j == k
  {
    if Precedes(lens, j, k) {
      BeforeNested(lens, j, k, |lens|);
    } else if Precedes(lens, k, j) {
      BeforeNested(lens, k, j, |lens|);
    }
  }

  /** Codes of a valid set fit their lengths. */
  lemma CodeFits(lens: seq<nat>, k: nat)
    requires Valid(lens) && k < |lens| && lens[k] > 0
    ensures Code(lens, k) < Pow2(lens[k])
  {
    StartOfCode(lens, k);
    BeforeBounded(lens, k, |lens|);
    Pow2Add(lens[k], MAX_BITS - lens[k]);
    var w := Weight(lens[k]);
    if Code(lens, k) >= Pow2(lens[k]) {
      MulMonotone(Pow2(lens[k]), Code(lens, k), w);
    }
  }

  // ---------------------------------------------------------------------------------------
  // Bit order.

  /** The low n bits of v in reverse order. */
  function Reverse(v: nat, n: nat): (r: nat)
    ensures r < Pow2(n)
  {
    if n == 0 then 0 else v % 2 * Pow2(n - 1) + Reverse(v / 2, n - 1)
  }

  /** v without its low n bits. */
  function Above(v: nat, n: nat): nat {
    DivisionTheorem(v, Pow2(n));
    v / Pow2(n)
  }

  lemma ReverseStep(v: nat, n: nat)
    ensures Reverse(v, n) == if n == 0 then 0 else v % 2 * Pow2(n - 1) + Reverse(v / 2, n - 1)
  {
  }

  lemma {:induction false} ReverseSplit(v: nat, m: nat, n: nat)
    ensures Reverse(v, m + n) == Reverse(v, m) * Pow2(n) + Reverse(Above(v, m), n)
    decreases m
  {
    hide Pow2, Reverse;
    Pow2Step(m);
    ReverseStep(v, m);
    if m > 0 {
      ReverseStep(v, m + n);
      assert m + n - 1 == m - 1 + n;
      ReverseSplit(v / 2, m - 1, n);
      DivTwice(v, Pow2(m - 1));
      Pow2Add(m - 1, n);
      MulOver(v % 2, Pow2(m - 1), Reverse(v / 2, m - 1), Pow2(n));
    } else {
      assert v / 1 == v;
    }
  }

  lemma Pow2Step(n: nat)
    ensures Pow2(n) == if n == 0 then 1 else 2 * Pow2(n - 1)
  {
  }

  lemma MulOver(b: nat, p: nat, r: nat, q: nat)
    ensures (b * p + r) * q == b * (p * q) + r * q
  {
    MulSum(b * p, r, q);
    assert (b * p) * q == b * (p * q);
  }

  lemma DivTwice(v: nat, p: nat)
    requires p > 0
    ensures v / 2 / p == v / (2 * p)
    ensures v / 2 % p * 2 + v % 2 == v % (2 * p)
  {
    DivisionTheorem(v / 2, p);
    var q: nat, r: nat := v / 2 / p, v / 2 % p;
    MulDouble(q, p);
    DivModUnique(2 * p, q, 2 * r + v % 2);
  }

  /** Only the low n bits matter. */
  lemma {:induction false} ReverseLow(v: nat, n: nat)
    ensures Reverse(v % Pow2(n), n) == Reverse(v, n)
  {
    hide Pow2, Reverse;
    ReverseStep(v, n);
    Pow2Step(n);
    ReverseStep(v % Pow2(n), n);
    if n > 0 {
      var p := Pow2(n - 1);
      DivTwice(v, p);
      assert v % Pow2(n) / 2 == v / 2 % p && v % Pow2(n) % 2 == v % 2;
      ReverseLow(v / 2, n - 1);
    }
  }

  lemma {:induction false} ReverseTwice(v: nat, n: nat)
    ensures Reverse(Reverse(v, n), n) == v % Pow2(n)
  {
    if n > 0 {
      hide Pow2, Reverse;
      var p := Pow2(n - 1);
      var low := Reverse(v / 2, n - 1);
      var r := v % 2 * p + low;
      Pow2Step(n);
      DivTwice(v, p);
      DivModUnique(p, v % 2, low);
      ReverseStep(v, n);
      assert n - 1 + 1 == n;
      ReverseSplit(r, n - 1, 1);
      ReverseLow(r, n - 1);
      ReverseTwice(v / 2, n - 1);
      ReverseOne(v % 2);
    }
  }

  lemma ReverseOne(b: nat)
    requires b < 2
    ensures Reverse(b, 1) == b && Pow2(1) == 2
  {
  }

  // ---------------------------------------------------------------------------------------
  // Decoding one symbol from a window of the bit stream.

  /** The stream, whose next bits are `window`, first bit least significant, begins with k's codeword. */
  predicate Matches(lens: seq<nat>, k: nat, window: nat)
    requires k < |lens|
  {
    lens[k] > 0 && window % Pow2(lens[k]) == Reverse(Code(lens, k), lens[k])
  }

  lemma MatchIsCover(lens: seq<nat>, k: nat, window: nat)
    requires Valid(lens) && k < |lens|
    ensures Matches(lens, k, window) <==> Covers(lens, k, Reverse(window, MAX_BITS))
  {
    if lens[k] > 0 {
      hide Reverse, Code, Before, Pow2;
      assert lens[k] <= MAX_BITS;
      StartOfCode(lens, k);
      CodeFits(lens, k);
      FrontIsCode(window, Code(lens, k), lens[k]);
    }
  }

  /** What follows the first n bits of a window stays below their weight. */
  lemma Front(window: nat, n: nat) returns (rest: nat)
    requires 0 < n <= MAX_BITS
    ensures rest < Weight(n) && Reverse(window, MAX_BITS) == Reverse(window, n) * Weight(n) + rest
  {
    hide Reverse, Pow2;
    ReverseSplit(window, n, MAX_BITS - n);
    assert n + (MAX_BITS - n) == MAX_BITS;
    rest := Reverse(window / Pow2(n), MAX_BITS - n);
  }

  /** A window's first n bits spell `code` exactly when its 15 bits fall in the code's interval. */
  lemma FrontIsCode(window: nat, code: nat, n: nat)
    requires 0 < n <= MAX_BITS && code < Pow2(n)
    ensures window % Pow2(n) == Reverse(code, n) <==>
            code * Weight(n) <= Reverse(window, MAX_BITS) < code * Weight(n) + Weight(n)
  {
    hide Reverse, Pow2, Weight;
    var rest := Front(window, n);
    InInterval(code, Reverse(window, n), rest, Weight(n));
    ReverseGalois(window, code, n);
  }

  lemma ReverseGalois(v: nat, code: nat, n: nat)
    requires code < Pow2(n)
    ensures v % Pow2(n) == Reverse(code, n) <==> Reverse(v, n) == code
  {
    hide Reverse, Pow2;
    ReverseTwice(v, n);
    ReverseTwice(code, n);
    ReverseLow(v, n);
    SmallMod(code, Pow2(n));
  }

  lemma SmallMod(a: nat, m: nat)
    requires a < m
    ensures a % m == a
  {
  }

  lemma InInterval(a: nat, b: nat, r: nat, w: nat)
    requires r < w
    ensures a * w <= b * w + r < a * w + w <==> a == b
  {
    MulSum(a, 1, w);
    MulSum(b, 1, w);
    if a < b {
      MulMonotone(a + 1, b, w);
    } else if b < a {
      MulMonotone(b + 1, a, w);
    }
  }

  /** No window begins with two codewords, so the order of a search does not matter. */
  lemma MatchUnique(lens: seq<nat>, j: nat, k: nat, window: nat)
    requires Valid(lens) && j < |lens| && k < |lens| && Matches(lens, j, window) && Matches(lens, k, window)
    ensures j == k
  {
    MatchIsCover(lens, j, window);
    MatchIsCover(lens, k, window);
    CoverUnique(lens, j, k, Reverse(window, MAX_BITS));
  }

  lemma TopPart(code: nat, p: nat, w: nat)
    requires p > 0 && w > 0
    ensures code / p * (p * w) <= code * w < code / p * (p * w) + p * w
  {
    DivisionTheorem(code, p);
    var q: nat, r: nat := code / p, code % p;
    MulOver(q, p, r, w);
    MulMonotone(r + 1, p, w);
    MulSum(r, 1, w);
  }

  /** The code is prefix-free: no codeword begins another. */
  lemma PrefixFree(lens: seq<nat>, j: nat, k: nat)
    requires Valid(lens) && j < |lens| && k < |lens| && j != k && 0 < lens[j] <= lens[k]
    ensures Code(lens, k) / Pow2(lens[k] - lens[j]) != Code(lens, j)
  {
    hide Code, Before, Kraft, Pow2, Reverse;
    var code, d := Code(lens, k), lens[k] - lens[j];
    StartOfCode(lens, j);
    StartOfCode(lens, k);
    Pow2Add(d, MAX_BITS - lens[k]);
    assert d + (MAX_BITS - lens[k]) == MAX_BITS - lens[j];
    TopPart(code, Pow2(d), Weight(lens[k]));
    if code / Pow2(d) == Code(lens, j) {
      CoverUnique(lens, j, k, code * Weight(lens[k]));
    }
  }

  /** The first symbol from i on whose codeword begins the window. */
  function Find(lens: seq<nat>, window: nat, i: nat): (r: Option<nat>)
    requires i <= |lens|
    ensures r.Some? ==> i <= r.value < |lens| && Matches(lens, r.value, window)
    ensures r.None? ==> forall k :: i <= k < |lens| ==> !Matches(lens, k, window)
    decreases |lens| - i
  {
    if i == |lens| then None
    else if Matches(lens, i, window) then Some(i)
    else Find(lens, window, i + 1)
  }

  function Symbol(lens: seq<nat>, window: nat): (r: Option<nat>)
    ensures r.Some? ==> r.value < |lens| && Matches(lens, r.value, window)
  {
    Find(lens, window, 0)
  }

  /** Whatever finds a matching symbol finds the one the linear search finds. */
  lemma SymbolOfMatch(lens: seq<nat>, k: nat, window: nat)
    requires Valid(lens) && k < |lens| && Matches(lens, k, window)
    ensures Symbol(lens, window) == Some(k)
  {
    MatchUnique(lens, k, Find(lens, window, 0).value, window);
  }
}
