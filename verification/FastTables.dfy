/**
 The two-level fast table of inflate_codes: 256 first-level entries by the next 8 bits, and up to 64
 groups of 8 second-level entries for codes of 9 to 11 bits.  An entry is a symbol plus 512 times
 its length; 0xffff is empty, and 0x8000 plus an offset names a group.
 */
module FastTables {
  import opened Wrappers
  import opened Bits
  import opened Huffman
  import opened HuffmanTables

  const EMPTY := 0xffff
  const GROUP := 0x8000
  const MAX_GROUPS := 64

  /** An entry is a symbol with a codeword of an allowed length that begins the window. */
  predicate EntryOk(lens: seq<nat>, e: nat, window: nat, minLength: nat, maxLength: nat) {
    var s := e % 512;
    s < |lens| && lens[s] == e / 512 && minLength <= lens[s] <= maxLength && Matches(lens, s, window)
  }

  /** First level: short entries are right for their index, group entries name the index's group. */
  predicate FirstOk(lens: seq<nat>, ftl: seq<nat>, owner: seq<nat>) {
    |ftl| == 256 && forall c :: 0 <= c < 256 ==> FirstEntryOk(lens, ftl[c], c, owner)
  }

  predicate FirstEntryOk(lens: seq<nat>, e: nat, c: nat, owner: seq<nat>) {
    if e < GROUP then EntryOk(lens, e, c, 1, 8)
    else e == EMPTY || (e < GROUP + 8 * |owner| && e % 8 == 0 && owner[(e - GROUP) / 8] == c)
  }

  /** Second level: owner[g] is the low byte shared by the codewords of group g. */
  predicate SecondOk(lens: seq<nat>, ftlex: seq<nat>, owner: seq<nat>) {
    && |ftlex| == 512 && |owner| <= MAX_GROUPS
    && forall n :: 0 <= n < 512 ==> SecondEntryOk(lens, ftlex[n], n, owner)
  }

  predicate SecondEntryOk(lens: seq<nat>, e: nat, n: nat, owner: seq<nat>) {
    e == EMPTY || (n / 8 < |owner| && EntryOk(lens, e, owner[n / 8] + 256 * (n % 8), 9, 11))
  }

  /** Every code of at most 8 bits among the first n symbols is in the first level, wherever it can occur. */
  predicate ShortComplete(lens: seq<nat>, ftl: seq<nat>, n: nat)
    requires |ftl| == 256 && n <= |lens|
  {
    forall s, c :: 0 <= s < n && 0 <= c < 256 && lens[s] <= 8 && Matches(lens, s, c) ==> ftl[c] == s + 512 * lens[s]
  }

  /** The lookup of inflate_codes on the next bits; the slow search where the tables say nothing. */
  function Lookup(lens: seq<nat>, ftl: seq<nat>, ftlex: seq<nat>, window: nat): Option<nat>
    requires |ftl| == 256 && |ftlex| == 512 && forall c :: 0 <= c < 256 && GROUP <= ftl[c] != EMPTY ==> ftl[c] < GROUP + 505
  {
    var first := ftl[window % 256];
    if first < GROUP then Some(first % 512)
    else if first == EMPTY then Symbol(lens, window)
    else
      var second := ftlex[first - GROUP + window % 2048 / 256];
      if second != EMPTY then Some(second % 512) else Symbol(lens, window)
  }

  lemma MatchesLow(lens: seq<nat>, s: nat, window: nat, m: nat)
    requires s < |lens| && lens[s] <= m
    ensures Matches(lens, s, window % Pow2(m)) <==> Matches(lens, s, window)
  {
    if lens[s] > 0 {
      Pow2Add(lens[s], m - lens[s]);
      ModOfMod(window, Pow2(lens[s]), Pow2(m - lens[s]));
    }
  }

  lemma Windows()
    ensures Pow2(3) == 8 && Pow2(8) == 256 && Pow2(9) == 512 && Pow2(11) == 2048 && Pow2(15) == 0x8000
  {
    assert Pow2(4) == 16;
    assert Pow2(8) == 256;
    assert Pow2(12) == 4096;
  }

  lemma EntryDecides(lens: seq<nat>, e: nat, window: nat, low: nat, m: nat, minLength: nat, maxLength: nat)
    requires Valid(lens) && low == window % Pow2(m) && maxLength <= m && EntryOk(lens, e, low, minLength, maxLength)
    ensures Symbol(lens, window) == Some(e % 512)
  {
    hide Matches, Symbol, Valid, Pow2;
    MatchesLow(lens, e % 512, window, m);
    SymbolOfMatch(lens, e % 512, window);
  }

  lemma GroupOffsets(lens: seq<nat>, ftl: seq<nat>, owner: seq<nat>)
    requires FirstOk(lens, ftl, owner) && |owner| <= MAX_GROUPS
    ensures forall c :: 0 <= c < 256 && GROUP <= ftl[c] != EMPTY ==> ftl[c] < GROUP + 505
  {
    forall c | 0 <= c < 256 && GROUP <= ftl[c] != EMPTY
      ensures ftl[c] < GROUP + 505
    {
      assert FirstEntryOk(lens, ftl[c], c, owner);
    }
  }

  /** The fast lookup refines the linear search, on every window: also one that begins with no
      codeword, and also past the 64-group limit, where the tables fall back to the search. */
  lemma LookupRefinesSearch(lens: seq<nat>, ftl: seq<nat>, ftlex: seq<nat>, owner: seq<nat>, window: nat)
    requires Valid(lens) && FirstOk(lens, ftl, owner) && SecondOk(lens, ftlex, owner)
    ensures forall c :: 0 <= c < 256 && GROUP <= ftl[c] != EMPTY ==> ftl[c] < GROUP + 505
    ensures Lookup(lens, ftl, ftlex, window) == Symbol(lens, window)
  {
    hide Symbol, Valid, Pow2, EntryOk;
    Windows();
    GroupOffsets(lens, ftl, owner);
    var c := window % 256;
    var first := ftl[c];
    assert FirstEntryOk(lens, first, c, owner);
    if first < GROUP {
      EntryDecides(lens, first, window, c, 8, 1, 8);
    } else if first != EMPTY {
      var g := (first - GROUP) / 8;
      var x := window % 2048 / 256;
      var n := 8 * g + x;
      assert first == GROUP + 8 * g && n / 8 == g && n % 8 == x;
      assert SecondEntryOk(lens, ftlex[n], n, owner);
      if ftlex[n] != EMPTY {
        EntryDecides(lens, ftlex[n], window, c + 256 * x, 11, 9, 11);
      }
    }
  }

  /** The windows that begin with a codeword are the codeword with anything above it. */
  lemma MatchesStretched(lens: seq<nat>, k: nat, t: nat, j: nat)
    requires k < |lens| && lens[k] > 0 && t == Reverse(Code(lens, k), lens[k])
    ensures Or(t, j * Pow2(lens[k])) == t + j * Pow2(lens[k])
    ensures Matches(lens, k, t + j * Pow2(lens[k])) && (t + j * Pow2(lens[k])) / Pow2(lens[k]) == j
  {
    OrShifted(t, j, lens[k]);
    DivModUnique(Pow2(lens[k]), j, t);
  }

  /** What filling in a code does to a level whose entries stand for the windows base, base + step, .. */
  predicate Filled(lens: seq<nat>, i: nat, entry: nat, before: seq<nat>, after: seq<nat>)
    requires i < |lens|
  {
    |before| == |after| &&
    forall c :: 0 <= c < |after| ==> after[c] == if Matches(lens, i, c) then entry else before[c]
  }

  /** Windows that begin with k's codeword and have fewer than j above it. */
  predicate Below(lens: seq<nat>, k: nat, c: nat, j: nat)
    requires k < |lens|
  {
    Matches(lens, k, c) && c / Pow2(lens[k]) < j
  }

  lemma BelowStep(lens: seq<nat>, k: nat, t: nat, j: nat, c: nat)
    requires k < |lens| && lens[k] > 0 && t == Reverse(Code(lens, k), lens[k])
    ensures Below(lens, k, c, j + 1) <==> Below(lens, k, c, j) || c == t + j * Pow2(lens[k])
    ensures !Below(lens, k, c, 0)
  {
    hide Reverse, Code, Pow2;
    DivModIff(c, Pow2(lens[k]), j, t);
  }

  lemma BelowAll(lens: seq<nat>, k: nat, c: nat, m: nat)
    requires k < |lens| && 0 < lens[k] <= m && c < Pow2(m)
    ensures Below(lens, k, c, Pow2(m - lens[k])) <==> Matches(lens, k, c)
  {
    Pow2Add(m - lens[k], lens[k]);
    DivBelow(c, Pow2(lens[k]), Pow2(m - lens[k]));
  }

  lemma StretchedBound(t: nat, j: nat, bits: nat, m: nat)
    requires bits <= m && t < Pow2(bits) && j < Pow2(m - bits)
    ensures t + j * Pow2(bits) < Pow2(m)
  {
    Pow2Add(m - bits, bits);
    MulMonotone(j + 1, Pow2(m - bits), Pow2(bits));
    MulSum(j, 1, Pow2(bits));
  }

  /** Fill in a code of at most 8 bits: all 2^(8 - bits) bytes that begin with it. */
  method AddShort(ghost lens: seq<nat>, ftl: array<nat>, i: nat, bits: nat, t: nat)
    requires i < |lens| <= 512 && lens[i] == bits && 0 < bits <= 8 && t == Reverse(Code(lens, i), bits)
    requires ftl.Length == 256
    modifies ftl
    ensures Filled(lens, i, i + 512 * bits, old(ftl[..]), ftl[..])
  {
    hide Reverse, Code, Pow2, Below, Matches, Or;
    Windows();
    OrShifted(i, bits, 9);
    var code := Or(i, bits * 512);
    forall c | 0 <= c < 256
      ensures !Below(lens, i, c, 0) && (Below(lens, i, c, Pow2(8 - bits)) <==> Matches(lens, i, c))
    {
      BelowStep(lens, i, t, 0, c);
      BelowAll(lens, i, c, 8);
    }
    for j := 0 to Pow2(8 - bits)
      invariant forall c :: 0 <= c < 256 ==> ftl[c] == if Below(lens, i, c, j) then code else old(ftl[c])
    {
      MatchesStretched(lens, i, t, j);
      StretchedBound(t, j, bits, 8);
      forall c | 0 <= c < 256
        ensures Below(lens, i, c, j + 1) <==> Below(lens, i, c, j) || c == t + j * Pow2(lens[i])
      {
        BelowStep(lens, i, t, j, c);
      }
      ftl[Or(t, j * Pow2(bits))] := code;
    }
  }

  lemma FilledShort(lens: seq<nat>, owner: seq<nat>, i: nat, before: seq<nat>, after: seq<nat>)
    requires i < |lens| <= 512 && 0 < lens[i] <= 8
    requires FirstOk(lens, before, owner) && Filled(lens, i, i + 512 * lens[i], before, after)
    ensures FirstOk(lens, after, owner)
    ensures Valid(lens) && ShortComplete(lens, before, i) ==> ShortComplete(lens, after, i + 1)
  {
    hide Matches, Valid;
    forall c | 0 <= c < 256
      ensures FirstEntryOk(lens, after[c], c, owner)
    {
      assert FirstEntryOk(lens, before[c], c, owner);
    }
    if Valid(lens) && ShortComplete(lens, before, i) {
      forall s, c | 0 <= s <= i && 0 <= c < 256 && lens[s] <= 8 && Matches(lens, s, c)
        ensures after[c] == s + 512 * lens[s]
      {
        if Matches(lens, i, c) {
          MatchUnique(lens, s, i, c);
        }
      }
    }
  }

  /** What filling in a long code does to the second level: only group g, and there as on the first level. */
  predicate FilledGroup(lens: seq<nat>, i: nat, g: nat, low: nat, before: seq<nat>, after: seq<nat>)
    requires i < |lens|
  {
    |before| == |after| == 512 &&
    forall m :: 0 <= m < 512 ==>
      after[m] == if m / 8 == g && Matches(lens, i, low + 256 * (m % 8)) then i + 512 * lens[i] else before[m]
  }

  /** Where the j-th copy of a long code goes in its group. */
  lemma GroupIndex(t: nat, bits: nat, g: nat, j: nat)
    requires 8 < bits < 12 && t < Pow2(bits) && j < Pow2(11 - bits)
    ensures var x := t / 256 + j * Pow2(bits - 8);
            x < 8 && Or(8 * g + t / 256, j * Pow2(bits - 8)) == 8 * g + x
            && t + j * Pow2(bits) == t % 256 + 256 * x
  {
    hide Or;
    Windows();
    var hi, m := t / 256, j * Pow2(bits - 8);
    Pow2Add(bits - 8, 8);
    DivBelow(t, 256, Pow2(bits - 8));
    StretchedBound(hi, j, bits - 8, 3);
    OrHigh(g, hi, m, 3);
    OrShifted(hi, j, bits - 8);
    assert j * Pow2(bits) == m * 256;
  }

  method FillGroup(ghost lens: seq<nat>, ftlex: array<nat>, i: nat, bits: nat, t: nat, start: nat)
    requires i < |lens| <= 512 && lens[i] == bits && 8 < bits < 12 && t == Reverse(Code(lens, i), bits)
    requires ftlex.Length == 512 && start % 8 == 0 && start < 512
    modifies ftlex
    ensures FilledGroup(lens, i, start / 8, t % 256, old(ftlex[..]), ftlex[..])
  {
    hide Reverse, Code, Pow2, Below, Matches, Or;
    Windows();
    OrShifted(i, bits, 9);
    var code, g, low := Or(i, bits * 512), start / 8, t % 256;
    var n := start + t / 256;
    forall m | 0 <= m < 512
      ensures !Below(lens, i, low + 256 * (m % 8), 0)
      ensures Below(lens, i, low + 256 * (m % 8), Pow2(11 - bits)) <==> Matches(lens, i, low + 256 * (m % 8))
    {
      BelowStep(lens, i, t, 0, low + 256 * (m % 8));
      BelowAll(lens, i, low + 256 * (m % 8), 11);
    }
    for j := 0 to Pow2(11 - bits)
      invariant forall m :: 0 <= m < 512 ==>
        ftlex[m] == if m / 8 == g && Below(lens, i, low + 256 * (m % 8), j) then code else old(ftlex[m])
    {
      GroupIndex(t, bits, g, j);
      forall m | 0 <= m < 512
        ensures Below(lens, i, low + 256 * (m % 8), j + 1) <==>
                Below(lens, i, low + 256 * (m % 8), j) || low + 256 * (m % 8) == t + j * Pow2(lens[i])
      {
        BelowStep(lens, i, t, j, low + 256 * (m % 8));
      }
      ftlex[Or(n, j * Pow2(bits - 8))] := code;
    }
  }

  lemma FilledSecond(lens: seq<nat>, owner: seq<nat>, i: nat, g: nat, before: seq<nat>, after: seq<nat>)
    requires i < |lens| <= 512 && 8 < lens[i] < 12 && g < |owner|
    requires SecondOk(lens, before, owner) && FilledGroup(lens, i, g, owner[g], before, after)
    ensures SecondOk(lens, after, owner)
  {
    hide Matches;
    forall n | 0 <= n < 512
      ensures SecondEntryOk(lens, after[n], n, owner)
    {
      assert SecondEntryOk(lens, before[n], n, owner);
    }
  }

  /** In a valid code no short code is the low byte of a long one. */
  lemma NoShortInLong(lens: seq<nat>, e: nat, i: nat, t: nat)
    requires i < |lens| && lens[i] > 8 && t == Reverse(Code(lens, i), lens[i])
    requires EntryOk(lens, e, t % 256, 1, 8)
    ensures !Valid(lens) && e >= 512
  {
    hide Matches, Valid, Reverse, Code, Pow2;
    if Valid(lens) {
      Windows();
      MatchesLow(lens, e % 512, t, 8);
      MatchesStretched(lens, i, t, 0);
      MatchUnique(lens, e % 512, i, t);
    }
  }

  /** Opening a group for a low byte that had no entry. */
  lemma GroupOpened(lens: seq<nat>, owner: seq<nat>, ftl: seq<nat>, ftlex: seq<nat>, low: nat)
    requires FirstOk(lens, ftl, owner) && SecondOk(lens, ftlex, owner) && |owner| < MAX_GROUPS
    requires low < 256 && ftl[low] == EMPTY
    ensures FirstOk(lens, ftl[low := GROUP + 8 * |owner|], owner + [low])
    ensures SecondOk(lens, ftlex, owner + [low])
    ensures forall n :: 0 <= n <= |lens| && ShortComplete(lens, ftl, n) && |lens| <= 512 ==>
              ShortComplete(lens, ftl[low := GROUP + 8 * |owner|], n)
  {
    hide EntryOk, Matches;
    var after := ftl[low := GROUP + 8 * |owner|];
    forall c | 0 <= c < 256
      ensures FirstEntryOk(lens, after[c], c, owner + [low])
    {
      assert FirstEntryOk(lens, ftl[c], c, owner);
    }
    forall n | 0 <= n < 512
      ensures SecondEntryOk(lens, ftlex[n], n, owner + [low])
    {
      assert SecondEntryOk(lens, ftlex[n], n, owner);
    }
  }

  /** Enter a code of 9 to 11 bits; false where the program would store outside ftlex, which only
      over-subscribed lengths can cause. */
  method AddLong(ghost lens: seq<nat>, ghost owner: seq<nat>, ftl: array<nat>, ftlex: array<nat>, i: nat, bits: nat, t: nat,
                 ftnex: nat) returns (ok: bool, next: nat, ghost owner': seq<nat>)
    requires i < |lens| <= 512 && lens[i] == bits && 8 < bits < 12 && t == Reverse(Code(lens, i), bits)
    requires ftl.Length == 256 && ftlex.Length == 512 && ftl != ftlex
    requires FirstOk(lens, ftl[..], owner) && SecondOk(lens, ftlex[..], owner) && |owner| == ftnex < MAX_GROUPS
    modifies ftl, ftlex
    ensures ok ==> FirstOk(lens, ftl[..], owner') && SecondOk(lens, ftlex[..], owner') && |owner'| == next
    ensures ok && old(ShortComplete(lens, ftl[..], i)) ==> ShortComplete(lens, ftl[..], i)
    ensures Valid(lens) ==> ok
  {
    hide Reverse, Code, Pow2, Matches, Or, EntryOk, Valid, ShortComplete, FilledGroup;
    var low := t % 256;
    var n: nat;
    next, owner' := ftnex, owner;
    assert FirstEntryOk(lens, ftl[low], low, owner);
    if ftl[low] == EMPTY {
      n := 8 * next;
      next := next + 1;
      GroupBit(n);
      GroupOpened(lens, owner, ftl[..], ftlex[..], low);
      ftl[low] := Or(GROUP, n);
      owner' := owner + [low];
      assert ftl[..] == old(ftl[..])[low := GROUP + 8 * |owner|];
    } else {
      n := ftl[low] % GROUP;
      if ftl[low] < GROUP {
        NoShortInLong(lens, ftl[low], i, t);
      }
      if n >= 512 {
        return false, next, owner';
      }
    }
    assert owner'[n / 8] == low && n % 8 == 0;
    ghost var before := ftlex[..];
    FillGroup(lens, ftlex, i, bits, t, n);
    FilledSecond(lens, owner', i, n / 8, before, ftlex[..]);
    ok := true;
  }

  lemma GroupBit(n: nat)
    requires n < GROUP
    ensures Or(GROUP, n) == GROUP + n
  {
    hide Or, Pow2;
    Windows();
    OrHigh(1, 0, n, 15);
    OrZero(n);
  }

  /** The first loop of inflate_codes: ftl and ftlex for the literal/length code. */
  method BuildFast(ll: seq<nat>, tl: seq<nat>)
    returns (ok: bool, ftl: array<nat>, ftlex: array<nat>, ghost owner: seq<nat>)
    requires |ll| <= 512 && Lengths(ll) && IsTable(ll, tl)
    ensures fresh(ftl) && fresh(ftlex) && ftl.Length == 256 && ftlex.Length == 512
    ensures ok ==> FirstOk(ll, ftl[..], owner) && SecondOk(ll, ftlex[..], owner)
    ensures Valid(ll) ==> ok && ShortComplete(ll, ftl[..], |ll|)
  {
    hide Reverse, Code, Matches, Valid, EntryOk, Filled, ShortComplete;
    ftl := new nat[256](_ => EMPTY);
    ftlex := new nat[512](_ => EMPTY);
    owner := [];
    var ftnex: nat := 0;
    NothingMissing(ll, ftl[..]);
    for i := 0 to |ll|
      invariant fresh(ftl) && fresh(ftlex) && ftl != ftlex
      invariant FirstOk(ll, ftl[..], owner) && SecondOk(ll, ftlex[..], owner) && |owner| == ftnex
      invariant Valid(ll) ==> ShortComplete(ll, ftl[..], i)
    {
      var bits := ll[i];
      if 0 < bits <= 8 {
        ghost var before := ftl[..];
        AddShort(ll, ftl, i, bits, tl[i]);
        FilledShort(ll, owner, i, before, ftl[..]);
      } else {
        if 8 < bits < 12 && ftnex < MAX_GROUPS {
          ok, ftnex, owner := AddLong(ll, owner, ftl, ftlex, i, bits, tl[i], ftnex);
          if !ok {
            return;
          }
        }
        LongNotMissing(ll, ftl[..], i);
      }
    }
    ok := true;
  }

  lemma NothingMissing(lens: seq<nat>, ftl: seq<nat>)
    requires |ftl| == 256
    ensures ShortComplete(lens, ftl, 0)
  {
  }

  lemma LongNotMissing(lens: seq<nat>, ftl: seq<nat>, i: nat)
    requires |ftl| == 256 && i < |lens| && (lens[i] == 0 || lens[i] > 8)
    ensures ShortComplete(lens, ftl, i) ==> ShortComplete(lens, ftl, i + 1)
  {
  }

  /** The second loop: ftd for the distance code, first level only. */
  method BuildShort(ld: seq<nat>, td: seq<nat>) returns (ftd: array<nat>)
    requires |ld| <= 512 && Lengths(ld) && IsTable(ld, td)
    ensures fresh(ftd) && ftd.Length == 256
    ensures FirstOk(ld, ftd[..], [])
    ensures Valid(ld) ==> ShortComplete(ld, ftd[..], |ld|)
  {
    hide Reverse, Code, Matches, Valid, EntryOk, Filled, ShortComplete;
    ftd := new nat[256](_ => EMPTY);
    NothingMissing(ld, ftd[..]);
    for i := 0 to |ld|
      invariant fresh(ftd)
      invariant FirstOk(ld, ftd[..], [])
      invariant Valid(ld) ==> ShortComplete(ld, ftd[..], i)
    {
      var bits := ld[i];
      if 0 < bits <= 8 {
        ghost var before := ftd[..];
        AddShort(ld, ftd, i, bits, td[i]);
        FilledShort(ld, [], i, before, ftd[..]);
      } else {
        LongNotMissing(ld, ftd[..], i);
      }
    }
  }

  /** With a complete first level, no code of at most 8 bits is ever searched for. */
  lemma ShortCodesAreFast(lens: seq<nat>, ftl: seq<nat>, k: nat, window: nat)
    requires |ftl| == 256 && ShortComplete(lens, ftl, |lens|) && |lens| <= 512
    requires k < |lens| && 0 < lens[k] <= 8 && Matches(lens, k, window)
    ensures ftl[window % 256] < GROUP && ftl[window % 256] == k + 512 * lens[k]
  {
    hide Matches, Pow2;
    Windows();
    MatchesLow(lens, k, window, 8);
  }
}
