/**
 What holds of calloc.c over whole runs: conservation, disjointness, what free undoes, and exactly
 when freeing everything gives the heap back.
 */
module HeapProperties {
  import opened HeapLayout

  // ---------------------------------------------------------------------------------------
  // Conservation.

  lemma {:induction false} LoseSums(bs: seq<Block>)
    ensures Sum(Lose(bs), Live) == Sum(bs, Live)
    ensures Sum(Lose(bs), Listed) == 0
    ensures Sum(Lose(bs), Lost) == Sum(bs, Lost) + Sum(bs, Listed)
    decreases |bs|
  {
    if bs != [] {
      LoseSums(bs[1..]);
      assert Lose(bs)[1..] == Lose(bs[1..]);
    }
  }

  lemma {:induction false} Total(bs: seq<Block>, lo: nat, hi: nat)
    requires Layout(bs, lo, hi)
    ensures Sum(bs, Live) + Sum(bs, Listed) + Sum(bs, Lost) == hi - lo
    decreases |bs|
  {
    if bs != [] {
      Total(bs[1..], bs[0].End(), hi);
    }
  }

  lemma SumSplit(bs: seq<Block>, k: nat, s: Status)
    requires k <= |bs|
    ensures Sum(bs, s) == Sum(bs[..k], s) + Sum(bs[k..], s)
    ensures Without(bs, s) <==> Without(bs[..k], s) && Without(bs[k..], s)
  {
    HeadAppend(bs[..k], bs[k..]);
    assert bs[..k] + bs[k..] == bs;
  }

  /** malloc moves exactly n units to the live blocks; what it loses stays counted as memory left. */
  lemma TakeConserves(bs: seq<Block>, k: nat, n: nat)
    requires k < |bs| && bs[k].status == Listed && 0 < n <= bs[k].size
    ensures Sum(Take(bs, k, n), Live) == Sum(bs, Live) + n
    ensures Sum(Take(bs, k, n), Lost) == Sum(bs, Lost) + Sum(bs[..k], Listed)
    ensures Sum(Take(bs, k, n), Listed) + Sum(Take(bs, k, n), Lost) == Sum(bs, Listed) + Sum(bs, Lost) - n
  {
    var pieces := Pieces(bs[k], n);
    assert bs[k..][1..] == bs[k + 1..];
    assert |pieces| == 2 ==> pieces[1..] == [pieces[1]] && [pieces[1]][1..] == [];
    LoseSums(bs[..k]);
    HeadAppend(pieces, bs[k + 1..]);
    HeadAppend(Lose(bs[..k]), pieces + bs[k + 1..]);
    SumSplit(bs, k, Live);
    SumSplit(bs, k, Listed);
    SumSplit(bs, k, Lost);
  }

  lemma OneSum(b: Block, s: Status)
    ensures Sum([b], s) == if b.status == s then b.size else 0
  {
    assert [b][1..] == [];
  }

  lemma {:induction false} SumParts(bs: seq<Block>, i: nat, j: nat, s: Status)
    requires i <= j <= |bs|
    ensures Sum(bs, s) == Sum(bs[..i], s) + Sum(bs[i..j], s) + Sum(bs[j..], s)
  {
    SumSplit(bs, j, s);
    SumSplit(bs[..j], i, s);
    assert bs[..j][..i] == bs[..i] && bs[..j][i..] == bs[i..j];
  }

  /** The first block of a stretch, counted separately. */
  lemma Peel(bs: seq<Block>, i: nat, j: nat)
    requires i < j <= |bs|
    ensures forall s :: Sum(bs[i..j], s) == (if bs[i].status == s then bs[i].size else 0) + Sum(bs[i + 1..j], s)
    ensures forall s :: Without(bs[i..j], s) <==> bs[i].status != s && Without(bs[i + 1..j], s)
    ensures LiveAddrs(bs[i..j]) == (if bs[i].status == Live then {bs[i].addr} else {}) + LiveAddrs(bs[i + 1..j])
  {
    assert bs[i..j][1..] == bs[i + 1..j];
  }

  /** The merged stretch: the returned block and its listed neighbours. */
  lemma Merged(bs: seq<Block>, k: nat)
    requires k < |bs| && bs[k].status == Live
    ensures var i, j := MergeFrom(bs, k), MergeTo(bs, k);
            var neighbours := (if i < k then bs[k - 1].size else 0) + (if k + 1 < j then bs[k + 1].size else 0);
            && Sum(bs[i..j], Live) == bs[k].size && Sum(bs[i..j], Listed) == neighbours && Sum(bs[i..j], Lost) == 0
            && LiveAddrs(bs[i..j]) == {bs[k].addr} && Without(bs[i..j], Lost)
  {
    var i, j := MergeFrom(bs, k), MergeTo(bs, k);
    assert bs[j..j] == [];
    if i < k {
      Peel(bs, i, j);
    }
    Peel(bs, k, j);
    if k + 1 < j {
      Peel(bs, k + 1, j);
    }
  }

  /** free moves the block's units back to the free list; lost blocks stay lost. */
  lemma GiveConserves(bs: seq<Block>, k: nat, lo: nat, hi: nat)
    requires Layout(bs, lo, hi) && k < |bs| && bs[k].status == Live
    ensures bs[MergeFrom(bs, k)].addr < bs[MergeTo(bs, k) - 1].End()
    ensures Sum(Give(bs, k), Live) == Sum(bs, Live) - bs[k].size
    ensures Sum(Give(bs, k), Listed) == Sum(bs, Listed) + bs[k].size
    ensures Sum(Give(bs, k), Lost) == Sum(bs, Lost)
  {
    hide Layout, Sum, MergeFrom, MergeTo;
    MergeSpan(bs, k, lo, hi);
    Merged(bs, k);
    var i, j := MergeFrom(bs, k), MergeTo(bs, k);
    var merged := Block(bs[i].addr, bs[j - 1].End() - bs[i].addr, Listed);
    forall s: Status
      ensures Sum(Give(bs, k), s) == Sum(bs, s) - Sum(bs[i..j], s) + (if s == Listed then merged.size else 0)
    {
      ReplacedSum(bs, i, j, merged, s);
    }
  }

  lemma ReplacedSum(bs: seq<Block>, i: nat, j: nat, b: Block, s: Status)
    requires i <= j <= |bs|
    ensures Sum(bs[..i] + ([b] + bs[j..]), s) ==
            Sum(bs, s) - Sum(bs[i..j], s) + (if b.status == s then b.size else 0)
  {
    hide Sum;
    HeadAppend([b], bs[j..]);
    HeadAppend(bs[..i], [b] + bs[j..]);
    SumParts(bs, i, j, s);
    OneSum(b, s);
  }

  // ---------------------------------------------------------------------------------------
  // What free undoes.

  lemma {:induction false} LoseNothing(bs: seq<Block>)
    ensures Lose(bs) == bs <==> Without(bs, Listed)
    decreases |bs|
  {
    if bs != [] {
      LoseNothing(bs[1..]);
      assert Lose(bs)[1..] == Lose(bs[1..]);
      assert bs == [bs[0]] + bs[1..];
    }
  }

  /** The heap after malloc, seen from the block it took. */
  lemma Taken(bs: seq<Block>, k: nat, n: nat, lo: nat, hi: nat)
    requires Layout(bs, lo, hi) && k < |bs| && bs[k].status == Listed && 0 < n <= bs[k].size
    ensures var taken, pieces := Take(bs, k, n), |Pieces(bs[k], n)|;
            && k + pieces <= |taken| && taken[k] == Block(bs[k].addr, n, Live)
            && taken[..k] == Lose(bs[..k]) && taken[k + pieces..] == bs[k + 1..]
            && MergeFrom(taken, k) == k && MergeTo(taken, k) == k + pieces
            && taken[k + pieces - 1].End() == bs[k].End()
  {
    LastOfLost(bs[..k]);
    assert k > 0 ==> Take(bs, k, n)[k - 1] == Last(Lose(bs[..k]));
    if k + 1 < |bs| {
      var m := LayoutSplit(bs, k + 1, lo, hi);
    }
  }

  /** Giving back what was just taken undoes the split: the row is as before, except that the listed
      blocks below the one taken are lost. */
  lemma GiveUndoesTake(bs: seq<Block>, k: nat, n: nat, lo: nat, hi: nat)
    requires Layout(bs, lo, hi) && k < |bs| && bs[k].status == Listed && 0 < n <= bs[k].size
    ensures k < |Take(bs, k, n)| && Take(bs, k, n)[k] == Block(bs[k].addr, n, Live)
    ensures Take(bs, k, n)[MergeFrom(Take(bs, k, n), k)].addr <= Take(bs, k, n)[MergeTo(Take(bs, k, n), k) - 1].End()
    ensures Give(Take(bs, k, n), k) == Lose(bs[..k]) + bs[k..]
    ensures Give(Take(bs, k, n), k) == bs <==> Without(bs[..k], Listed)
  {
    hide Layout, Take, Lose, Without, MergeFrom, MergeTo;
    Taken(bs, k, n, lo, hi);
    assert [bs[k]] + bs[k + 1..] == bs[k..];
    assert Give(Take(bs, k, n), k) == Lose(bs[..k]) + bs[k..];
    LoseNothing(bs[..k]);
    Front(Lose(bs[..k]), bs, k);
  }

  lemma Front(front: seq<Block>, bs: seq<Block>, k: nat)
    requires |front| == k <= |bs|
    ensures front + bs[k..] == bs <==> front == bs[..k]
  {
    assert bs == bs[..k] + bs[k..];
    assert (front + bs[k..])[..k] == front;
  }

  /** A heap with nothing live is one free block exactly when nothing is lost. */
  lemma AllFreeIsOne(bs: seq<Block>, lo: nat, hi: nat)
    requires Layout(bs, lo, hi) && lo < hi && Without(bs, Live)
    ensures bs == [Block(lo, hi - lo, Listed)] <==> Without(bs, Lost)
  {
    if |bs| > 1 {
      assert bs[1..][0] == bs[1];
    } else {
      assert bs[1..] == [];
    }
  }

  // ---------------------------------------------------------------------------------------
  // Live addresses.

  function LiveAddrs(bs: seq<Block>): set<nat>
    decreases |bs|
  {
    if bs == [] then {} else (if bs[0].status == Live then {bs[0].addr} else {}) + LiveAddrs(bs[1..])
  }

  lemma {:induction false} LiveAppend(a: seq<Block>, b: seq<Block>)
    ensures LiveAddrs(a + b) == LiveAddrs(a) + LiveAddrs(b)
    decreases |a|
  {
    if a == [] {
      assert a + b == b;
    } else {
      assert (a + b)[1..] == a[1..] + b;
      LiveAppend(a[1..], b);
    }
  }

  lemma {:induction false} LiveBounds(bs: seq<Block>, lo: nat, hi: nat)
    requires Layout(bs, lo, hi)
    ensures forall a <- LiveAddrs(bs) :: lo <= a < hi
    ensures LiveAddrs(bs) == {} <==> Without(bs, Live)
    decreases |bs|
  {
    if bs != [] {
      LiveBounds(bs[1..], bs[0].End(), hi);
      LayoutGrows(bs[1..], bs[0].End(), hi);
    }
  }

  /** The block a pointer given to free belongs to: the one whose header is at this address. */
  function IndexOf(bs: seq<Block>, a: nat): (k: nat)
    requires a in LiveAddrs(bs)
    ensures k < |bs| && bs[k].addr == a && bs[k].status == Live
    decreases |bs|
  {
    if bs[0].addr == a && bs[0].status == Live then 0 else 1 + IndexOf(bs[1..], a)
  }

  lemma LiveParts(bs: seq<Block>, i: nat, j: nat)
    requires i <= j <= |bs|
    ensures LiveAddrs(bs) == LiveAddrs(bs[..i]) + LiveAddrs(bs[i..j]) + LiveAddrs(bs[j..])
    ensures forall s :: Without(bs, s) <==> Without(bs[..i], s) && Without(bs[i..j], s) && Without(bs[j..], s)
  {
    hide LiveAddrs, Without, Head, Sum;
    assert bs == bs[..i] + (bs[i..j] + bs[j..]);
    LiveAppend(bs[i..j], bs[j..]);
    LiveAppend(bs[..i], bs[i..j] + bs[j..]);
    HeadAppend(bs[i..j], bs[j..]);
    HeadAppend(bs[..i], bs[i..j] + bs[j..]);
  }

  /** free takes one address off the live ones, keeps lost blocks lost and leaves a free list. */
  lemma GiveLive(bs: seq<Block>, k: nat, lo: nat, hi: nat)
    requires Layout(bs, lo, hi) && lo > 0 && k < |bs| && bs[k].status == Live
    ensures bs[MergeFrom(bs, k)].addr < bs[MergeTo(bs, k) - 1].End()
    ensures LiveAddrs(Give(bs, k)) == LiveAddrs(bs) - {bs[k].addr}
    ensures Without(Give(bs, k), Lost) <==> Without(bs, Lost)
    ensures !Without(Give(bs, k), Listed)
  {
    hide Layout, LiveAddrs, Without, MergeFrom, MergeTo;
    MergeSpan(bs, k, lo, hi);
    var i, j := MergeFrom(bs, k), MergeTo(bs, k);
    var merged := Block(bs[i].addr, bs[j - 1].End() - bs[i].addr, Listed);
    OneListed(merged);
    LiveOutside(bs, i, k, j, lo, hi);
    LiveParts(bs, i, j);
    Merged(bs, k);
    LiveAppend([merged], bs[j..]);
    LiveAppend(bs[..i], [merged] + bs[j..]);
    HeadAppend([merged], bs[j..]);
    HeadAppend(bs[..i], [merged] + bs[j..]);
  }

  lemma OneListed(b: Block)
    requires b.status == Listed
    ensures LiveAddrs([b]) == {} && Without([b], Lost) && !Without([b], Listed)
  {
    assert [b][1..] == [];
  }

  /** A block's address is not among those of the blocks before i or from j on. */
  lemma LiveOutside(bs: seq<Block>, i: nat, k: nat, j: nat, lo: nat, hi: nat)
    requires Layout(bs, lo, hi) && i <= k < j <= |bs|
    ensures bs[k].addr !in LiveAddrs(bs[..i]) && bs[k].addr !in LiveAddrs(bs[j..])
  {
    hide Layout, LiveAddrs;
    var first := LayoutSplit(bs, i, lo, hi);
    var last := LayoutSplit(bs, j, lo, hi);
    var after := LayoutSplit(bs, k + 1, lo, hi);
    Ordered(bs, i, k, lo, hi);
    Ordered(bs, k, j - 1, lo, hi);
    Positive(bs, k, lo, hi);
    LiveBounds(bs[..i], lo, first);
    LiveBounds(bs[j..], last, hi);
  }

  lemma {:induction false} Positive(bs: seq<Block>, k: nat, lo: nat, hi: nat)
    requires Layout(bs, lo, hi) && k < |bs|
    ensures bs[k].size > 0
    decreases k
  {
    if k > 0 {
      Positive(bs[1..], k - 1, bs[0].End(), hi);
    }
  }

  lemma Ordered(bs: seq<Block>, i: nat, j: nat, lo: nat, hi: nat)
    requires Layout(bs, lo, hi) && i <= j < |bs|
    ensures bs[i].addr <= bs[j].addr && bs[i].End() <= bs[j].End()
    ensures i < j ==> bs[i].End() <= bs[j].addr
  {
    var m := LayoutSplit(bs, j, lo, hi);
    var front := bs[..j];
    if i < j {
      var mid := LayoutSplit(front, i, lo, m);
      assert front[i] == bs[i];
      var after := LayoutSplit(front, i + 1, lo, m);
    }
  }

  /** No two blocks overlap. */
  lemma Disjoint(bs: seq<Block>, i: nat, j: nat, lo: nat, hi: nat)
    requires Layout(bs, lo, hi) && i < |bs| && j < |bs| && i != j
    ensures bs[i].End() <= bs[j].addr || bs[j].End() <= bs[i].addr
  {
    if i < j {
      Ordered(bs, i, j, lo, hi);
    } else {
      Ordered(bs, j, i, lo, hi);
    }
  }

  // ---------------------------------------------------------------------------------------
  // Freeing everything.

  /** The row after the live blocks at these addresses were given back, one after the other. */
  function GiveAll(bs: seq<Block>, addrs: seq<nat>, lo: nat, hi: nat): (r: seq<Block>)
    requires Layout(bs, lo, hi) && lo > 0
    requires (forall a <- addrs :: a in LiveAddrs(bs)) && Distinct(addrs)
    ensures Layout(r, lo, hi)
    decreases |addrs|
  {
    if addrs == [] then bs
    else
      var k := IndexOf(bs, addrs[0]);
      GiveKeeps(bs, k, lo, hi);
      GiveLive(bs, k, lo, hi);
      GiveAll(Give(bs, k), addrs[1..], lo, hi)
  }

  predicate Distinct(addrs: seq<nat>) {
    forall i, j :: 0 <= i < j < |addrs| ==> addrs[i] != addrs[j]
  }

  /** Every live block given back, in any order, leaves one free block of the whole heap exactly when
      no block is lost. */
  lemma {:induction false} GivingAll(bs: seq<Block>, addrs: seq<nat>, lo: nat, hi: nat)
    requires Layout(bs, lo, hi) && 0 < lo < hi
    requires Distinct(addrs) && forall a :: a in addrs <==> a in LiveAddrs(bs)
    ensures GiveAll(bs, addrs, lo, hi) == [Block(lo, hi - lo, Listed)] <==> Without(bs, Lost)
    decreases |addrs|
  {
    if addrs == [] {
      LiveBounds(bs, lo, hi);
      NoneIn(LiveAddrs(bs));
      AllFreeIsOne(bs, lo, hi);
    } else {
      var k := IndexOf(bs, addrs[0]);
      GiveKeeps(bs, k, lo, hi);
      GiveLive(bs, k, lo, hi);
      assert forall a :: a in addrs <==> a == addrs[0] || a in addrs[1..];
      GivingAll(Give(bs, k), addrs[1..], lo, hi);
    }
  }

  lemma NoneIn(s: set<nat>)
    requires forall a :: a !in s
    ensures s == {}
  {
  }
}
