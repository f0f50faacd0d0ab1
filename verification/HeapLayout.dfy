/**
 The heap of calloc.c as a row of blocks, and what malloc and free do to it.

 Addresses and sizes count HEADER units of 8 bytes.  A block is Live (handed out), Listed (on the free
 list) or Lost: malloc's search never advances `prev`, so taking a block that is not the head of the
 list sets the head past every block before it, and those blocks are never found again.
 */
module HeapLayout {

  datatype Status = Live | Listed | Lost

  datatype Block = Block(addr: nat, size: nat, status: Status) {
    function End(): nat { addr + size }
  }

  /** Blocks laid end to end from `lo` to `hi`, no two listed ones touching. */
  predicate Layout(bs: seq<Block>, lo: nat, hi: nat)
    decreases |bs|
  {
    if bs == [] then lo == hi
    else
      && bs[0].addr == lo && bs[0].size > 0
      && (|bs| > 1 && bs[0].status == Listed ==> bs[1].status != Listed)
      && Layout(bs[1..], bs[0].End(), hi)
  }

  /** The free list as the pointers run: the address of the first listed block, 0 for none. */
  function Head(bs: seq<Block>): nat
    decreases |bs|
  {
    if bs == [] then 0 else if bs[0].status == Listed then bs[0].addr else Head(bs[1..])
  }

  function Sum(bs: seq<Block>, status: Status): nat
    decreases |bs|
  {
    if bs == [] then 0 else (if bs[0].status == status then bs[0].size else 0) + Sum(bs[1..], status)
  }

  predicate Without(bs: seq<Block>, status: Status)
    decreases |bs|
  {
    bs == [] || (bs[0].status != status && Without(bs[1..], status))
  }

  /** Status Lost in place of Listed. */
  function Lose(bs: seq<Block>): (r: seq<Block>)
    ensures |r| == |bs| && Without(r, Listed)
    decreases |bs|
  {
    if bs == [] then []
    else [if bs[0].status == Listed then bs[0].(status := Lost) else bs[0]] + Lose(bs[1..])
  }

  // ---------------------------------------------------------------------------------------
  // Rows in pieces.

  function Last(bs: seq<Block>): Block
    requires bs != []
  {
    bs[|bs| - 1]
  }

  lemma {:induction false} LayoutAppend(a: seq<Block>, b: seq<Block>, lo: nat, mid: nat, hi: nat)
    requires Layout(a, lo, mid) && Layout(b, mid, hi)
    requires a != [] && b != [] && Last(a).status == Listed ==> b[0].status != Listed
    ensures Layout(a + b, lo, hi)
    decreases |a|
  {
    if a == [] {
      assert a + b == b;
    } else {
      assert (a + b)[1..] == a[1..] + b;
      LayoutAppend(a[1..], b, a[0].End(), mid, hi);
    }
  }

  lemma LayoutStep(bs: seq<Block>, lo: nat, hi: nat)
    requires bs != []
    ensures Layout(bs, lo, hi) <==>
            && bs[0].addr == lo && bs[0].size > 0
            && (|bs| > 1 && bs[0].status == Listed ==> bs[1].status != Listed)
            && Layout(bs[1..], bs[0].End(), hi)
  {
  }

  /** Every cut of a row falls on a block boundary. */
  lemma {:induction false} LayoutSplit(bs: seq<Block>, k: nat, lo: nat, hi: nat) returns (mid: nat)
    requires Layout(bs, lo, hi) && k <= |bs|
    ensures Layout(bs[..k], lo, mid) && Layout(bs[k..], mid, hi) && lo <= mid <= hi
    ensures k < |bs| ==> bs[k].addr == mid
    ensures mid == if k == 0 then lo else bs[k - 1].End()
    ensures 0 < k < |bs| && bs[k - 1].status == Listed ==> bs[k].status != Listed
    decreases k
  {
    hide Layout;
    if k == 0 {
      mid := lo;
      EmptyLayout(lo);
      assert bs[..0] == [] && bs[0..] == bs;
      LayoutGrows(bs, lo, hi);
      if bs != [] {
        LayoutStep(bs, lo, hi);
      }
    } else {
      LayoutStep(bs, lo, hi);
      mid := LayoutSplit(bs[1..], k - 1, bs[0].End(), hi);
      assert bs[..k][1..] == bs[1..][..k - 1] && bs[1..][k - 1..] == bs[k..];
      LayoutStep(bs[..k], lo, mid);
    }
  }

  lemma EmptyLayout(lo: nat)
    ensures Layout([], lo, lo)
  {
  }

  lemma {:induction false} LayoutGrows(bs: seq<Block>, lo: nat, hi: nat)
    requires Layout(bs, lo, hi)
    ensures lo + |bs| <= hi
    decreases |bs|
  {
    if bs != [] {
      LayoutGrows(bs[1..], bs[0].End(), hi);
    }
  }

  lemma {:induction false} HeadAppend(a: seq<Block>, b: seq<Block>)
    ensures Head(a + b) == if Without(a, Listed) then Head(b) else Head(a)
    ensures forall s :: Without(a + b, s) <==> Without(a, s) && Without(b, s)
    ensures forall s :: Sum(a + b, s) == Sum(a, s) + Sum(b, s)
    decreases |a|
  {
    if a == [] {
      assert a + b == b;
    } else {
      assert (a + b)[1..] == a[1..] + b;
      HeadAppend(a[1..], b);
    }
  }

  // ---------------------------------------------------------------------------------------
  // malloc.

  /** nunits: the request rounded up to units, in 32 bits, and one unit for the header. */
  function Units(nbytes: nat): (n: nat)
    ensures n > 0
  {
    (nbytes + 7) % 0x1_0000_0000 / 8 + 1
  }

  /** The units asked for, without the one for the header, hold the request exactly when rounding up does not
      wrap, and then no fewer units would. */
  lemma UnitsSuffice(nbytes: nat)
    requires nbytes < 0x1_0000_0000
    ensures 8 * (Units(nbytes) - 1) >= nbytes <==> nbytes <= 0xffff_fff8
    ensures nbytes <= 0xffff_fff8 && nbytes > 0 ==> 8 * (Units(nbytes) - 2) < nbytes
    ensures nbytes == 0 || nbytes > 0xffff_fff8 ==> Units(nbytes) == 1
  {
  }

  /** The first listed block of at least n units; |bs| if there is none. */
  function FirstFit(bs: seq<Block>, n: nat): (k: nat)
    ensures k <= |bs|
    ensures k < |bs| ==> bs[k].status == Listed && bs[k].size >= n
    ensures forall j :: 0 <= j < k && bs[j].status == Listed ==> bs[j].size < n
    decreases |bs|
  {
    if bs == [] then 0
    else if bs[0].status == Listed && bs[0].size >= n then 0
    else 1 + FirstFit(bs[1..], n)
  }

  /** A walk that refused every listed block before k and accepts k has found the first fit. */
  lemma {:induction false} FirstFitIs(bs: seq<Block>, n: nat, k: nat)
    requires k <= |bs| && forall j :: 0 <= j < k && bs[j].status == Listed ==> bs[j].size < n
    requires k < |bs| ==> bs[k].status == Listed && bs[k].size >= n
    ensures FirstFit(bs, n) == k
    decreases |bs|
  {
    if k > 0 {
      FirstFitIs(bs[1..], n, k - 1);
    }
  }

  /** The two pieces of a block from which n units are taken: the second only if something is left. */
  function Pieces(b: Block, n: nat): seq<Block>
    requires n <= b.size
  {
    if b.size == n then [b.(status := Live)]
    else [Block(b.addr, n, Live), Block(b.addr + n, b.size - n, Listed)]
  }

  /** The heap after malloc took n units from block k: the listed blocks before it are lost. */
  function Take(bs: seq<Block>, k: nat, n: nat): seq<Block>
    requires k < |bs| && n <= bs[k].size
  {
    Lose(bs[..k]) + (Pieces(bs[k], n) + bs[k + 1..])
  }

  lemma {:induction false} LoseKeeps(bs: seq<Block>, lo: nat, hi: nat)
    requires Layout(bs, lo, hi)
    ensures Layout(Lose(bs), lo, hi)
    decreases |bs|
  {
    if bs != [] {
      LoseKeeps(bs[1..], bs[0].End(), hi);
      assert Lose(bs)[1..] == Lose(bs[1..]);
    }
  }

  lemma TakeKeeps(bs: seq<Block>, k: nat, n: nat, lo: nat, hi: nat)
    requires Layout(bs, lo, hi) && k < |bs| && bs[k].status == Listed && 0 < n <= bs[k].size
    ensures Layout(Take(bs, k, n), lo, hi)
  {
    var mid := LayoutSplit(bs, k, lo, hi);
    var rest := bs[k..];
    assert rest[1..] == bs[k + 1..];
    LoseKeeps(bs[..k], lo, mid);
    var pieces := Pieces(bs[k], n);
    assert Layout(pieces, mid, bs[k].End()) by {
      assert |pieces| == 2 ==> pieces[1..] == [pieces[1]];
    }
    LayoutAppend(pieces, bs[k + 1..], mid, bs[k].End(), hi);
    LastOfLost(bs[..k]);
    LayoutAppend(Lose(bs[..k]), pieces + bs[k + 1..], lo, mid, hi);
  }

  lemma {:induction false} LastOfLost(bs: seq<Block>)
    ensures bs != [] ==> Last(Lose(bs)).status != Listed
    decreases |bs|
  {
    if bs != [] {
      LastOfLost(bs[1..]);
    }
  }

  // ---------------------------------------------------------------------------------------
  // free.

  /** Where the merged block starts and ends: the neighbours join in when they are listed. */
  function MergeFrom(bs: seq<Block>, k: nat): (j: nat)
    requires k < |bs|
    ensures j <= k
  {
    if k > 0 && bs[k - 1].status == Listed then k - 1 else k
  }

  function MergeTo(bs: seq<Block>, k: nat): (j: nat)
    requires k < |bs|
    ensures k < j <= |bs|
  {
    if k + 1 < |bs| && bs[k + 1].status == Listed then k + 2 else k + 1
  }

  /** The heap after free of block k. */
  function Give(bs: seq<Block>, k: nat): seq<Block>
    requires k < |bs| && bs[MergeFrom(bs, k)].addr <= bs[MergeTo(bs, k) - 1].End()
  {
    var i, j := MergeFrom(bs, k), MergeTo(bs, k);
    bs[..i] + ([Block(bs[i].addr, bs[j - 1].End() - bs[i].addr, Listed)] + bs[j..])
  }

  lemma MergeSpan(bs: seq<Block>, k: nat, lo: nat, hi: nat)
    requires Layout(bs, lo, hi) && k < |bs|
    ensures bs[MergeFrom(bs, k)].addr < bs[MergeTo(bs, k) - 1].End()
    ensures bs[MergeTo(bs, k) - 1].End() - bs[MergeFrom(bs, k)].addr ==
            bs[k].size + (if MergeFrom(bs, k) < k then bs[k - 1].size else 0)
                       + (if MergeTo(bs, k) > k + 1 then bs[k + 1].size else 0)
  {
    var mid := LayoutSplit(bs, k, lo, hi);
    assert bs[k..][1..] == bs[k + 1..];
    if k > 0 {
      var m := LayoutSplit(bs, k - 1, lo, hi);
      assert bs[k - 1..][1..] == bs[k..];
    }
  }

  lemma GiveKeeps(bs: seq<Block>, k: nat, lo: nat, hi: nat)
    requires Layout(bs, lo, hi) && k < |bs| && bs[k].status != Listed
    ensures bs[MergeFrom(bs, k)].addr < bs[MergeTo(bs, k) - 1].End()
    ensures Layout(Give(bs, k), lo, hi)
  {
    hide Layout;
    MergeSpan(bs, k, lo, hi);
    var i, j := MergeFrom(bs, k), MergeTo(bs, k);
    if i < k {
      var mid := LayoutSplit(bs, i, lo, hi);
    }
    if j > k + 1 {
      var mid := LayoutSplit(bs, j, lo, hi);
    }
    MergeKeeps(bs, i, j, lo, hi);
  }

  /** A stretch of a row replaced by one listed block, when no listed block touches it. */
  lemma MergeKeeps(bs: seq<Block>, i: nat, j: nat, lo: nat, hi: nat)
    requires Layout(bs, lo, hi) && i < j <= |bs| && bs[i].addr < bs[j - 1].End()
    requires (i > 0 ==> bs[i - 1].status != Listed) && (j < |bs| ==> bs[j].status != Listed)
    ensures Layout(bs[..i] + ([Block(bs[i].addr, bs[j - 1].End() - bs[i].addr, Listed)] + bs[j..]), lo, hi)
  {
    hide Layout;
    var first := LayoutSplit(bs, i, lo, hi);
    var last := LayoutSplit(bs, j, lo, hi);
    var merged := [Block(bs[i].addr, bs[j - 1].End() - bs[i].addr, Listed)];
    assert merged[1..] == [];
    EmptyLayout(last);
    LayoutStep(merged, first, last);
    LayoutAppend(merged, bs[j..], first, last, hi);
    LayoutAppend(bs[..i], merged + bs[j..], lo, first, hi);
  }
}
