/**
 The allocator of calloc.c in place: headers in memory, the head of the free list and the count of
 units left.
 */
module Allocator {
  import opened Wrappers
  import opened HeapLayout
  import opened HeapProperties
  import opened HeapHeaders

  import HeapRuns

  // ---------------------------------------------------------------------------------------
  // Walking the list.

  /** No listed block stands where the walk skips. */
  lemma {:induction false} NoneListed(bs: seq<Block>, i: nat, j: nat)
    requires i <= j <= |bs|
    ensures Without(bs[i..j], Listed) <==> forall m :: i <= m < j ==> bs[m].status != Listed
    decreases j - i
  {
    if i < j {
      assert bs[i..j][1..] == bs[i + 1..j];
      NoneListed(bs, i + 1, j);
    }
  }

  /** Reading the pointer of a listed block leads to the next listed one. */
  lemma Follow(bs: seq<Block>, i: nat, ptrs: seq<nat>, sizes: seq<nat>) returns (j: nat)
    requires Headers(bs, ptrs, sizes) && i < |bs| && bs[i].status == Listed
    ensures bs[i].addr < |ptrs| == |sizes| && sizes[bs[i].addr] == bs[i].size
    ensures i < j <= |bs| && (forall m :: i < m < j ==> bs[m].status != Listed)
    ensures ptrs[bs[i].addr] == if j < |bs| then bs[j].addr else 0
    ensures j < |bs| ==> bs[j].status == Listed
    ensures ptrs[bs[i].addr] == Head(bs[i + 1..])
  {
    assert HeaderOk(bs, i, ptrs, sizes);
    j := NextListed(bs, i + 1);
    NoneListed(bs, i + 1, j);
  }

  /** The head of the list, as a place in the row. */
  lemma AtFirst(bs: seq<Block>) returns (j: nat)
    ensures j <= |bs| && (forall m :: 0 <= m < j ==> bs[m].status != Listed)
    ensures Head(bs) == if j < |bs| then bs[j].addr else 0
    ensures j < |bs| ==> bs[j].status == Listed
  {
    j := NextListed(bs, 0);
    assert bs[0..] == bs;
    NoneListed(bs, 0, j);
  }

  lemma SkipLive(bs: seq<Block>, k: nat)
    requires k < |bs| && bs[k].status != Listed
    ensures Head(bs[k..]) == Head(bs[k + 1..])
  {
    assert bs[k..][1..] == bs[k + 1..];
  }

  /** Blocks that meet in memory are neighbours in the row. */
  lemma Neighbours(bs: seq<Block>, i: nat, j: nat, lo: nat, hi: nat)
    requires Layout(bs, lo, hi) && i < j < |bs|
    ensures bs[i].End() == bs[j].addr <==> j == i + 1
  {
    Addresses(bs, lo, hi);
    var mid := LayoutSplit(bs, i + 1, lo, hi);
  }

  // ---------------------------------------------------------------------------------------
  // The writes of free.

  /** Where the returned block ends, and what its pointer becomes. `j` is the next listed block. */
  lemma Upper(bs: seq<Block>, k: nat, j: nat, lo: nat, hi: nat)
    requires Layout(bs, lo, hi) && k < j <= |bs| && (forall m :: k < m < j ==> bs[m].status != Listed)
    requires j < |bs| ==> bs[j].status == Listed
    ensures MergeTo(bs, k) == if j < |bs| && bs[j].addr == bs[k].End() then j + 1 else k + 1
    ensures bs[MergeTo(bs, k) - 1].End() ==
            if j < |bs| && bs[j].addr == bs[k].End() then bs[k].End() + bs[j].size else bs[k].End()
    ensures Head(bs[k + 1..]) == if j < |bs| then bs[j].addr else 0
  {
    if j < |bs| {
      Neighbours(bs, k, j, lo, hi);
    }
    NoneListed(bs, k + 1, j);
    HeadAppend(bs[k + 1..j], bs[j..]);
    assert bs[k + 1..j] + bs[j..] == bs[k + 1..];
  }

  /** free when the block below is not on the list: a new entry, linked from the last listed block
      below it, `p`, if there is one (p == k if not). */
  lemma Linked(bs: seq<Block>, k: nat, p: nat, lo: nat, hi: nat,
               ptrs: seq<nat>, sizes: seq<nat>, ptrs': seq<nat>, sizes': seq<nat>)
    requires Layout(bs, lo, hi) && lo > 0 && k < |bs| && bs[k].status == Live && hi <= |sizes|
    requires Headers(bs, ptrs, sizes) && |ptrs'| == |ptrs| == |sizes'| && MergeFrom(bs, k) == k
    requires p <= k && (p < k ==> bs[p].status == Listed)
    requires forall m :: 0 <= m < k && (p < m || p == k) ==> bs[m].status != Listed
    requires bs[k].addr < bs[MergeTo(bs, k) - 1].End() <= hi
    requires bs[k].addr < |sizes| && bs[p].addr < |ptrs|
    requires sizes' == sizes[bs[k].addr := bs[MergeTo(bs, k) - 1].End() - bs[k].addr]
    requires ptrs' == ptrs[bs[p].addr := bs[k].addr][bs[k].addr := Head(bs[MergeTo(bs, k)..])]
    ensures Headers(Give(bs, k), ptrs', sizes')
    ensures Head(Give(bs, k)) == if p < k then Head(bs) else bs[k].addr
  {
    hide Layout, Head, Without, Headers, HeaderOk, Give;
    Addresses(bs, lo, hi);
    Unfold(bs, ptrs, sizes);
    forall m | 0 <= m < k && bs[m].status == Listed
      ensures Without(bs[m + 1..k], Listed) <==> m == p
    {
      NoneListed(bs, m + 1, k);
    }
    GiveHeaders(bs, k, lo, hi, ptrs, sizes, ptrs', sizes');
    GivenHead(bs, k, 0);
    NoneListed(bs, 0, k);
    assert Give(bs, k)[0..] == Give(bs, k) && bs[0..] == bs;
  }

  /** free when the block below is on the list: it grows, and the list runs through it as before. */
  lemma Joined(bs: seq<Block>, k: nat, lo: nat, hi: nat,
               ptrs: seq<nat>, sizes: seq<nat>, ptrs': seq<nat>, sizes': seq<nat>)
    requires Layout(bs, lo, hi) && lo > 0 && 0 < k < |bs| && bs[k].status == Live && hi <= |sizes|
    requires Headers(bs, ptrs, sizes) && |ptrs'| == |ptrs| == |sizes'| && bs[k - 1].status == Listed
    requires bs[k - 1].addr < bs[MergeTo(bs, k) - 1].End() <= hi && bs[k - 1].addr < |sizes|
    requires sizes' == sizes[bs[k - 1].addr := bs[MergeTo(bs, k) - 1].End() - bs[k - 1].addr]
    requires ptrs' == ptrs[bs[k - 1].addr := Head(bs[MergeTo(bs, k)..])]
    ensures Headers(Give(bs, k), ptrs', sizes')
    ensures Head(Give(bs, k)) == Head(bs)
  {
    hide Layout, Without, Headers, HeaderOk, Give;
    Addresses(bs, lo, hi);
    Unfold(bs, ptrs, sizes);
    forall m | 0 <= m < k - 1 && bs[m].status == Listed
      ensures Without(bs[m + 1..k - 1], Listed) ==> ptrs[bs[m].addr] == bs[k - 1].addr
    {
      PointsAt(bs, m, k - 1, ptrs, sizes);
    }
    GiveHeaders(bs, k, lo, hi, ptrs, sizes, ptrs', sizes');
    GivenHead(bs, k, 0);
    assert Give(bs, k)[0..] == Give(bs, k);
    HeadSplit(bs, k - 1);
  }

  lemma HeadSplit(bs: seq<Block>, k: nat)
    requires k < |bs| && bs[k].status == Listed
    ensures bs[0..k] == bs[..k] && bs[0..] == bs
    ensures Head(bs) == if Without(bs[..k], Listed) then bs[k].addr else Head(bs[..k])
  {
    HeadAppend(bs[..k], bs[k..]);
    assert bs[..k] + bs[k..] == bs;
  }

  lemma PointsAt(bs: seq<Block>, m: nat, i: nat, ptrs: seq<nat>, sizes: seq<nat>)
    requires m < i < |bs| && bs[m].status == bs[i].status == Listed && |ptrs| == |sizes| && HeaderOk(bs, m, ptrs, sizes)
    ensures Without(bs[m + 1..i], Listed) ==> ptrs[bs[m].addr] == bs[i].addr
  {
    HeadAppend(bs[m + 1..i], bs[i..]);
    assert bs[m + 1..i] + bs[i..] == bs[m + 1..];
  }

  lemma SizeAt(bs: seq<Block>, k: nat, ptrs: seq<nat>, sizes: seq<nat>)
    requires Headers(bs, ptrs, sizes) && k < |bs|
    ensures bs[k].addr < |sizes| && sizes[bs[k].addr] == bs[k].size
  {
    assert HeaderOk(bs, k, ptrs, sizes);
  }

  lemma Compare(bs: seq<Block>, j: nat, k: nat, lo: nat, hi: nat)
    requires Layout(bs, lo, hi) && lo > 0 && j <= |bs| && k < |bs|
    ensures bs[k].addr > 0 && bs[k].addr < bs[k].End()
    ensures j < |bs| ==> (bs[j].addr < bs[k].addr <==> j < k) && (bs[j].addr == bs[k].addr <==> j == k) && bs[j].addr > 0
  {
    Addresses(bs, lo, hi);
  }

  lemma ListedAt(bs: seq<Block>, k: nat, ptrs: seq<nat>, sizes: seq<nat>)
    requires Headers(bs, ptrs, sizes) && k < |bs| && bs[k].status == Listed
    ensures bs[k].addr < |ptrs| == |sizes| && sizes[bs[k].addr] == bs[k].size && ptrs[bs[k].addr] == Head(bs[k + 1..])
  {
    assert HeaderOk(bs, k, ptrs, sizes);
  }

  lemma Ends(bs: seq<Block>, k: nat, lo: nat, hi: nat)
    requires Layout(bs, lo, hi) && k < |bs|
    ensures bs[k].End() <= hi
  {
    Addresses(bs, lo, hi);
  }

  /** What malloc needs to know about the row it leaves. */
  lemma TakeFirst(bs: seq<Block>, k: nat, n: nat, lo: nat, hi: nat)
    requires Layout(bs, lo, hi) && k < |bs| && bs[k].status == Listed && 0 < n <= bs[k].size
    ensures Layout(Take(bs, k, n), lo, hi) && bs[k].addr in LiveAddrs(Take(bs, k, n))
    ensures Sum(Take(bs, k, n), Listed) + Sum(Take(bs, k, n), Lost) == Sum(bs, Listed) + Sum(bs, Lost) - n
  {
    TakeKeeps(bs, k, n, lo, hi);
    TakeConserves(bs, k, n);
    LiveAppend(Lose(bs[..k]), Pieces(bs[k], n) + bs[k + 1..]);
    LiveAppend(Pieces(bs[k], n), bs[k + 1..]);
  }

  /** The live blocks of a row, except block `but`, hold what they held. */
  predicate Kept(bs: seq<Block>, but: nat, ptrs: seq<nat>, sizes: seq<nat>, ptrs': seq<nat>, sizes': seq<nat>)
    requires |ptrs| == |ptrs'| == |sizes| == |sizes'|
  {
    forall i, u ::
      (0 <= i < |bs| && i != but && bs[i].status == Live && bs[i].addr <= u < bs[i].End() && u < |ptrs|) ==>
        ptrs[u] == ptrs'[u] && sizes[u] == sizes'[u]
  }

  // ---------------------------------------------------------------------------------------
  // The program.

  class Heap {
    const ptrs: array<nat>
    const sizes: array<nat>
    var frhd: nat
    var memleft: nat
    ghost const lo: nat
    ghost const hi: nat
    ghost var blocks: seq<Block>

    /** The heap invariant: the headers spell a row of blocks that tiles the heap, frhd is the head of
        its list, and memleft counts every block that is not live. */
    ghost predicate Valid()
      reads this, ptrs, sizes
    {
      && ptrs != sizes && 0 < lo < hi <= sizes.Length == ptrs.Length
      && Layout(blocks, lo, hi) && Headers(blocks, ptrs[..], sizes[..])
      && frhd == Head(blocks) && memleft == Sum(blocks, Listed) + Sum(blocks, Lost)
    }

    /** The pointers handed out point one unit past the header. */
    ghost predicate IsLive(ap: nat)
      reads this
    {
      ap > 0 && ap - 1 in LiveAddrs(blocks)
    }

    /** i_alloc: a heap of `bytes` bytes from unit `start` on, with arbitrary contents. */
    constructor IAlloc(start: nat, bytes: nat)
      requires start > 0 && bytes >= 8
      ensures Valid() && fresh(ptrs) && fresh(sizes)
      ensures lo == start && hi == start + bytes / 8 && blocks == HeapRuns.Fresh(lo, hi) && memleft == bytes / 8
    {
      var units := bytes / 8;
      ptrs := new nat[start + units];
      sizes := new nat[start + units];
      frhd := start;
      memleft := units;
      lo, hi := start, start + units;
      blocks := HeapRuns.Fresh(start, start + units);
      new;
      ptrs[start] := 0;
      sizes[start] := units;
      assert blocks[1..] == [];
    }

    /** The split in malloc: n units off the listed block k, whose header is at nxt. */
    method Split(nxt: nat, n: nat, ghost k: nat)
      requires Valid() && k < |blocks| && blocks[k].status == Listed && 0 < n <= blocks[k].size && nxt == blocks[k].addr
      modifies `frhd, `memleft, `blocks, ptrs, sizes
      ensures Valid() && blocks == Take(old(blocks), k, n)
      ensures Kept(old(blocks), |old(blocks)|, old(ptrs[..]), old(sizes[..]), ptrs[..], sizes[..])
    {
      hide Layout, Head, Sum, Headers, Take;
      Addresses(blocks, lo, hi);
      TakeFirst(blocks, k, n, lo, hi);
      Unfold(blocks, ptrs[..], sizes[..]);
      assert HeaderOk(blocks, k, ptrs[..], sizes[..]);
      ghost var p, s := ptrs[..], sizes[..];
      if sizes[nxt] > n {
        var seg := nxt + n;
        frhd := seg;
        ptrs[seg] := ptrs[nxt];
        sizes[seg] := sizes[nxt] - n;
        sizes[nxt] := n;
      } else {
        frhd := ptrs[nxt];
      }
      memleft := memleft - n;
      assert TakeWrites(blocks[k], n, p, s, ptrs[..], sizes[..]);
      TakeHeaders(blocks, k, n, lo, hi, p, s, ptrs[..], sizes[..]);
      blocks := Take(blocks, k, n);
    }

    /** malloc: the first block of the list that is large enough; None where the program spins.  The
        search leaves `prev` NULL, so the head of the list always moves past the block taken. */
    method Malloc(nbytes: nat) returns (r: Option<nat>)
      requires Valid() && nbytes < 0x1_0000_0000
      modifies `frhd, `memleft, `blocks, ptrs, sizes
      ensures Valid()
      ensures HeapRuns.Step(old(blocks), HeapRuns.Allocate(nbytes), lo, hi) == if r.None? then None else Some(blocks)
      ensures r.None? ==> unchanged(this)
      ensures r.Some? ==> r.value == old(blocks)[FirstFit(old(blocks), Units(nbytes))].addr + 1 && IsLive(r.value)
      ensures Kept(old(blocks), |old(blocks)|, old(ptrs[..]), old(sizes[..]), ptrs[..], sizes[..])
    {
      hide Layout, Head, Sum, Without, Headers, LiveAddrs, Take, FirstFit;
      var nunits: nat := (nbytes + 7) % 0x1_0000_0000 / 8 + 1;
      var nxt: nat := frhd;
      Addresses(blocks, lo, hi);
      ghost var k: nat := AtFirst(blocks);
      while nxt != 0
        invariant unchanged(this) && ptrs[..] == old(ptrs[..]) && sizes[..] == old(sizes[..]) && Headers(blocks, ptrs[..], sizes[..])
        invariant k <= |blocks| && nxt == if k < |blocks| then blocks[k].addr else 0
        invariant k < |blocks| ==> blocks[k].status == Listed
        invariant forall j :: 0 <= j < k && blocks[j].status == Listed ==> blocks[j].size < nunits
        decreases |blocks| - k
      {
        ghost var next := Follow(blocks, k, ptrs[..], sizes[..]);
        if sizes[nxt] >= nunits {
          FirstFitIs(blocks, nunits, k);
          TakeFirst(blocks, k, nunits, lo, hi);
          Split(nxt, nunits, k);
          return Some(nxt + 1);
        }
        nxt := ptrs[nxt];
        k := next;
      }
      FirstFitIs(blocks, nunits, k);
      r := None;
    }

    /** The end of free: the header of the returned block k, whose next listed block is `j`. */
    method Link(f: nat, nxt: nat, ghost k: nat, ghost j: nat)
      requires ptrs != sizes && Layout(blocks, lo, hi) && 0 < lo && hi <= sizes.Length == ptrs.Length && k < j <= |blocks|
      requires blocks[k].addr == f < sizes.Length && sizes[f] == blocks[k].size
      requires nxt == if j < |blocks| then blocks[j].addr else 0
      requires j < |blocks| ==> nxt < sizes.Length && sizes[nxt] == blocks[j].size && ptrs[nxt] == Head(blocks[j + 1..])
      requires j < |blocks| ==> blocks[j].status == Listed
      requires forall m :: k < m < j ==> blocks[m].status != Listed
      modifies ptrs, sizes
      ensures blocks[k].addr < blocks[MergeTo(blocks, k) - 1].End() <= hi
      ensures sizes[..] == old(sizes[..])[f := blocks[MergeTo(blocks, k) - 1].End() - f]
      ensures ptrs[..] == old(ptrs[..])[f := Head(blocks[MergeTo(blocks, k)..])]
    {
      hide Layout, Head, MergeTo;
      Compare(blocks, j, k, lo, hi);
      Upper(blocks, k, j, lo, hi);
      Ends(blocks, MergeTo(blocks, k) - 1, lo, hi);
      var prev := f + sizes[f];
      if prev == nxt {
        sizes[f] := sizes[f] + sizes[nxt];
        ptrs[f] := ptrs[nxt];
      } else {
        ptrs[f] := nxt;
      }
    }

    /** The middle of free: the listed block just below the returned one, k, grows. */
    method Join(f: nat, nxt: nat, ghost k: nat, ghost j: nat)
      requires ptrs != sizes && Layout(blocks, lo, hi) && 0 < lo && hi <= sizes.Length == ptrs.Length && 0 < k < j <= |blocks|
      requires Headers(blocks, ptrs[..], sizes[..]) && blocks[k - 1].status == Listed && blocks[k].status == Live
      requires blocks[k].addr == f && blocks[k - 1].addr == nxt
      requires j < |blocks| ==> blocks[j].status == Listed
      requires forall m :: k < m < j ==> blocks[m].status != Listed
      modifies ptrs, sizes
      ensures nxt < blocks[MergeTo(blocks, k) - 1].End() <= hi
      ensures sizes[..] == old(sizes[..])[nxt := blocks[MergeTo(blocks, k) - 1].End() - nxt]
      ensures ptrs[..] == old(ptrs[..])[nxt := Head(blocks[MergeTo(blocks, k)..])]
    {
      hide Layout, Head, Headers, MergeTo;
      Compare(blocks, k - 1, k, lo, hi);
      Compare(blocks, j, k, lo, hi);
      Upper(blocks, k, j, lo, hi);
      Ends(blocks, MergeTo(blocks, k) - 1, lo, hi);
      Neighbours(blocks, k - 1, k, lo, hi);
      ListedAt(blocks, k - 1, ptrs[..], sizes[..]);
      SizeAt(blocks, k, ptrs[..], sizes[..]);
      if j < |blocks| {
        ListedAt(blocks, j, ptrs[..], sizes[..]);
      }
      SkipLive(blocks, k);
      sizes[nxt] := sizes[nxt] + sizes[f];
      var g := nxt + sizes[nxt];
      if g == ptrs[nxt] {
        sizes[nxt] := sizes[nxt] + sizes[g];
        ptrs[nxt] := ptrs[g];
      }
    }

    /** The block below is on the list. */
    method FreeBelow(f: nat, nxt: nat, ghost k: nat, ghost j: nat)
      requires ptrs != sizes && Layout(blocks, lo, hi) && 0 < lo && hi <= sizes.Length == ptrs.Length && 0 < k < j <= |blocks|
      requires Headers(blocks, ptrs[..], sizes[..]) && blocks[k - 1].status == Listed && blocks[k].status == Live
      requires blocks[k].addr == f && blocks[k - 1].addr == nxt
      requires j < |blocks| ==> blocks[j].status == Listed
      requires forall m :: k < m < j ==> blocks[m].status != Listed
      modifies ptrs, sizes
      ensures blocks[MergeFrom(blocks, k)].addr < blocks[MergeTo(blocks, k) - 1].End() <= hi
      ensures Headers(Give(blocks, k), ptrs[..], sizes[..]) && Head(Give(blocks, k)) == Head(blocks)
      ensures Kept(blocks, k, old(ptrs[..]), old(sizes[..]), ptrs[..], sizes[..])
    {
      hide Layout, Head, Headers, MergeTo, Give;
      Addresses(blocks, lo, hi);
      ghost var p, s := ptrs[..], sizes[..];
      Join(f, nxt, k, j);
      Joined(blocks, k, lo, hi, p, s, ptrs[..], sizes[..]);
    }

    /** The block below is not: a new entry, linked from the last listed block below, i (k if none). */
    method FreeAlone(f: nat, prev: nat, nxt: nat, ghost i: nat, ghost k: nat, ghost j: nat)
      requires ptrs != sizes && Layout(blocks, lo, hi) && 0 < lo && hi <= sizes.Length == ptrs.Length && i <= k < j <= |blocks|
      requires Headers(blocks, ptrs[..], sizes[..]) && blocks[k].status == Live && blocks[k].addr == f && MergeFrom(blocks, k) == k
      requires if i < k then blocks[i].status == Listed && prev == blocks[i].addr else prev == f
      requires forall m :: 0 <= m < j && m != k && (i < m || i == k) ==> blocks[m].status != Listed
      requires nxt == if j < |blocks| then blocks[j].addr else 0
      requires j < |blocks| ==> blocks[j].status == Listed
      modifies ptrs, sizes
      ensures blocks[MergeFrom(blocks, k)].addr < blocks[MergeTo(blocks, k) - 1].End() <= hi
      ensures Headers(Give(blocks, k), ptrs[..], sizes[..])
      ensures Head(Give(blocks, k)) == if i < k then Head(blocks) else f
      ensures Kept(blocks, k, old(ptrs[..]), old(sizes[..]), ptrs[..], sizes[..])
    {
      hide Layout, Head, Headers, MergeTo, MergeFrom, Give;
      Addresses(blocks, lo, hi);
      ghost var p, s := ptrs[..], sizes[..];
      Unfold(blocks, p, s);
      assert HeaderOk(blocks, k, p, s);
      assert j < |blocks| ==> HeaderOk(blocks, j, p, s);
      ptrs[prev] := f;
      Link(f, nxt, k, j);
      Linked(blocks, k, i, lo, hi, p, s, ptrs[..], sizes[..]);
    }

    /** free: the block goes back on the list in address order and merges with the listed blocks it
        touches. The source asserts that the list is not empty. */
    method Free(ap: nat)
      requires Valid() && IsLive(ap) && frhd != 0
      modifies `frhd, `memleft, `blocks, ptrs, sizes
      ensures Valid()
      ensures HeapRuns.Step(old(blocks), HeapRuns.Release(ap - 1), lo, hi) == Some(blocks)
      ensures Kept(old(blocks), IndexOf(old(blocks), ap - 1), old(ptrs[..]), old(sizes[..]), ptrs[..], sizes[..])
    {
      hide Layout, Head, Sum, Without, Headers, LiveAddrs, IndexOf, Give, MergeTo, Kept;
      var f := ap - 1;
      ghost var k := IndexOf(blocks, f);
      SizeAt(blocks, k, ptrs[..], sizes[..]);
      ghost var first: nat := AtFirst(blocks);
      Compare(blocks, first, k, lo, hi);
      GiveKeeps(blocks, k, lo, hi);
      GiveConserves(blocks, k, lo, hi);
      memleft := memleft + sizes[f];
      if frhd > f {
        var nxt := frhd;
        frhd := f;
        FreeAlone(f, f, nxt, k, k, first);
        blocks := Give(blocks, k);
        return;
      }
      var nxt: nat := frhd;
      var prev: nat := 0;
      ghost var i: nat, j: nat := k, first;
      while nxt != 0 && nxt < f
        invariant unchanged(`frhd) && unchanged(`blocks) && ptrs[..] == old(ptrs[..]) && sizes[..] == old(sizes[..])
        invariant Headers(blocks, ptrs[..], sizes[..])
        invariant j <= |blocks| && nxt == if j < |blocks| then blocks[j].addr else 0
        invariant j < |blocks| ==> blocks[j].status == Listed
        invariant i <= k && (i < k ==> blocks[i].status == Listed && prev == blocks[i].addr && i < j && i != k - 1)
        invariant i == k ==> j == first
        invariant forall m :: 0 <= m < j && (i < m || i == k) ==> blocks[m].status != Listed
        invariant memleft == old(memleft) + blocks[k].size
        decreases |blocks| - j
      {
        ghost var next := Follow(blocks, j, ptrs[..], sizes[..]);
        Compare(blocks, j, k, lo, hi);
        Neighbours(blocks, j, k, lo, hi);
        if nxt + sizes[nxt] == f {
          FreeBelow(f, nxt, k, next);
          blocks := Give(blocks, k);
          return;
        }
        prev := nxt;
        i := j;
        nxt := ptrs[nxt];
        j := next;
      }
      Compare(blocks, j, k, lo, hi);
      FreeAlone(f, prev, nxt, i, k, j);
      blocks := Give(blocks, k);
    }

    /** A client writes inside a block it holds, past the header. */
    method Store(u: nat, x: nat, y: nat)
      requires Valid() && exists k :: 0 <= k < |blocks| && blocks[k].status == Live && blocks[k].addr < u < blocks[k].End()
      modifies ptrs, sizes
      ensures Valid() && u < ptrs.Length && ptrs[..] == old(ptrs[..])[u := x] && sizes[..] == old(sizes[..])[u := y]
    {
      hide Layout, Head, Sum, Headers;
      Addresses(blocks, lo, hi);
      Unfold(blocks, ptrs[..], sizes[..]);
      ghost var p, s := ptrs[..], sizes[..];
      ptrs[u] := x;
      sizes[u] := y;
      forall i | 0 <= i < |blocks|
        ensures HeaderOk(blocks, i, ptrs[..], sizes[..])
      {
        assert HeaderOk(blocks, i, p, s) && blocks[i].addr != u;
      }
      Fold(blocks, ptrs[..], sizes[..]);
    }
  }
}
