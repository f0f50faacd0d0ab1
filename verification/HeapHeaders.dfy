/**
 How the headers in memory represent a row of blocks, and how the writes of malloc and free carry the
 representation along.
 */
module HeapHeaders {
  import opened HeapLayout
  import opened HeapProperties

  /** Each header holds its block's size, and in a listed block the address of the next listed one. */
  predicate Headers(bs: seq<Block>, ptrs: seq<nat>, sizes: seq<nat>) {
    |ptrs| == |sizes| &&
    forall i :: 0 <= i < |bs| ==> HeaderOk(bs, i, ptrs, sizes)
  }

  predicate HeaderOk(bs: seq<Block>, i: nat, ptrs: seq<nat>, sizes: seq<nat>)
    requires i < |bs| && |ptrs| == |sizes|
  {
    var a := bs[i].addr;
    a < |sizes| && sizes[a] == bs[i].size && (bs[i].status == Listed ==> ptrs[a] == Head(bs[i + 1..]))
  }

  /** Header addresses increase along the row and stay inside the heap. */
  lemma Addresses(bs: seq<Block>, lo: nat, hi: nat)
    requires Layout(bs, lo, hi)
    ensures forall i, j :: 0 <= i < j < |bs| ==> bs[i].addr < bs[i].End() <= bs[j].addr
    ensures forall i :: 0 <= i < |bs| ==> lo <= bs[i].addr < bs[i].End() <= hi && bs[i].size > 0
  {
    forall i, j | 0 <= i < j < |bs|
      ensures bs[i].addr < bs[i].End() <= bs[j].addr
    {
      Ordered(bs, i, j, lo, hi);
      Positive(bs, i, lo, hi);
    }
    forall i | 0 <= i < |bs|
      ensures lo <= bs[i].addr < bs[i].End() <= hi && bs[i].size > 0
    {
      var mid := LayoutSplit(bs, i, lo, hi);
      var end := LayoutSplit(bs, i + 1, lo, hi);
      Positive(bs, i, lo, hi);
    }
  }

  /** The first listed block from i on; the end of the row if there is none. */
  function NextListed(bs: seq<Block>, i: nat): (k: nat)
    requires i <= |bs|
    ensures i <= k <= |bs| && Without(bs[i..k], Listed)
    ensures k < |bs| ==> bs[k].status == Listed
    ensures Head(bs[i..]) == if k < |bs| then bs[k].addr else 0
    decreases |bs| - i
  {
    if i == |bs| then i
    else
      assert bs[i..][1..] == bs[i + 1..];
      if bs[i].status == Listed then
        assert bs[i..i] == [];
        i
      else
        var k := NextListed(bs, i + 1);
        assert bs[i..k][1..] == bs[i + 1..k];
        k
  }

  // ---------------------------------------------------------------------------------------
  // malloc.

  lemma {:induction false} LoseAt(bs: seq<Block>, i: nat)
    requires i < |bs|
    ensures Lose(bs)[i] == if bs[i].status == Listed then bs[i].(status := Lost) else bs[i]
    decreases i
  {
    if i > 0 {
      LoseAt(bs[1..], i - 1);
    }
  }

  /** The writes of malloc: the size of the taken block, and a header for what is left. */
  predicate TakeWrites(b: Block, n: nat, ptrs: seq<nat>, sizes: seq<nat>, ptrs': seq<nat>, sizes': seq<nat>)
    requires 0 < n <= b.size && b.End() <= |sizes| == |ptrs|
  {
    if b.size == n then ptrs' == ptrs && sizes' == sizes
    else
      && ptrs' == ptrs[b.addr + n := ptrs[b.addr]]
      && sizes' == sizes[b.addr + n := b.size - n][b.addr := n]
  }

  lemma TakeHeaders(bs: seq<Block>, k: nat, n: nat, lo: nat, hi: nat,
                    ptrs: seq<nat>, sizes: seq<nat>, ptrs': seq<nat>, sizes': seq<nat>)
    requires Layout(bs, lo, hi) && k < |bs| && bs[k].status == Listed && 0 < n <= bs[k].size
    requires Headers(bs, ptrs, sizes) && hi <= |sizes| && bs[k].End() <= |sizes|
    requires TakeWrites(bs[k], n, ptrs, sizes, ptrs', sizes')
    ensures Headers(Take(bs, k, n), ptrs', sizes')
    ensures Head(Take(bs, k, n)) == if bs[k].size > n then bs[k].addr + n else ptrs[bs[k].addr]
  {
    hide Layout, Head, Lose, Without, Headers, Take, HeaderOk, TakeWrites;
    var taken := Take(bs, k, n);
    Addresses(bs, lo, hi);
    TakenHead(bs, k, n);
    TakenRest(bs, k, n);
    Unfold(bs, ptrs, sizes);
    assert |ptrs'| == |sizes'| && ptrs[bs[k].addr] == Head(bs[k + 1..]) by { WritesAt(bs, k, n, ptrs, sizes, ptrs', sizes'); }
    forall i | 0 <= i < |taken|
      ensures HeaderOk(taken, i, ptrs', sizes')
    {
      assert i < |bs| + 1;
      if i < k {
        LostHeader(bs, i, k, n, ptrs, sizes, ptrs', sizes');
      } else if i < k + |Pieces(bs[k], n)| {
        PieceHeader(bs, i, k, n, ptrs, sizes, ptrs', sizes');
      } else {
        RestHeader(bs, i, k, n, ptrs, sizes, ptrs', sizes');
      }
    }
    Fold(taken, ptrs', sizes');
  }

  lemma WritesAt(bs: seq<Block>, k: nat, n: nat, ptrs: seq<nat>, sizes: seq<nat>, ptrs': seq<nat>, sizes': seq<nat>)
    requires k < |bs| && bs[k].status == Listed && 0 < n <= bs[k].size && bs[k].End() <= |sizes| == |ptrs|
    requires TakeWrites(bs[k], n, ptrs, sizes, ptrs', sizes') && HeaderOk(bs, k, ptrs, sizes)
    ensures |ptrs'| == |sizes'| == |sizes| && ptrs[bs[k].addr] == Head(bs[k + 1..])
  {
  }

  lemma LostHeader(bs: seq<Block>, i: nat, k: nat, n: nat, ptrs: seq<nat>, sizes: seq<nat>, ptrs': seq<nat>, sizes': seq<nat>)
    requires i < k < |bs| && 0 < n <= bs[k].size && bs[k].End() <= |sizes| == |ptrs| && bs[i].addr < bs[k].addr
    requires TakeWrites(bs[k], n, ptrs, sizes, ptrs', sizes') && HeaderOk(bs, i, ptrs, sizes)
    ensures HeaderOk(Take(bs, k, n), i, ptrs', sizes')
  {
    LoseAt(bs[..k], i);
    assert Take(bs, k, n)[i] == Lose(bs[..k])[i];
  }

  lemma PieceHeader(bs: seq<Block>, i: nat, k: nat, n: nat, ptrs: seq<nat>, sizes: seq<nat>, ptrs': seq<nat>, sizes': seq<nat>)
    requires k < |bs| && 0 < n <= bs[k].size && bs[k].End() <= |sizes| == |ptrs| && k <= i < k + |Pieces(bs[k], n)|
    requires TakeWrites(bs[k], n, ptrs, sizes, ptrs', sizes') && HeaderOk(bs, k, ptrs, sizes) && bs[k].status == Listed
    ensures i < |Take(bs, k, n)| && HeaderOk(Take(bs, k, n), i, ptrs', sizes')
  {
    TakenRest(bs, k, n);
    if i == k + 1 {
      assert Take(bs, k, n)[k + 2..] == bs[k + 1..];
    }
  }

  lemma RestHeader(bs: seq<Block>, i: nat, k: nat, n: nat, ptrs: seq<nat>, sizes: seq<nat>, ptrs': seq<nat>, sizes': seq<nat>)
    requires k < |bs| && 0 < n <= bs[k].size && bs[k].End() <= |sizes| == |ptrs|
    requires k + |Pieces(bs[k], n)| <= i < |Take(bs, k, n)|
    requires |Take(bs, k, n)| == |bs| + |Pieces(bs[k], n)| - 1
    requires var j := i - |Pieces(bs[k], n)| + 1; HeaderOk(bs, j, ptrs, sizes) && bs[j].addr >= bs[k].End()
    requires TakeWrites(bs[k], n, ptrs, sizes, ptrs', sizes')
    ensures HeaderOk(Take(bs, k, n), i, ptrs', sizes')
  {
    TakenRest(bs, k, n);
    var j := i - |Pieces(bs[k], n)| + 1;
    assert Take(bs, k, n)[i] == bs[j] && Take(bs, k, n)[i + 1..] == bs[j + 1..];
  }

  lemma Unfold(bs: seq<Block>, ptrs: seq<nat>, sizes: seq<nat>)
    requires Headers(bs, ptrs, sizes)
    ensures |ptrs| == |sizes| && forall i :: 0 <= i < |bs| ==> HeaderOk(bs, i, ptrs, sizes)
  {
  }

  lemma Fold(bs: seq<Block>, ptrs: seq<nat>, sizes: seq<nat>)
    requires |ptrs| == |sizes| && forall i :: 0 <= i < |bs| ==> HeaderOk(bs, i, ptrs, sizes)
    ensures Headers(bs, ptrs, sizes)
  {
  }

  /** The blocks after the pieces are the old ones, and so are the rows that start there. */
  lemma TakenRest(bs: seq<Block>, k: nat, n: nat)
    requires k < |bs| && n <= bs[k].size
    ensures var taken, pieces := Take(bs, k, n), |Pieces(bs[k], n)|;
            && |taken| == |bs| + pieces - 1
            && (forall i :: k <= i < k + pieces ==> taken[i] == Pieces(bs[k], n)[i - k])
            && (forall i :: k + pieces <= i < |taken| ==> taken[i] == bs[i - pieces + 1])
            && (forall i :: k + pieces <= i <= |taken| ==> taken[i..] == bs[i - pieces + 1..])
  {
  }

  lemma TakenHead(bs: seq<Block>, k: nat, n: nat)
    requires k < |bs| && bs[k].status == Listed && n <= bs[k].size
    ensures Head(Take(bs, k, n)) == if bs[k].size > n then bs[k].addr + n else Head(bs[k + 1..])
  {
    var pieces := Pieces(bs[k], n);
    assert |pieces| == 2 ==> pieces[1..] == [pieces[1]];
    assert |pieces| == 1 ==> pieces[1..] == [];
    HeadAppend(pieces, bs[k + 1..]);
    HeadAppend(Lose(bs[..k]), pieces + bs[k + 1..]);
  }

  // ---------------------------------------------------------------------------------------
  // free.

  /** The writes of free: the merged block's header, and the pointer of the last listed block below it. */
  lemma GiveHeaders(bs: seq<Block>, k: nat, lo: nat, hi: nat,
                    ptrs: seq<nat>, sizes: seq<nat>, ptrs': seq<nat>, sizes': seq<nat>)
    requires Layout(bs, lo, hi) && k < |bs| && bs[k].status == Live && Headers(bs, ptrs, sizes) && hi <= |sizes|
    requires |ptrs'| == |ptrs| && |sizes'| == |sizes|
    requires bs[MergeFrom(bs, k)].addr < bs[MergeTo(bs, k) - 1].End() <= |sizes|
    requires var i, j := MergeFrom(bs, k), MergeTo(bs, k);
             sizes'[bs[i].addr] == bs[j - 1].End() - bs[i].addr && ptrs'[bs[i].addr] == Head(bs[j..])
    requires forall m :: 0 <= m < |bs| && (m < MergeFrom(bs, k) || MergeTo(bs, k) <= m) ==>
               bs[m].addr < |sizes| && sizes'[bs[m].addr] == sizes[bs[m].addr]
    requires forall m :: MergeTo(bs, k) <= m < |bs| ==> bs[m].addr < |sizes| && ptrs'[bs[m].addr] == ptrs[bs[m].addr]
    requires forall m :: 0 <= m < MergeFrom(bs, k) && bs[m].status == Listed ==>
               bs[m].addr < |sizes| &&
               ptrs'[bs[m].addr] == if Without(bs[m + 1..MergeFrom(bs, k)], Listed) then bs[MergeFrom(bs, k)].addr else ptrs[bs[m].addr]
    ensures Headers(Give(bs, k), ptrs', sizes')
  {
    hide Layout, Head, Without;
    var i, j := MergeFrom(bs, k), MergeTo(bs, k);
    var given := Give(bs, k);
    forall m | 0 <= m < |given|
      ensures HeaderOk(given, m, ptrs', sizes')
    {
      if m < i {
        assert HeaderOk(bs, m, ptrs, sizes);
        GivenHead(bs, k, m + 1);
      } else if m == i {
        assert given[m + 1..] == bs[j..];
      } else {
        var old_ := m - i - 1 + j;
        assert given[m] == bs[old_] && given[m + 1..] == bs[old_ + 1..];
        assert HeaderOk(bs, old_, ptrs, sizes);
      }
    }
  }

  /** The list from before the merged block runs into it. */
  lemma GivenHead(bs: seq<Block>, k: nat, m: nat)
    requires k < |bs| && m <= MergeFrom(bs, k) && bs[MergeFrom(bs, k)].addr <= bs[MergeTo(bs, k) - 1].End()
    ensures Head(Give(bs, k)[m..]) ==
            if Without(bs[m..MergeFrom(bs, k)], Listed) then bs[MergeFrom(bs, k)].addr else Head(bs[m..])
  {
    var i, j := MergeFrom(bs, k), MergeTo(bs, k);
    var tail := [Block(bs[i].addr, bs[j - 1].End() - bs[i].addr, Listed)] + bs[j..];
    assert Give(bs, k)[m..] == bs[m..i] + tail;
    HeadAppend(bs[m..i], tail);
    assert bs[m..] == bs[m..i] + bs[i..];
    HeadAppend(bs[m..i], bs[i..]);
  }
}
